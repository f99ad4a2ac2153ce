/** The sleeping semaphore's ring of waiters (kernel/src/sem.c), one critical section at a time.
    Kernel interleaves these operations with the scheduler. */
module Semaphore {
  import opened Scheduler
  import K = Kernel

  /** The semaphore of the transition system with the same resource and the same waiters, by number. */
  ghost predicate Shows(s: K.Sem, resource: int, waiters: seq<Task>, id: map<Task, nat>) {
    && s.resource == resource && |s.queue| == |waiters|
    && forall i {:trigger waiters[i]} :: 0 <= i < |waiters| ==> waiters[i] in id && s.queue[i] == id[waiters[i]]
  }

  /** The tasks sleep as flags says: distinct tasks have distinct numbers, and their flags agree. */
  ghost predicate SleepAgrees(tasks: seq<K.Task>, id: map<Task, nat>, flags: map<Task, bool>) {
    && flags.Keys == id.Keys
    && (forall t {:trigger id[t]} :: t in id ==> id[t] < |tasks| && tasks[id[t]].blocked == flags[t])
    && (forall t, u {:trigger id[t], id[u]} :: t in id && u in id && t != u ==> id[t] != id[u])
  }

  /** A semaphore with this resource, these waiters and these sleepers is semaphore k of S. */
  ghost predicate MirrorsAs(S: K.State, k: nat, id: map<Task, nat>, resource: int, waiters: seq<Task>,
          flags: map<Task, bool>) {
    k < |S.sems| && Shows(S.sems[k], resource, waiters, id) && SleepAgrees(S.tasks, id, flags)
  }

  /** Passing, or joining the queue and falling asleep, is the transition system's wait. */
  lemma WaitMirrors(S: K.State, k: nat, id: map<Task, nat>, resource: int, waiters: seq<Task>,
                   flags: map<Task, bool>, t: Task)
    requires MirrorsAs(S, k, id, resource, waiters, flags) && t in id
    ensures resource > 0 ==> MirrorsAs(K.WaitOn(S, k, id[t]), k, id, resource - 1, waiters, flags)
    ensures resource <= 0 ==> MirrorsAs(K.WaitOn(S, k, id[t]), k, id, resource, waiters + [t], flags[t := true])
  {
  }

  /** Waking the first waiter, or leaving a resource, is its signal. */
  lemma SignalMirrors(S: K.State, k: nat, id: map<Task, nat>, resource: int, waiters: seq<Task>, flags: map<Task, bool>)
    requires MirrorsAs(S, k, id, resource, waiters, flags)
    ensures waiters != [] && resource == 0 ==>
              MirrorsAs(K.SignalOn(S, k), k, id, resource, waiters[1..], flags[waiters[0] := false])
    ensures waiters == [] || resource != 0 ==> MirrorsAs(K.SignalOn(S, k), k, id, resource + 1, waiters, flags)
  {
    if waiters != [] && resource == 0 {
      var q := S.sems[k].queue;
      assert waiters[0] in id && q[0] == id[waiters[0]];
      assert Shows(K.SignalOn(S, k).sems[k], resource, waiters[1..], id) by {
        forall i {:trigger waiters[1..][i]} | 0 <= i < |waiters| - 1
          ensures waiters[1..][i] in id && q[1..][i] == id[waiters[1..][i]]
        {
          assert waiters[1..][i] == waiters[i + 1];
        }
      }
    }
  }

  /** Who of the tasks with a number is asleep. */
  ghost function Flags(id: map<Task, nat>): map<Task, bool>
    reads id.Keys
  {
    map t | t in id :: t.blocked
  }

  /** The cells of a ring from head up to tail. */
  function RingOf(cells: seq<Task?>, head: nat, tail: nat): (q: seq<Task?>)
    requires |cells| == K.SEM_CAPACITY && head < K.SEM_CAPACITY && tail < K.SEM_CAPACITY
  {
    if head <= tail then cells[head..tail] else cells[head..] + cells[..tail]
  }

  /** A task goes in at the tail; into a ring with 255 waiters it goes as well, which then looks
      empty. */
  lemma RingPush(cells: seq<Task?>, head: nat, tail: nat, t: Task)
    requires |cells| == K.SEM_CAPACITY && head < K.SEM_CAPACITY && tail < K.SEM_CAPACITY
    ensures RingOf(cells[tail := t], head, (tail + 1) % K.SEM_CAPACITY) ==
            if |RingOf(cells, head, tail)| + 1 < K.SEM_CAPACITY then RingOf(cells, head, tail) + [t] else []
  {
    var cells' := cells[tail := t];
    if tail + 1 < K.SEM_CAPACITY {
      assert cells'[..tail + 1] == cells[..tail] + [t];
      if head <= tail { assert cells'[head..tail + 1] == cells[head..tail] + [t]; }
    } else {
      assert cells'[head..] == cells[head..tail] + [t];
    }
  }

  lemma FirstOfSlice<X>(s: seq<X>, i: nat, j: nat, rest: seq<X>)
    requires i < j <= |s|
    ensures s[i..j] + rest == [s[i]] + (s[i + 1..j] + rest)
  {
  }

  /** The first task comes out at the head. */
  lemma RingPop(cells: seq<Task?>, head: nat, tail: nat, next: nat)
    requires |cells| == K.SEM_CAPACITY && head < K.SEM_CAPACITY && tail < K.SEM_CAPACITY && head != tail
    requires next == (head + 1) % K.SEM_CAPACITY
    ensures RingOf(cells, head, tail) == [cells[head]] + RingOf(cells, next, tail)
  {
    if head < tail {
      FirstOfSlice(cells, head, tail, []);
      assert cells[head..tail] + [] == cells[head..tail] && cells[head + 1..tail] + [] == cells[head + 1..tail];
    } else {
      FirstOfSlice(cells, head, |cells|, cells[..tail]);
      assert cells[head..] == cells[head..|cells|] && cells[head + 1..] == cells[head + 1..|cells|];
      if next == 0 { assert cells[head + 1..] + cells[..tail] == cells[0..tail]; }
    }
  }

  class Sem {
    var resource: int
    const waitQueue: array<Task?>
    var queueHead: nat
    var queueTail: nat

    ghost predicate Valid()
      reads this, waitQueue
    {
      && waitQueue.Length == K.SEM_CAPACITY && queueHead < K.SEM_CAPACITY && queueTail < K.SEM_CAPACITY
      && (forall i {:trigger waitQueue[i]} :: 0 <= i < K.SEM_CAPACITY && InUse(i) ==> waitQueue[i] != null)
    }

    ghost predicate InUse(i: int)
      reads `queueHead, `queueTail
    {
      if queueHead <= queueTail then queueHead <= i < queueTail else i >= queueHead || i < queueTail
    }

    ghost function Ring(): (q: seq<Task?>)
      requires Valid()
      reads this, waitQueue
    {
      RingOf(waitQueue[..], queueHead, queueTail)
    }

    /** The waiters, first come first. */
    ghost function Waiters(): (q: seq<Task>)
      requires Valid()
      reads this, waitQueue
      ensures |q| == |Ring()| && forall i :: 0 <= i < |q| ==> q[i] == Ring()[i]
    {
      seq(|Ring()|, i requires Valid() && 0 <= i < |Ring()| reads this, waitQueue => NonNull(i))
    }

    ghost function NonNull(i: nat): (t: Task)
      requires Valid() && i < |Ring()|
      reads this, waitQueue
      ensures t == Ring()[i]
    {
      var at := if queueHead + i < K.SEM_CAPACITY then queueHead + i else queueHead + i - K.SEM_CAPACITY;
      assert InUse(at) && waitQueue[at] == Ring()[i];
      waitQueue[at]
    }

    /** Semaphore k of the transition system is this one, and its tasks sleep as these do. */
    ghost predicate Mirrors(S: K.State, k: nat, id: map<Task, nat>)
      requires Valid()
      reads this, waitQueue, id.Keys
    {
      MirrorsAs(S, k, id, resource, Waiters(), Flags(id))
    }

    /** sem_init */
    constructor (value: int)
      ensures Valid() && resource == value && Waiters() == []
    {
      resource := value;
      waitQueue := new Task?[K.SEM_CAPACITY];
      queueHead := 0;
      queueTail := 0;
      new;
      for i := 0 to K.SEM_CAPACITY
        invariant waitQueue.Length == K.SEM_CAPACITY && queueHead == queueTail == 0 && resource == value
      {
        waitQueue[i] := null;
      }
    }

    /** The critical section of sem_wait: pass at once, or fall asleep behind the others. A ring with
        255 waiters has no room: one more makes it look empty, and everybody in it is lost. */
    method PassOrSleep(t: Task)
      requires Valid()
      modifies this, waitQueue, t`blocked
      ensures Valid()
      ensures old(resource) > 0 ==>
          resource == old(resource) - 1 && Waiters() == old(Waiters()) && t.blocked == old(t.blocked)
      ensures old(resource) <= 0 ==> resource == old(resource) && t.blocked
      ensures old(resource) <= 0 ==>
                Waiters() == if |old(Waiters())| + 1 < K.SEM_CAPACITY then old(Waiters()) + [t] else []
    {
      if resource > 0 {
        resource := resource - 1;
      } else {
        RingPush(waitQueue[..], queueHead, queueTail, t);
        t.blocked := true;
        waitQueue[queueTail] := t;
        queueTail := (queueTail + 1) % K.SEM_CAPACITY;
      }
    }

    /** sem_wait is the transition system's wait: whatever state of it this semaphore mirrors, it
        mirrors the state after that step afterwards, as long as the ring has room. */
    method SemWait(t: Task, ghost S: K.State, ghost k: nat, ghost id: map<Task, nat>)
      requires Valid()
      modifies this, waitQueue, t`blocked
      ensures Valid()
      ensures old(resource) > 0 ==>
          resource == old(resource) - 1 && Waiters() == old(Waiters()) && t.blocked == old(t.blocked)
      ensures old(resource) <= 0 ==> resource == old(resource) && t.blocked
      ensures old(resource) <= 0 ==>
                Waiters() == if |old(Waiters())| + 1 < K.SEM_CAPACITY then old(Waiters()) + [t] else []
      ensures t in id && old(Mirrors(S, k, id)) && (old(resource) > 0 || |old(Waiters())| + 1 < K.SEM_CAPACITY) ==>
                Mirrors(K.WaitOn(S, k, id[t]), k, id)
    {
      ghost var r, q, flags := resource, Waiters(), Flags(id);
      PassOrSleep(t);
      assert t in id ==> Flags(id) == if r > 0 then flags else flags[t := true];
      if t in id && MirrorsAs(S, k, id, r, q, flags) { WaitMirrors(S, k, id, r, q, flags, t); }
    }

    /** The critical section of sem_signal: wake exactly the first waiter, or leave one more
        resource. */
    method WakeOrLeave() returns (woken: Task?)
      requires Valid()
      modifies this, if Waiters() == [] then {} else {Waiters()[0]}
      ensures Valid()
      ensures old(Waiters()) != [] && old(resource) == 0 ==>
          woken == old(Waiters())[0] && !woken.blocked && Waiters() == old(Waiters())[1..] && resource == old(resource)
      ensures old(Waiters()) == [] || old(resource) != 0 ==>
          woken == null && resource == old(resource) + 1 && Waiters() == old(Waiters())
      ensures old(Waiters()) != [] && old(resource) != 0 ==>
          old(Waiters())[0].blocked == old(Waiters()[0].blocked)
    {
      if queueHead != queueTail && resource == 0 {
        RingPop(waitQueue[..], queueHead, queueTail, (queueHead + 1) % K.SEM_CAPACITY);
        assert InUse(queueHead);
        woken := waitQueue[queueHead];
        woken.blocked := false;
        queueHead := (queueHead + 1) % K.SEM_CAPACITY;
        assert old(Ring()) == [woken] + Ring();
      } else {
        woken := null;
        resource := resource + 1;
      }
    }

    /** And sem_signal is its signal. */
    method SemSignal(ghost S: K.State, ghost k: nat, ghost id: map<Task, nat>) returns (woken: Task?)
      requires Valid()
      modifies this, if Waiters() == [] then {} else {Waiters()[0]}
      ensures Valid()
      ensures old(Waiters()) != [] && old(resource) == 0 ==>
          woken == old(Waiters())[0] && !woken.blocked && Waiters() == old(Waiters())[1..] && resource == old(resource)
      ensures old(Waiters()) == [] || old(resource) != 0 ==>
          woken == null && resource == old(resource) + 1 && Waiters() == old(Waiters())
      ensures old(Waiters()) != [] && old(resource) != 0 ==>
          old(Waiters())[0].blocked == old(Waiters()[0].blocked)
      ensures old(Mirrors(S, k, id)) ==> Mirrors(K.SignalOn(S, k), k, id)
    {
      ghost var r, q, flags := resource, Waiters(), Flags(id);
      woken := WakeOrLeave();
      assert q != [] && q[0] in id ==> Flags(id) == if r == 0 then flags[q[0] := false] else flags;
      assert q == [] ==> Flags(id) == flags;
      if MirrorsAs(S, k, id, r, q, flags) { SignalMirrors(S, k, id, r, q, flags); }
    }
  }
}
