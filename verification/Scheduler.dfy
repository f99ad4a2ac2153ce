/** The two trap handlers of the scheduler on the linked task list (kernel/src/kmt.c), one CPU at
    a time: what kmt_context_save and kmt_schedule do to the tasks, and which task is chosen. */
module Scheduler {
  import opened Words

  class Task {
    var context: seq<nat>    // Context *context[4]
    var nest: nat            // i_nest
    var blocked: bool
    var running: bool
    var next: Task?

    constructor (ctx: nat)
      ensures context == [ctx, 0, 0, 0] && nest == 0 && !blocked && !running && next == null
    {
      context := [ctx, 0, 0, 0];
      nest, blocked, running, next := 0, false, false, null;
    }
  }

  /** How many steps along the circular list of n tasks lead from place p to place i; p is -1 for
      a task that is not on the list. */
  function Dist(p: int, i: int, n: int): int {
    if i > p then i - p else n - p + i
  }

  ghost function PlaceOf(l: seq<Task>, t: Task): (p: int)
    ensures -1 <= p < |l| && (t in l <==> p >= 0) && (p >= 0 ==> l[p] == t)
  {
    if t in l then (var i :| 0 <= i < |l| && l[i] == t; i) else -1
  }

  class Cpu {
    var taskList: Task?
    var taskCount: nat
    var currentTask: Task
    var lastTask: Task?
    const idle: Task
    ghost var list: seq<Task>

    ghost predicate Valid()
      reads this, idle, list
    {
      && taskCount == |list| && taskList == (if list == [] then null else list[0])
      && (forall i, j :: 0 <= i < j < |list| ==> list[i] != list[j])
      && idle !in list && idle.next == null && |idle.context| == 4
      && (forall i {:trigger list[i].next} :: 0 <= i < |list| ==>
          list[i].next == (if i + 1 < |list| then list[i + 1] else null))
      && (forall t {:trigger t in list} :: t in list ==> |t.context| == 4 && t.nest <= 1)
      && (currentTask == idle || currentTask in list)
      && (lastTask == null || lastTask == idle || lastTask in list)
    }

    /** kmt_init for one CPU, with its idle task in place. */
    constructor (idle: Task)
      requires idle.next == null && |idle.context| == 4
      ensures OneCpu() && list == [] && currentTask == idle && this.idle == idle && lastTask == null
    {
      this.idle := idle;
      taskList, taskCount, currentTask, lastTask := null, 0, idle, null;
      list := [];
    }

    /** create: the task goes to the front of the list. */
    method Create(task: Task, ctx: nat)
      requires Valid() && task !in list && task != idle && |task.context| == 4
      modifies `taskList, `taskCount, `list, task
      ensures Valid() && list == [task] + old(list) && currentTask == old(currentTask)
      ensures task.context == [ctx] + old(task.context)[1..] && task.nest == 0 && !task.blocked && !task.running
      ensures old(OneCpu()) ==> OneCpu()
    {
      task.context := task.context[0 := ctx];
      task.blocked := false;
      task.running := false;
      task.nest := 0;
      taskCount := taskCount + 1;
      task.next := taskList;
      taskList := task;
      ghost var was := list;
      list := [task] + list;
      forall i | 0 <= i < |list| ensures list[i].next == (if i + 1 < |list| then list[i + 1] else null) {
        if i > 0 {
          assert list[i] == was[i - 1] && was[i - 1] in was;
          assert old(was[i - 1].next) == (if i < |was| then was[i] else null);
        }
      }
    }

    /** kmt_context_save: the context is pushed onto the current task (always slot 0 for the idle
        task), the task left at the previous trap is given up, and the current task becomes the
        last one. */
    method KmtContextSave(context: nat)
      requires Valid()
      requires currentTask != idle ==> currentTask.nest == 0
      requires lastTask != null && lastTask != idle && lastTask != currentTask ==> lastTask.nest == 1
      modifies `lastTask, currentTask, lastTask
      ensures Valid() && lastTask == currentTask
      ensures currentTask.context == [context] + old(currentTask.context)[1..]
      ensures currentTask.nest == (if currentTask == idle then old(currentTask.nest) else 1)
      ensures currentTask.running == old(currentTask.running) && currentTask.blocked == old(currentTask.blocked)
      ensures var l := old(lastTask); l != null && l != idle && l != currentTask ==>
          !l.running && l.nest == 0 && l.context == old(l.context) && l.blocked == old(l.blocked)
      ensures old(lastTask) == idle && currentTask != idle ==> idle.context == old(idle.context)
    {
      if currentTask == idle {
        currentTask.context := currentTask.context[0 := context];
      } else {
        currentTask.context := currentTask.context[currentTask.nest := context];
        currentTask.nest := currentTask.nest + 1;
      }
      var last := lastTask;
      if last != null && last != idle && last != currentTask {
        last.running := false;
        last.nest := last.nest - 1;
      }
      lastTask := currentTask;
      LinksKept();
    }

    /** The place of a task on the list, -1 if it is not on it. */
    ghost function Index(t: Task): (p: int)
      reads `list
      ensures -1 <= p < |list| && (t in list <==> p >= 0) && (p >= 0 ==> list[p] == t)
    {
      PlaceOf(list, t)
    }

    /** The scan may stop at this task. */
    ghost predicate Eligible(t: Task)
      reads this, t
    {
      !t.blocked && (t == currentTask || !t.running)
    }

    /** No task of the list may be chosen. */
    ghost predicate AllRefused()
      requires Valid()
      reads this, idle, list
    {
      forall j :: 0 <= j < |list| ==> !Eligible(list[j])
    }

    /** The first k tasks after the current one on the circular list may not be chosen. */
    ghost predicate NoneEligible(k: int)
      requires Valid() && 0 <= k <= |list|
      reads this, idle, list
    {
      forall j {:trigger Dist(Index(currentTask), j, |list|)} ::
        0 <= j < |list| && Dist(Index(currentTask), j, |list|) <= k ==> !Eligible(list[j])
    }

    /** f is the place of the first task after the current one on the circular list that may be
        chosen. */
    ghost predicate IsFirstEligible(f: int)
      requires Valid()
      reads this, idle, list
    {
      0 <= f < |list| && Eligible(list[f]) && NoneEligible(Dist(Index(currentTask), f, |list|) - 1)
    }

    /** The loop of kmt_schedule: polling 2 * task_count + 2 tasks is enough to visit every task of
        the list, and it stops at the first one that may be chosen. */
    method Scan() returns (t: Task?, ghost f: int)
      requires Valid() && list != []
      ensures t != null ==> IsFirstEligible(f) && t == list[f]
      ensures t == null <==> AllRefused()
    {
      t := currentTask;
      ghost var n, p := |list|, Index(currentTask);
      f := p;
      var i := 0;
      while i < taskCount * 2 + 2
        invariant 0 <= i <= taskCount * 2 + 2
        invariant -1 <= f < n && (f == -1 ==> i == 0 && currentTask == idle) &&
            t == (if f == -1 then currentTask else list[f])
        invariant i <= n ==> f == (if p + i < n then p + i else p + i - n)
        invariant NoneEligible(if i <= n then i else n)
      {
        t := NextOf(t, f);
        f := if f + 1 < n then f + 1 else 0;
        FirstOrNone(i, f);
        if t == currentTask {
          if !t.blocked { return; }
        } else if !(t.running || t.blocked) {
          return;
        }
        i := i + 1;
      }
      AllVisited();
      t := null;
    }

    /** t->next, or the first of the list behind the last. */
    method NextOf(t: Task, ghost f: int) returns (t': Task)
      requires Valid() && list != [] && -1 <= f < |list| && t == (if f == -1 then currentTask else list[f])
      requires f == -1 ==> currentTask == idle
      ensures t' == list[if f + 1 < |list| then f + 1 else 0]
    {
      if f >= 0 { assert list[f].next == (if f + 1 < |list| then list[f + 1] else null); }
      if t.next != null {
        t' := t.next;
      } else {
        t' := taskList;
      }
    }

    /** The task one further either may be chosen, and is then the first such, or may not. */
    lemma FirstOrNone(i: int, f: int)
      requires Valid() && 0 <= i && 0 <= f < |list| && NoneEligible(if i <= |list| then i else |list|)
      requires var p := Index(currentTask); i < |list| ==>
          f == if p + i + 1 < |list| then p + i + 1 else p + i + 1 - |list|
      ensures Eligible(list[f]) ==> IsFirstEligible(f)
      ensures !Eligible(list[f]) ==> NoneEligible(if i + 1 <= |list| then i + 1 else |list|)
    {
      OneFurther(Index(currentTask), i, |list|, f);
    }

    lemma AllVisited()
      requires Valid() && NoneEligible(|list|)
      ensures AllRefused()
    {
      forall j | 0 <= j < |list| ensures !Eligible(list[j]) {
        assert Dist(Index(currentTask), j, |list|) <= |list|;
      }
    }

    /** kmt_schedule: the first eligible task on the circular list after the current one is chosen,
        and marked running unless it is the current one, whose context is popped instead; the idle
        task is chosen exactly when no task of the list is eligible. The context returned is the
        chosen task's. */
    method KmtSchedule() returns (ctx: nat, ghost f: int)
      requires Valid() && list != []
      requires currentTask != idle ==> currentTask.nest == 1
      requires forall t :: t in list && t != currentTask && !t.running ==> t.nest == 0
      modifies `currentTask, list
      ensures Valid() && list == old(list)
      ensures if currentTask == idle then f == -1 && old(AllRefused())
              else old(IsFirstEligible(f)) && currentTask == list[f]
      ensures currentTask != idle ==> currentTask.nest == 0
      ensures currentTask != idle ==>
          currentTask.running == (currentTask != old(currentTask) || old(currentTask.running))
      ensures ctx == currentTask.context[0]
      ensures forall t :: t in list ==>
          t.context == old(t.context) && t.blocked == old(t.blocked) && t.next == old(t.next)
      ensures forall t :: t in list && t != currentTask ==> t.running == old(t.running) && t.nest == old(t.nest)
    {
      var t;
      t, f := Scan();
      if t != null {
        assert t in list;
        ctx := SwitchTo(t);
      } else {
        f := -1;
        currentTask := idle;
        ctx := currentTask.context[0];
      }
    }

    /** No task but the current one is running. */
    ghost predicate NobodyElse()
      reads this, list
    {
      forall t {:trigger t in list} :: t in list && t != currentTask ==> !t.running
    }

    twostate lemma ChosenBySleep(f: int)
      requires old(Valid()) && old(NobodyElse()) && if f == -1 then old(AllRefused()) else old(IsFirstEligible(f))
      ensures Chosen(old(Awake(list)), old(Index(currentTask)), f)
    {
      var a, p, l := old(Awake(list)), old(Index(currentTask)), old(list);
      forall j | 0 <= j < |a| && (f == -1 || Dist(p, j, |a|) < Dist(p, f, |a|)) ensures !a[j] {
        assert l[j] in l && !old(Eligible(l[j]));
      }
      assert f >= 0 ==> l[f] in l;
    }

    lemma IndexIs(t: Task, f: int)
      requires Valid() && 0 <= f < |list| && list[f] == t
      ensures Index(t) == f
    {
    }

    /** The chosen task becomes the current one. */
    method SwitchTo(t: Task) returns (ctx: nat)
      requires Valid() && t in list && t.nest == (if t == currentTask then 1 else 0)
      modifies `currentTask, t
      ensures Valid() && currentTask == t && t.nest == 0 && ctx == t.context[0]
      ensures t.running == (t != old(currentTask) || old(t.running))
      ensures t.context == old(t.context) && t.blocked == old(t.blocked) && t.next == old(t.next)
    {
      if t == currentTask {
        t.nest := t.nest - 1;
      } else {
        t.running := true;
      }
      currentTask := t;
      LinksKept();
      ctx := currentTask.context[currentTask.nest];
    }

    twostate lemma LinksKept()
      requires old(Valid()) && list == old(list)
      requires forall t :: t in list ==> t.next == old(t.next)
      ensures forall i {:trigger list[i].next} :: 0 <= i < |list| ==>
          list[i].next == (if i + 1 < |list| then list[i + 1] else null)
    {
      forall i | 0 <= i < |list| ensures list[i].next == (if i + 1 < |list| then list[i + 1] else null) {
        assert list[i] in list;
        assert old(list[i].next) == (if i + 1 < |list| then list[i + 1] else null);
      }
    }

    // -------------------------------------------------------------- traps on one CPU

    /** With one CPU exactly the current task and the one left at the last trap are running, and only the
        latter has a context pushed. Holds between traps. */
    ghost predicate OneCpu()
      reads this, idle, list
    {
      var holds :=
        && Valid()
        && (currentTask != idle ==> currentTask.nest == 0)
        && (lastTask != null && lastTask != idle && lastTask != currentTask ==> lastTask.nest == 1)
        && (forall t {:trigger t in list} :: t in list ==>
            (t.running <==> t == currentTask || t == lastTask) && (t != currentTask && t != lastTask ==> t.nest == 0));
      holds
    }

    /** Between the handlers only the current task is in use. */
    ghost predicate OnlyCurrent()
      reads this, idle, list
    {
      var holds :=
        && Valid() && (currentTask != idle ==> currentTask.nest == 1)
        && (forall t {:trigger t in list} :: t in list ==>
            (t.running <==> t == currentTask) && (t != currentTask ==> t.nest == 0));
      holds
    }

    method SaveHandler(context: nat)
      requires OneCpu()
      modifies `lastTask, currentTask, lastTask
      ensures OnlyCurrent() && list == old(list) && currentTask == old(currentTask) && lastTask == currentTask
      ensures forall t {:trigger t in list} :: t in list ==> t.blocked == old(t.blocked)
      ensures currentTask.context == [context] + old(currentTask.context)[1..]
      ensures forall t {:trigger t in list} :: t in list && t != currentTask ==> t.context == old(t.context)
      ensures currentTask != idle ==> idle.context == old(idle.context)
    {
      KmtContextSave(context);
    }

    method ScheduleHandler() returns (ctx: nat)
      requires OnlyCurrent() && list != [] && lastTask == currentTask
      modifies `currentTask, list
      ensures OneCpu() && list == old(list) && lastTask == old(lastTask) && ctx == currentTask.context[0]
      ensures Chosen(old(Awake(list)), old(Index(currentTask)), Index(currentTask))
      ensures forall t {:trigger t in list} :: t in list ==> t.context == old(t.context)
    {
      ghost var f;
      ctx, f := KmtSchedule();
      ChosenBySleep(f);
      if f >= 0 { IndexIs(currentTask, f); }
    }

    /** One trap on one CPU: the two handlers leave the CPU as the next trap expects it, and the task
        chosen is the first one awake after the current one, idle exactly when none is. The task it
        interrupted, be it the idle one, has the trap's context to go on with, every other task has the
        one it had, and the chosen task goes on with its own. */
    method Trap(context: nat) returns (ctx: nat)
      requires OneCpu() && list != []
      modifies this, idle, list
      ensures OneCpu() && list == old(list) && ctx == currentTask.context[0]
      ensures Chosen(old(Awake(list)), old(Index(currentTask)), Index(currentTask))
      ensures lastTask == old(currentTask) && (currentTask != idle ==> currentTask.running)
      ensures lastTask.context == [context] + old(currentTask.context)[1..]
      ensures forall t {:trigger t in list} :: t in list && t != lastTask ==> t.context == old(t.context)
      ensures lastTask != idle ==> idle.context == old(idle.context)
    {
      SaveHandler(context);
      ctx := ScheduleHandler();
    }

    /** What others do between two traps: they put tasks to sleep and wake them. */
    method OthersSleep(tasks: seq<Task>, asleep: set<Task>)
      requires OneCpu() && tasks == list
      modifies list
      ensures OneCpu()
      ensures forall j {:trigger list[j]} :: 0 <= j < |list| ==> list[j].blocked == (list[j] in asleep)
    {
      forall t | t in tasks {
        t.blocked := t in asleep;
      }
      LinksKept();
    }

    /** On one CPU a task that stays awake runs within task_count traps, whatever the others do in
        the meantime: asleep[m] are the tasks asleep at the m-th trap, contexts[m] is what it saves. */
    method RunsSoon(i: nat, tasks: seq<Task>, asleep: seq<set<Task>>, contexts: seq<nat>) returns (traps: nat)
      requires OneCpu() && tasks == list && i < |list| && |asleep| == |contexts| >= |list|
      requires forall m {:trigger asleep[m]} :: 0 <= m < |asleep| ==> list[i] !in asleep[m]
      modifies this, idle, list
      ensures OneCpu() && list == old(list)
      ensures 1 <= traps <= |list| && currentTask == list[i]
    {
      traps := 0;
      ghost var n := |list|;
      DistBounds(Index(currentTask), i, n);
      while traps == 0 || currentTask != tasks[i]
        invariant OneCpu() && list == tasks && traps <= n
        invariant traps == 0 || currentTask != tasks[i] ==> traps + Dist(Index(currentTask), i, n) <= n
        decreases n - traps
      {
        ghost var p := Index(currentTask);
        DistBounds(p, i, n);
        OthersSleep(tasks, asleep[traps]);
        assert Index(currentTask) == p && Awake(list)[i];
        Closer(Awake(list), p, i);
        var ctx := Trap(contexts[traps]);
        traps := traps + 1;
      }
    }

    lemma OneFurther(p: int, i: int, n: int, at: int)
      requires -1 <= p < n && 0 <= i && 0 <= at < n
      requires i < n ==> at == (if p + i + 1 < n then p + i + 1 else p + i + 1 - n)
      ensures i < n ==> Dist(p, at, n) == i + 1
      ensures forall j {:trigger Dist(p, j, n)} :: 0 <= j < n && Dist(p, j, n) <= i + 1 && i < n ==>
          j == at || Dist(p, j, n) <= i
      ensures forall j {:trigger Dist(p, j, n)} :: 0 <= j < n ==> 1 <= Dist(p, j, n) <= n
    {
    }
  }

  lemma DistBounds(p: int, i: int, n: int)
    requires -1 <= p < n && 0 <= i < n
    ensures 1 <= Dist(p, i, n) <= n
  {
  }

  /** Whatever place is chosen, it is i's or nearer to it. */
  lemma Closer(awake: seq<bool>, p: int, i: nat)
    requires i < |awake| && awake[i] && -1 <= p < |awake|
    ensures forall f {:trigger Chosen(awake, p, f)} :: Chosen(awake, p, f) ==>
        0 <= f < |awake| && (f == i || Dist(f, i, |awake|) < Dist(p, i, |awake|))
  {
  }

  // ---------------------------------------------------------------- fairness on one CPU

  /** Who of the list is awake. */
  ghost function Awake(list: seq<Task>): (a: seq<bool>)
    reads list
    ensures |a| == |list| && forall i :: 0 <= i < |list| ==> a[i] == !list[i].blocked
  {
    seq(|list|, i requires 0 <= i < |list| reads list => !list[i].blocked)
  }

  /** When no other CPU keeps a task running, kmt_schedule chooses by sleep alone. */
  lemma FirstEligibleIsChosen(cpu: Cpu, f: int)
    requires cpu.Valid() && cpu.IsFirstEligible(f)
    requires forall t :: t in cpu.list && t != cpu.currentTask ==> !t.running
    ensures Chosen(Awake(cpu.list), cpu.Index(cpu.currentTask), f)
  {
    var a, p := Awake(cpu.list), cpu.Index(cpu.currentTask);
    forall j | 0 <= j < |a| && Dist(p, j, |a|) < Dist(p, f, |a|) ensures !a[j] {
      assert cpu.list[j] in cpu.list;
    }
  }

  lemma NoneEligibleIsIdle(cpu: Cpu)
    requires cpu.Valid() && forall t :: t in cpu.list && t != cpu.currentTask ==> !t.running
    ensures cpu.AllRefused() <==> Chosen(Awake(cpu.list), cpu.Index(cpu.currentTask), -1)
  {
    forall j | 0 <= j < |cpu.list| ensures Awake(cpu.list)[j] <==> cpu.Eligible(cpu.list[j]) {
      assert cpu.list[j] in cpu.list;
    }
  }

  /** The place chosen on one CPU, where no other CPU keeps a task running: the first task after p
      that is awake, -1 for the idle task. */
  ghost predicate Chosen(awake: seq<bool>, p: int, f: int) {
    var holds :=
      && -1 <= f < |awake|
      && (f == -1 ==> forall j :: 0 <= j < |awake| ==> !awake[j])
      && (f >= 0 ==>
          awake[f] && forall j :: 0 <= j < |awake| && Dist(p, j, |awake|) < Dist(p, f, |awake|) ==> !awake[j]);
    holds
  }

  /** On one CPU a task that stays awake runs within task_count traps, whatever the others do in
      the meantime: awake[m] says who is awake at the m-th trap, at[m] who ran before it. */
  lemma {:induction false} RunsWithinTaskCount(n: nat, awake: seq<seq<bool>>, at: seq<int>, i: nat, m: nat)
      returns (r: nat)
    requires i < n && m + n < |at| && |at| == |awake| + 1
    requires forall k :: 0 <= k < |awake| ==> |awake[k]| == n && awake[k][i]
    requires -1 <= at[m] < n
    requires forall k :: 0 <= k < |awake| ==> Chosen(awake[k], at[k], at[k + 1])
    ensures m < r <= m + n && at[r] == i
  {
    r := RunsWithin(n, awake, at, i, m, Dist(at[m], i, n));
  }

  lemma {:induction false} RunsWithin(n: nat, awake: seq<seq<bool>>, at: seq<int>, i: nat, m: nat, d: nat)
      returns (r: nat)
    requires i < n && m + d < |at| && |at| == |awake| + 1
    requires forall k :: 0 <= k < |awake| ==> |awake[k]| == n && awake[k][i]
    requires -1 <= at[m] < n && Dist(at[m], i, n) <= d
    requires forall k :: 0 <= k < |awake| ==> Chosen(awake[k], at[k], at[k + 1])
    ensures m < r <= m + d && at[r] == i
    decreases d
  {
    assert Chosen(awake[m], at[m], at[m + 1]);
    if at[m + 1] == i {
      r := m + 1;
    } else {
      assert Dist(at[m + 1], i, n) < Dist(at[m], i, n);
      r := RunsWithin(n, awake, at, i, m + 1, d - 1);
    }
  }
}
