/** The multi-CPU scheduler and the sleeping semaphores (kernel/src/kmt.c, kernel/src/sem.c),
    interleaved one atomic step at a time: a step is one critical section under a task's or a
    semaphore's lock, or one access outside them.

    Tasks are numbered in the order of their creation; `create` pushes them at the front of
    `task_list`, so the task after task i on the list is task i - 1 and the first is the newest. */
module Kernel {
  import opened Words

  const SEM_CAPACITY := 256

  /** Every CPU has an idle task of its own that is not on the list. */
  datatype TaskRef = IdleOf(cpu: nat) | T(i: nat)

  /** context[0..4] and i_nest as in task_t. The rest is history: the CPU that last made the task
      running and has not given it up, and the semaphore it fell asleep on and has not been woken
      from. */
  datatype Task = Task(blocked: bool, running: bool, nest: nat, context: seq<nat>, holder: Option<nat>,
          asleep: Option<nat>)

  /** What the CPU does next. Save to SetLast are kmt_context_save, Poll is the loop of
      kmt_schedule with its pointer t and its counter. */
  datatype Pc =
    | User
    | Save(ctx: nat)
    | ReleaseLast
    | SetLast
    | Poll(t: TaskRef, count: nat)

  datatype Cpu = Cpu(cur: TaskRef, last: Option<TaskRef>, pc: Pc)

  /** A semaphore with its queue of waiters, and its history: the initial value, how many waits
      passed at once, who fell asleep and who was woken, in order, and the number of signals. */
  datatype Sem = Sem(resource: int, queue: seq<nat>, initial: int, passed: nat, slept: seq<nat>, woken: seq<nat>,
          signals: nat)

  datatype State = State(tasks: seq<Task>, cpus: seq<Cpu>, idle: seq<nat>, sems: seq<Sem>)

  // ---------------------------------------------------------------- semaphore operations

  /** The critical section of sem_wait by task i: pass, or fall asleep at the end of the queue. */
  function WaitSem(s: Sem, i: nat): Sem {
    if s.resource > 0 then s.(resource := s.resource - 1, passed := s.passed + 1)
    else s.(queue := s.queue + [i], slept := s.slept + [i])
  }

  /** The critical section of sem_signal: wake the first waiter, or leave one more resource. */
  function SignalSem(s: Sem): Sem {
    if s.queue != [] && s.resource == 0 then
      s.(queue := s.queue[1..], woken := s.woken + [s.queue[0]], signals := s.signals + 1)
    else s.(resource := s.resource + 1, signals := s.signals + 1)
  }

  /** Nothing is left while anybody waits; who fell asleep was woken, in that order, or waits; and
      passes and wake-ups are what there was at first and by signals, less what is left. */
  ghost predicate SemOk(s: Sem) {
    var holds :=
      && s.resource >= 0 && (s.queue != [] ==> s.resource == 0)
      && s.slept == s.woken + s.queue
      && s.passed + |s.woken| == s.initial + s.signals - s.resource;
    holds
  }

  // ---------------------------------------------------------------- steps

  function SetCpu(S: State, c: nat, cpu: Cpu): State
    requires c < |S.cpus|
  {
    S.(cpus := S.cpus[c := cpu])
  }

  function SetTask(S: State, i: nat, t: Task): State
    requires i < |S.tasks|
  {
    S.(tasks := S.tasks[i := t])
  }

  function SetSem(S: State, k: nat, s: Sem): State
    requires k < |S.sems|
  {
    S.(sems := S.sems[k := s])
  }

  /** t->next, or task_list at the end of the list. */
  function NextTask(S: State, t: TaskRef): TaskRef
    requires |S.tasks| > 0
  {
    if t.T? && t.i > 0 then T(t.i - 1) else T(|S.tasks| - 1)
  }

  ghost predicate Trap(S: State, S': State, c: nat) {
    c < |S.cpus| &&
    exists ctx: nat :: S' == SetCpu(S, c, S.cpus[c].(pc := Save(ctx)))
  }

  /** sem_wait by the running task, which is not asleep. */
  ghost predicate Wait(S: State, S': State, c: nat) {
    c < |S.cpus| &&
    exists k: nat :: k < |S.sems| && S.cpus[c].cur.T? && S.cpus[c].cur.i < |S.tasks| &&
        !S.tasks[S.cpus[c].cur.i].blocked &&
      |S.sems[k].queue| + 1 < SEM_CAPACITY &&
      S' == WaitOn(S, k, S.cpus[c].cur.i)
  }

  function WaitOn(S: State, k: nat, i: nat): State
    requires k < |S.sems| && i < |S.tasks|
  {
    var S1 := SetSem(S, k, WaitSem(S.sems[k], i));
    if S.sems[k].resource > 0 then S1 else SetTask(S1, i, S.tasks[i].(blocked := true, asleep := Some(k)))
  }

  /** sem_signal, from a task or from an interrupt handler, on any CPU at any time. */
  ghost predicate Signal(S: State, S': State) {
    exists k: nat :: k < |S.sems| && S' == SignalOn(S, k)
  }

  function SignalOn(S: State, k: nat): State
    requires k < |S.sems|
  {
    var s := S.sems[k];
    var S1 := SetSem(S, k, SignalSem(s));
    if s.queue != [] && s.resource == 0 && s.queue[0] < |S.tasks|
    then SetTask(S1, s.queue[0], S.tasks[s.queue[0]].(blocked := false, asleep := None)) else S1
  }

  /** create: a new task at the front of the list, with the context kcontext gave it. */
  ghost predicate CreateWith(S: State, S': State, ctx: nat) {
    exists rest: seq<nat> :: |rest| == 3 &&
        S' == S.(tasks := S.tasks + [Task(false, false, 0, [ctx] + rest, None, None)])
  }

  ghost predicate Create(S: State, S': State) {
    exists ctx: nat :: CreateWith(S, S', ctx)
  }

  function PushContext(t: Task, ctx: nat): Task
    requires t.nest < |t.context|
  {
    t.(context := t.context[t.nest := ctx], nest := t.nest + 1)
  }

  ghost predicate SaveStep(S: State, S': State, c: nat, ctx: nat) {
    c < |S.cpus| &&
    var next := S.cpus[c].(pc := ReleaseLast);
    match S.cpus[c].cur
    case IdleOf(d) => d < |S.idle| && S' == SetCpu(S.(idle := S.idle[d := ctx]), c, next)
    case T(i) =>
        i < |S.tasks| && S.tasks[i].nest < |S.tasks[i].context| &&
        S' == SetCpu(SetTask(S, i, PushContext(S.tasks[i], ctx)), c, next)
  }

  /** The departed task is given up only now, on its CPU's next trap. */
  ghost predicate ReleaseStep(S: State, S': State, c: nat) {
    c < |S.cpus| &&
    var next := S.cpus[c].(pc := SetLast);
    if S.cpus[c].last.Some? && S.cpus[c].last.value.T? && S.cpus[c].last.value != S.cpus[c].cur then
      var i := S.cpus[c].last.value.i;
      i < |S.tasks| && S.tasks[i].nest > 0 &&
      S' == SetCpu(SetTask(S, i, S.tasks[i].(running := false, nest := S.tasks[i].nest - 1, holder := None)), c, next)
    else S' == SetCpu(S, c, next)
  }

  ghost predicate PollStep(S: State, S': State, c: nat, t: TaskRef, count: nat) {
    c < |S.cpus| && |S.tasks| > 0 &&
    if count < 2 * |S.tasks| + 2 then
      var n := NextTask(S, t);
      n.i < |S.tasks| &&
      var again := SetCpu(S, c, S.cpus[c].(pc := Poll(n, count + 1)));
      if n == S.cpus[c].cur then
        if S.tasks[n.i].blocked then S' == again
        else (S.tasks[n.i].nest > 0 &&
            S' == SetCpu(SetTask(S, n.i, S.tasks[n.i].(nest := S.tasks[n.i].nest - 1)), c, S.cpus[c].(pc := User)))
      else if S.tasks[n.i].running || S.tasks[n.i].blocked then S' == again
      else S' == SetCpu(SetTask(S, n.i, S.tasks[n.i].(running := true, holder := Some(c))), c,
          S.cpus[c].(cur := n, pc := User))
    else
      S' == SetCpu(S, c, S.cpus[c].(cur := IdleOf(c), pc := User))
  }

  ghost predicate Step(S: State, S': State, c: nat) {
    c < |S.cpus| && ( || Signal(S, S')
      || Create(S, S')
      || match S.cpus[c].pc
         case User => Trap(S, S', c) || Wait(S, S', c)
         case Save(ctx) => SaveStep(S, S', c, ctx)
         case ReleaseLast => ReleaseStep(S, S', c)
         case SetLast => S' == SetCpu(S, c, S.cpus[c].(last := Some(S.cpus[c].cur), pc := Poll(S.cpus[c].cur, 0)))
         case Poll(t, count) => PollStep(S, S', c, t, count))
  }

  /** Every CPU runs its own idle task, no task exists yet, no semaphore has been used. */
  ghost predicate Init(S: State) {
    && S.tasks == [] && |S.idle| == |S.cpus|
    && (forall c :: 0 <= c < |S.cpus| ==> S.cpus[c] == Cpu(IdleOf(c), None, User))
    && (forall k :: 0 <= k < |S.sems| ==>
          S.sems[k].initial >= 0 && S.sems[k] == Sem(S.sems[k].initial, [], S.sems[k].initial, 0, [], [], 0))
  }

  // ---------------------------------------------------------------- the invariant

  /** CPU c still uses task i's stack or context: it is the CPU's current task, or the one it left
      at its last scheduling and has not given up since. */
  predicate Owns(cpu: Cpu, i: nat) {
    cpu.cur == T(i) || (cpu.last == Some(T(i)) && cpu.pc != SetLast)
  }

  /** The owning CPU has pushed a context of task i that it has not popped. */
  predicate Pushed(cpu: Cpu, i: nat) {
    if cpu.cur == T(i) then cpu.pc.ReleaseLast? || cpu.pc.SetLast? || cpu.pc.Poll? else Owns(cpu, i)
  }

  /** Task i waits in the queue of semaphore k. */
  predicate WaitsIn(S: State, i: nat, k: nat) {
    k < |S.sems| && i in S.sems[k].queue
  }

  ghost predicate TaskOk(S: State, i: nat) {
    i < |S.tasks| &&
    var t := S.tasks[i];
    && |t.context| == 4 && t.nest <= 1
    && (t.running <==> t.holder.Some?) && (t.holder.Some? ==> t.holder.value < |S.cpus|)
    && (forall c {:trigger Owns(S.cpus[c], i)} :: 0 <= c < |S.cpus| ==> (Owns(S.cpus[c], i) <==> t.holder == Some(c)))
    && (t.nest == 1 <==> t.holder.Some? && Pushed(S.cpus[t.holder.value], i))
    && (t.blocked <==> t.asleep.Some?)
    && (forall k: nat {:trigger WaitsIn(S, i, k)} :: WaitsIn(S, i, k) <==> t.asleep == Some(k))
  }

  ghost predicate CpuOk(S: State, c: nat) {
    c < |S.cpus| &&
    var cpu := S.cpus[c];
    && (cpu.cur.IdleOf? ==> cpu.cur.cpu == c) && (cpu.cur.T? ==> cpu.cur.i < |S.tasks|)
    && (cpu.last.Some? && cpu.last.value.IdleOf? ==> cpu.last.value.cpu == c)
    && (cpu.last.Some? && cpu.last.value.T? ==> cpu.last.value.i < |S.tasks|)
    && (cpu.pc.Poll? ==> cpu.last == Some(cpu.cur) && (cpu.pc.t.T? ==> cpu.pc.t.i < |S.tasks|))
  }

  ghost predicate Distinct(q: seq<nat>) {
    forall i, j :: 0 <= i < j < |q| ==> q[i] != q[j]
  }

  ghost predicate QueueOk(S: State, k: nat) {
    && k < |S.sems|
    && SemOk(S.sems[k]) && |S.sems[k].queue| < SEM_CAPACITY && Distinct(S.sems[k].queue)
    && (forall i {:trigger i in S.sems[k].queue} :: i in S.sems[k].queue ==> i < |S.tasks|)
  }

  /** Bound to a name so that a proof of it is one goal and not one for each conjunct. */
  ghost predicate Inv(S: State) {
    var holds :=
      && |S.idle| == |S.cpus|
      && (forall i {:trigger TaskOk(S, i)} :: 0 <= i < |S.tasks| ==> TaskOk(S, i))
      && (forall c {:trigger CpuOk(S, c)} :: 0 <= c < |S.cpus| ==> CpuOk(S, c))
      && (forall k {:trigger QueueOk(S, k)} :: 0 <= k < |S.sems| ==> QueueOk(S, k));
    holds
  }

  lemma InitInv(S: State)
    requires Init(S)
    ensures Inv(S)
  {
  }

  // ---------------------------------------------------------------- steps of the scheduler

  /** The scheduler leaves the semaphores and everybody's sleep alone. */
  ghost predicate SchedulerOnly(S: State, S': State, c: nat) {
    && c < |S.cpus| == |S'.cpus| && S'.sems == S.sems && |S'.tasks| == |S.tasks| && |S'.idle| == |S.idle|
    && (forall d {:trigger S'.cpus[d]} :: 0 <= d < |S.cpus| && d != c ==> S'.cpus[d] == S.cpus[d])
    && (forall i {:trigger S'.tasks[i]} :: 0 <= i < |S.tasks| ==>
          S'.tasks[i].blocked == S.tasks[i].blocked && S'.tasks[i].asleep == S.tasks[i].asleep)
  }

  /** The CPU owns the same tasks, with the same contexts pushed, except perhaps task i. */
  ghost predicate SameHold(cpu: Cpu, cpu': Cpu, i: nat) {
    && (forall j: nat {:trigger Owns(cpu', j)} {:trigger Owns(cpu, j)} :: j != i ==> (Owns(cpu', j) <==> Owns(cpu, j)))
    && (forall j: nat {:trigger Pushed(cpu', j)} {:trigger Pushed(cpu, j)} :: j != i ==>
        (Pushed(cpu', j) <==> Pushed(cpu, j)))
  }

  /** A scheduler step that changes at most task i besides the CPU. */
  lemma SchedulerStep(S: State, S': State, c: nat, i: nat)
    requires Inv(S) && SchedulerOnly(S, S', c) && CpuOk(S', c)
    requires forall j {:trigger S'.tasks[j]} :: 0 <= j < |S.tasks| && j != i ==> S'.tasks[j] == S.tasks[j]
    requires SameHold(S.cpus[c], S'.cpus[c], i)
    requires i < |S.tasks| ==>
        && |S'.tasks[i].context| == 4 && S'.tasks[i].nest <= 1
        && (S'.tasks[i].running <==> S'.tasks[i].holder.Some?)
        && S'.tasks[i].holder == (if Owns(S'.cpus[c], i) then Some(c)
            else if Owns(S.cpus[c], i) then None else S.tasks[i].holder)
        && (Owns(S'.cpus[c], i) && !Owns(S.cpus[c], i) ==> S.tasks[i].holder == None)
        && (S'.tasks[i].nest == 1 <==>
            S'.tasks[i].holder.Some? && S'.tasks[i].holder.value < |S'.cpus| &&
            Pushed(S'.cpus[S'.tasks[i].holder.value], i))
    ensures Inv(S')
  {
    forall j | 0 <= j < |S'.tasks| ensures TaskOk(S', j) {
      assert TaskOk(S, j);
      assert Owns(S.cpus[c], j) <==> S.tasks[j].holder == Some(c);
      forall d | 0 <= d < |S'.cpus| ensures Owns(S'.cpus[d], j) <==> S'.tasks[j].holder == Some(d) {
        assert Owns(S.cpus[d], j) <==> S.tasks[j].holder == Some(d);
        if d != c { assert S'.cpus[d] == S.cpus[d]; }
      }
      forall k: nat ensures WaitsIn(S', j, k) <==> S'.tasks[j].asleep == Some(k) {
        assert WaitsIn(S, j, k) <==> S.tasks[j].asleep == Some(k);
      }
    }
    forall d | 0 <= d < |S'.cpus| ensures CpuOk(S', d) {
      assert CpuOk(S, d);
      if d != c { assert S'.cpus[d] == S.cpus[d]; }
    }
    forall k | 0 <= k < |S'.sems| ensures QueueOk(S', k) { assert QueueOk(S, k); }
  }

  lemma SaveStepOk(S: State, S': State, c: nat)
    requires Inv(S) && c < |S.cpus| && S.cpus[c].pc.Save? && SaveStep(S, S', c, S.cpus[c].pc.ctx)
    ensures Inv(S')
  {
    assert CpuOk(S, c);
    if S.cpus[c].cur.T? {
      var i := S.cpus[c].cur.i;
      assert TaskOk(S, i);
      assert Owns(S.cpus[c], i);
      SchedulerStep(S, S', c, i);
    } else {
      SchedulerStep(S, S', c, |S.tasks|);
    }
  }

  lemma ReleaseStepOk(S: State, S': State, c: nat)
    requires Inv(S) && c < |S.cpus| && S.cpus[c].pc.ReleaseLast? && ReleaseStep(S, S', c)
    ensures Inv(S')
  {
    assert CpuOk(S, c);
    var l := S.cpus[c].last;
    if l.Some? && l.value.T? && l.value != S.cpus[c].cur {
      assert TaskOk(S, l.value.i);
      assert Owns(S.cpus[c], l.value.i);
      SchedulerStep(S, S', c, l.value.i);
    } else {
      SchedulerStep(S, S', c, |S.tasks|);
    }
  }

  /** The steps that change the CPU only. */
  lemma CpuStepOk(S: State, S': State, c: nat)
    requires Inv(S) && SchedulerOnly(S, S', c) && S' == SetCpu(S, c, S'.cpus[c])
    requires var cpu := S.cpus[c];
      if cpu.pc == User then S'.cpus[c].pc.Save? && S'.cpus[c] == cpu.(pc := S'.cpus[c].pc)
      else cpu.pc == SetLast && S'.cpus[c] == cpu.(last := Some(cpu.cur), pc := Poll(cpu.cur, 0))
    ensures Inv(S')
  {
    assert CpuOk(S, c);
    SchedulerStep(S, S', c, |S.tasks|);
  }

  lemma PollStepOk(S: State, S': State, c: nat)
    requires Inv(S) && c < |S.cpus| && S.cpus[c].pc.Poll? && PollStep(S, S', c, S.cpus[c].pc.t, S.cpus[c].pc.count)
    ensures Inv(S')
  {
    assert CpuOk(S, c);
    var cpu := S.cpus[c];
    var n := NextTask(S, cpu.pc.t);
    assert TaskOk(S, n.i);
    assert Owns(cpu, n.i) <==> S.tasks[n.i].holder == Some(c);
    if S'.cpus[c].pc.User? && cpu.pc.count < 2 * |S.tasks| + 2 {
      SchedulerStep(S, S', c, n.i);
    } else {
      SchedulerStep(S, S', c, |S.tasks|);
    }
  }

  // ---------------------------------------------------------------- steps of semaphores and create

  lemma WaitSemOk(s: Sem, i: nat)
    requires SemOk(s)
    ensures SemOk(WaitSem(s, i))
  {
    assert s.resource <= 0 ==> s.slept + [i] == s.woken + (s.queue + [i]);
  }

  lemma SignalSemOk(s: Sem)
    requires SemOk(s)
    ensures SemOk(SignalSem(s))
  {
    assert s.queue != [] ==> s.woken + s.queue == (s.woken + [s.queue[0]]) + s.queue[1..];
  }

  lemma WaitStepOk(S: State, k: nat, i: nat)
    requires Inv(S) && k < |S.sems| && i < |S.tasks| && !S.tasks[i].blocked && |S.sems[k].queue| + 1 < SEM_CAPACITY
    ensures Inv(WaitOn(S, k, i))
  {
    var S' := WaitOn(S, k, i);
    assert QueueOk(S, k);
    assert TaskOk(S, i);
    WaitSemOk(S.sems[k], i);
    var q, q' := S.sems[k].queue, S'.sems[k].queue;
    assert !WaitsIn(S, i, k);
    forall l | 0 <= l < |S'.sems| ensures QueueOk(S', l) { assert QueueOk(S, l); }
    forall j | 0 <= j < |S'.tasks| ensures TaskOk(S', j) {
      assert TaskOk(S, j);
      forall l: nat ensures WaitsIn(S', j, l) <==> S'.tasks[j].asleep == Some(l) {
        assert WaitsIn(S, j, l) <==> S.tasks[j].asleep == Some(l);
      }
    }
    forall c | 0 <= c < |S'.cpus| ensures CpuOk(S', c) { assert CpuOk(S, c); }
  }

  lemma SignalStepOk(S: State, k: nat)
    requires Inv(S) && k < |S.sems|
    ensures Inv(SignalOn(S, k))
  {
    var S' := SignalOn(S, k);
    assert QueueOk(S, k);
    SignalSemOk(S.sems[k]);
    var q := S.sems[k].queue;
    if q != [] { assert q[0] in q && q == [q[0]] + q[1..]; }
    forall l | 0 <= l < |S'.sems| ensures QueueOk(S', l) {
      assert QueueOk(S, l);
      if l == k && S'.sems[k].queue != q {
        forall i | i in q[1..] ensures i in q { }
      }
    }
    forall j | 0 <= j < |S'.tasks| ensures TaskOk(S', j) {
      assert TaskOk(S, j);
      forall l: nat ensures WaitsIn(S', j, l) <==> S'.tasks[j].asleep == Some(l) {
        assert WaitsIn(S, j, l) <==> S.tasks[j].asleep == Some(l);
        if q != [] && j == q[0] { assert WaitsIn(S, j, k); }
      }
    }
    forall c | 0 <= c < |S'.cpus| ensures CpuOk(S', c) { assert CpuOk(S, c); }
  }

  lemma CreateStepOk(S: State, S': State)
    requires Inv(S) && Create(S, S')
    ensures Inv(S')
  {
    var n := |S.tasks|;
    forall c | 0 <= c < |S'.cpus| ensures CpuOk(S', c) { assert CpuOk(S, c); }
    forall k | 0 <= k < |S'.sems| ensures QueueOk(S', k) { assert QueueOk(S, k); }
    forall j | 0 <= j < |S'.tasks| ensures TaskOk(S', j) {
      if j < n {
        assert TaskOk(S, j);
        forall l: nat ensures WaitsIn(S', j, l) <==> S'.tasks[j].asleep == Some(l) {
          assert WaitsIn(S, j, l) <==> S.tasks[j].asleep == Some(l);
        }
      } else {
        forall c | 0 <= c < |S'.cpus| ensures !Owns(S'.cpus[c], n) { assert CpuOk(S, c); }
        forall l: nat ensures !WaitsIn(S', n, l) {
          if l < |S.sems| { assert QueueOk(S, l); }
        }
      }
    }
  }

  /** Whatever any CPU does next, the invariant stays. */
  lemma StepKeepsInv(S: State, S': State, c: nat)
    requires Inv(S) && Step(S, S', c)
    ensures Inv(S')
  {
    if Signal(S, S') {
      var k: nat :| k < |S.sems| && S' == SignalOn(S, k);
      SignalStepOk(S, k);
    } else if Create(S, S') {
      CreateStepOk(S, S');
    } else {
      match S.cpus[c].pc {
        case User =>
          if Trap(S, S', c) { CpuStepOk(S, S', c); } else { UserWaitOk(S, S', c); }
        case Save(ctx) => SaveStepOk(S, S', c);
        case ReleaseLast => ReleaseStepOk(S, S', c);
        case SetLast => CpuStepOk(S, S', c);
        case Poll(t, count) => PollStepOk(S, S', c);
      }
    }
  }

  lemma UserWaitOk(S: State, S': State, c: nat)
    requires Inv(S) && c < |S.cpus| && Wait(S, S', c)
    ensures Inv(S')
  {
    var k: nat :| k < |S.sems| && S.cpus[c].cur.T? && S.cpus[c].cur.i < |S.tasks| &&
        !S.tasks[S.cpus[c].cur.i].blocked &&
      |S.sems[k].queue| + 1 < SEM_CAPACITY && S' == WaitOn(S, k, S.cpus[c].cur.i);
    WaitStepOk(S, k, S.cpus[c].cur.i);
  }

  // ---------------------------------------------------------------- what holds in every run

  ghost predicate Next(S: State, S': State) {
    exists c: nat :: Step(S, S', c)
  }

  ghost predicate StepAt(run: seq<State>, i: nat) {
    0 < i < |run| && Next(run[i - 1], run[i])
  }

  ghost predicate IsRun(run: seq<State>) {
    && run != [] && Init(run[0])
    && forall i {:trigger StepAt(run, i)} :: 0 < i < |run| ==> StepAt(run, i)
  }

  lemma NextKeepsInv(S: State, S': State)
    requires Inv(S) && Next(S, S')
    ensures Inv(S')
  {
    var c: nat :| Step(S, S', c);
    StepKeepsInv(S, S', c);
  }

  lemma {:induction false} RunInv(run: seq<State>, n: nat)
    requires IsRun(run) && n < |run|
    ensures Inv(run[n])
  {
    if n == 0 {
      InitInv(run[0]);
    } else {
      RunInv(run, n - 1);
      assert StepAt(run, n);
      NextKeepsInv(run[n - 1], run[n]);
    }
  }

  /** No task is on two CPUs, counting the CPU that has left it but not yet trapped again, and its
      running flag is true exactly while it is on one. */
  lemma OneCpuPerTask(run: seq<State>, n: nat, i: nat)
    requires IsRun(run) && n < |run| && i < |run[n].tasks|
    ensures run[n].tasks[i].running <==> exists c :: 0 <= c < |run[n].cpus| && Owns(run[n].cpus[c], i)
    ensures forall c, d ::
        0 <= c < |run[n].cpus| && 0 <= d < |run[n].cpus| && Owns(run[n].cpus[c], i) && Owns(run[n].cpus[d], i) ==>
          c == d
  {
    RunInv(run, n);
    var S := run[n];
    assert TaskOk(S, i);
    if S.tasks[i].running { assert Owns(S.cpus[S.tasks[i].holder.value], i); }
  }

  /** While no CPU is inside the two handlers: a task is the current or last task of at most one
      CPU, and its running flag says whether it is one. */
  lemma CurrentOrLastOfOne(run: seq<State>, n: nat, i: nat)
    requires IsRun(run) && n < |run| && i < |run[n].tasks|
    requires forall c :: 0 <= c < |run[n].cpus| ==> run[n].cpus[c].pc == User
    ensures var on := set c | 0 <= c < |run[n].cpus| &&
        (run[n].cpus[c].cur == T(i) || run[n].cpus[c].last == Some(T(i)));
            |on| <= 1 && (run[n].tasks[i].running <==> |on| == 1)
  {
    OneCpuPerTask(run, n, i);
    var S := run[n];
    var on := set c | 0 <= c < |S.cpus| && (S.cpus[c].cur == T(i) || S.cpus[c].last == Some(T(i)));
    if S.tasks[i].running {
      var c :| 0 <= c < |S.cpus| && Owns(S.cpus[c], i);
      assert on == {c} by {
        forall d | d in on ensures d == c { assert Owns(S.cpus[d], i); }
      }
    } else {
      assert on == {} by {
        forall d | 0 <= d < |S.cpus| ensures d !in on { assert !Owns(S.cpus[d], i); }
      }
    }
  }

  /** CPU c enters task i: its scheduling loop ends there. */
  ghost predicate Enters(S: State, S': State, c: nat, i: nat) {
    && c < |S.cpus| && c < |S'.cpus| && i < |S.tasks| && i < |S'.tasks|
    && S.cpus[c].pc.Poll? && S'.cpus[c].pc.User? && S'.cpus[c].cur == T(i)
  }

  /** A task that some CPU enters is awake, is on no other CPU, and if it is not the task this CPU
      was running, is on no CPU at all: nobody resumes a task before the CPU that left it has
      trapped again. */
  lemma EntersSafely(run: seq<State>, n: nat, c: nat, i: nat)
    requires IsRun(run) && n + 1 < |run| && Enters(run[n], run[n + 1], c, i)
    requires Step(run[n], run[n + 1], c)
    ensures !run[n].tasks[i].blocked
    ensures forall d :: 0 <= d < |run[n].cpus| && Owns(run[n].cpus[d], i) ==> d == c && run[n].cpus[c].cur == T(i)
  {
    RunInv(run, n);
    EntersAlone(run[n], run[n + 1], c, i);
  }

  lemma EntersAlone(S: State, S': State, c: nat, i: nat)
    requires Inv(S) && Enters(S, S', c, i) && Step(S, S', c)
    ensures !S.tasks[i].blocked
    ensures forall d :: 0 <= d < |S.cpus| && Owns(S.cpus[d], i) ==> d == c && S.cpus[c].cur == T(i)
  {
    EntersByPoll(S, S', c, i);
    assert TaskOk(S, i);
    forall d | 0 <= d < |S.cpus| && Owns(S.cpus[d], i) ensures d == c && S.cpus[c].cur == T(i) {
      assert S.tasks[i].holder == Some(d);
      assert Owns(S.cpus[c], i) <==> S.tasks[i].holder == Some(c);
    }
  }

  lemma EntersByPoll(S: State, S': State, c: nat, i: nat)
    requires Inv(S) && Enters(S, S', c, i) && Step(S, S', c)
    ensures PollStep(S, S', c, S.cpus[c].pc.t, S.cpus[c].pc.count)
    ensures !S.tasks[i].blocked && (S.cpus[c].cur == T(i) || !S.tasks[i].running)
    ensures S'.tasks[i].nest == 0 && S'.tasks[i].context == S.tasks[i].context
  {
    assert TaskOk(S, i);
    assert CpuOk(S, c);
    assert Owns(S.cpus[c], i) <==> S.tasks[i].holder == Some(c);
  }

  /** Contexts never nest: a trap always saves to context[0], so context[4] is never overrun. */
  lemma ContextNeverOverrun(run: seq<State>, n: nat, c: nat)
    requires IsRun(run) && n < |run| && c < |run[n].cpus|
    requires run[n].cpus[c].pc.Save? && run[n].cpus[c].cur.T?
    ensures var i := run[n].cpus[c].cur.i; i < |run[n].tasks| && run[n].tasks[i].nest == 0
  {
    RunInv(run, n);
    var S := run[n];
    assert CpuOk(S, c);
    var i := S.cpus[c].cur.i;
    assert TaskOk(S, i);
    assert Owns(S.cpus[c], i);
  }

  /** i_nest of a task is never above 1, and is 1 exactly while the CPU that uses the task has pushed a
      context of it. */
  lemma NestAtMostOne(run: seq<State>, n: nat, i: nat)
    requires IsRun(run) && n < |run| && i < |run[n].tasks|
    ensures run[n].tasks[i].nest <= 1
    ensures run[n].tasks[i].nest == 1 <==>
        exists c :: 0 <= c < |run[n].cpus| && Owns(run[n].cpus[c], i) && Pushed(run[n].cpus[c], i)
  {
    RunInv(run, n);
    var S := run[n];
    assert TaskOk(S, i);
    if S.tasks[i].nest == 1 { assert Owns(S.cpus[S.tasks[i].holder.value], i); }
  }

  /** CPU c takes a step that moves it on. */
  ghost predicate MovesOn(S: State, S': State, c: nat) {
    var moves := Step(S, S', c) && |S'.cpus| == |S.cpus| && S'.cpus[c] != S.cpus[c];
    moves
  }

  /** No handler is ever stuck: while there is a task on the list a CPU inside the handlers can always
      take its next step, so no save would overrun context[4] and no decrement of i_nest would go
      below 0. A CPU outside them can trap. */
  lemma CpuMoves(S: State, c: nat) returns (S': State)
    requires Inv(S) && c < |S.cpus| && |S.tasks| > 0
    ensures MovesOn(S, S', c)
  {
    assert CpuOk(S, c);
    var cpu := S.cpus[c];
    match cpu.pc {
      case User => S' := SetCpu(S, c, cpu.(pc := Save(0)));
      case Save(ctx) =>
        var next := cpu.(pc := ReleaseLast);
        match cpu.cur {
          case IdleOf(d) => S' := SetCpu(S.(idle := S.idle[d := ctx]), c, next);
          case T(i) =>
            assert TaskOk(S, i);
            S' := SetCpu(SetTask(S, i, PushContext(S.tasks[i], ctx)), c, next);
        }
      case ReleaseLast =>
        var next := cpu.(pc := SetLast);
        if cpu.last.Some? && cpu.last.value.T? && cpu.last.value != cpu.cur {
          var i := cpu.last.value.i;
          assert TaskOk(S, i) && Owns(cpu, i);
          S' := SetCpu(SetTask(S, i, S.tasks[i].(running := false, nest := S.tasks[i].nest - 1, holder := None)),
                       c, next);
        } else {
          S' := SetCpu(S, c, next);
        }
      case SetLast => S' := SetCpu(S, c, cpu.(last := Some(cpu.cur), pc := Poll(cpu.cur, 0)));
      case Poll(t, count) => S' := PollMoves(S, c);
    }
  }

  lemma PollMoves(S: State, c: nat) returns (S': State)
    requires Inv(S) && c < |S.cpus| && S.cpus[c].pc.Poll? && |S.tasks| > 0
    ensures MovesOn(S, S', c)
  {
    assert CpuOk(S, c);
    var cpu := S.cpus[c];
    var t, count := cpu.pc.t, cpu.pc.count;
    if count < 2 * |S.tasks| + 2 {
      var n := NextTask(S, t);
      assert TaskOk(S, n.i);
      if n == cpu.cur && !S.tasks[n.i].blocked {
        assert Owns(cpu, n.i);
        S' := SetCpu(SetTask(S, n.i, S.tasks[n.i].(nest := S.tasks[n.i].nest - 1)), c, cpu.(pc := User));
      } else if n != cpu.cur && !S.tasks[n.i].running && !S.tasks[n.i].blocked {
        S' := SetCpu(SetTask(S, n.i, S.tasks[n.i].(running := true, holder := Some(c))), c, cpu.(cur := n, pc := User));
      } else {
        S' := SetCpu(S, c, cpu.(pc := Poll(n, count + 1)));
      }
    } else {
      S' := SetCpu(S, c, cpu.(cur := IdleOf(c), pc := User));
    }
  }

  /** Passes and wake-ups together equal the initial value plus the signals minus what is left;
      nothing is left while anybody waits; and tasks are woken in the order they fell asleep. */
  lemma SemaphoreConserves(run: seq<State>, n: nat, k: nat)
    requires IsRun(run) && n < |run| && k < |run[n].sems|
    ensures SemOk(run[n].sems[k]) && run[n].sems[k].woken <= run[n].sems[k].slept
  {
    RunInv(run, n);
    assert QueueOk(run[n], k);
  }

  /** A task is blocked exactly when it waits once in exactly one queue. */
  lemma BlockedIsQueuedOnce(run: seq<State>, n: nat, i: nat)
    requires IsRun(run) && n < |run| && i < |run[n].tasks|
    ensures run[n].tasks[i].blocked <==> exists k: nat :: WaitsIn(run[n], i, k)
    ensures forall k: nat, l: nat :: WaitsIn(run[n], i, k) && WaitsIn(run[n], i, l) ==> k == l
    ensures forall k, a, b :: 0 <= k < |run[n].sems| && 0 <= a < b < |run[n].sems[k].queue| ==>
        run[n].sems[k].queue[a] != run[n].sems[k].queue[b]
  {
    RunInv(run, n);
    var S := run[n];
    assert TaskOk(S, i);
    if S.tasks[i].blocked { assert WaitsIn(S, i, S.tasks[i].asleep.value); }
    forall k, a, b | 0 <= k < |S.sems| && 0 <= a < b < |S.sems[k].queue|
      ensures S.sems[k].queue[a] != S.sems[k].queue[b]
    {
      assert QueueOk(S, k);
    }
  }

  /** No wake-up is lost: once awake, a task falls asleep only by its own wait, on the CPU it is
      running on; and asleep, it wakes exactly when a signal takes it from the front of its queue,
      whether or not it has left its CPU by then. */
  lemma NoLostWakeUp(run: seq<State>, n: nat, i: nat)
    requires IsRun(run) && n + 1 < |run| && i < |run[n].tasks|
    ensures i < |run[n + 1].tasks|
    ensures !run[n].tasks[i].blocked && run[n + 1].tasks[i].blocked ==>
        exists c :: 0 <= c < |run[n].cpus| && run[n].cpus[c].cur == T(i) && run[n].cpus[c].pc == User
    ensures forall k: nat :: WaitsIn(run[n], i, k) ==>
        k < |run[n + 1].sems| &&
        (!run[n + 1].tasks[i].blocked <==>
          run[n].sems[k].queue[0] == i && run[n + 1].sems[k] == SignalSem(run[n].sems[k]))
  {
    RunInv(run, n);
    var S, S' := run[n], run[n + 1];
    assert StepAt(run, n + 1);
    var c: nat :| Step(S, S', c);
    WakeStep(S, S', c, i);
  }

  lemma WakeStep(S: State, S': State, c: nat, i: nat)
    requires Inv(S) && Step(S, S', c) && i < |S.tasks|
    ensures i < |S'.tasks|
    ensures !S.tasks[i].blocked && S'.tasks[i].blocked ==> S.cpus[c].cur == T(i) && S.cpus[c].pc == User
    ensures forall k: nat :: WaitsIn(S, i, k) ==>
        k < |S'.sems| && (!S'.tasks[i].blocked <==> S.sems[k].queue[0] == i && S'.sems[k] == SignalSem(S.sems[k]))
  {
    assert TaskOk(S, i);
    forall k: nat | WaitsIn(S, i, k)
      ensures k < |S'.sems| && (!S'.tasks[i].blocked <==> S.sems[k].queue[0] == i && S'.sems[k] == SignalSem(S.sems[k]))
    {
      assert QueueOk(S, k);
      assert SignalSem(S.sems[k]).signals == S.sems[k].signals + 1;
      if Signal(S, S') {
        var l: nat :| l < |S.sems| && S' == SignalOn(S, l);
        SignalWakes(S, l, k, i);
      }
    }
  }

  lemma SignalWakes(S: State, l: nat, k: nat, i: nat)
    requires Inv(S) && l < |S.sems| && i < |S.tasks| && WaitsIn(S, i, k)
    ensures !SignalOn(S, l).tasks[i].blocked <==>
        S.sems[k].queue[0] == i && SignalOn(S, l).sems[k] == SignalSem(S.sems[k])
  {
    assert TaskOk(S, i);
    assert QueueOk(S, k) && QueueOk(S, l);
    assert SignalSem(S.sems[k]).signals == S.sems[k].signals + 1;
    if S.sems[l].queue != [] && S.sems[l].queue[0] == i { assert WaitsIn(S, i, l); }
  }

  // ---------------------------------------------------------------- no awake task is passed over

  /** How many places of the cyclic list of n tasks task i is after p: at least 1, and n if it is p. */
  function Ahead(p: TaskRef, i: nat, n: nat): int {
    if p.T? then (if p.i > i then p.i - i else p.i - i + n) else n - i
  }

  /** The scan of CPU c has taken one step towards task i at each poll. */
  ghost predicate ScanOk(S: State, c: nat, i: nat) {
    && c < |S.cpus|
    && (S.cpus[c].pc.Poll? ==>
          S.cpus[c].pc.count + Ahead(S.cpus[c].pc.t, i, |S.tasks|) == Ahead(S.cpus[c].cur, i, |S.tasks|))
  }

  /** CPU c leaves its handlers. */
  predicate TrapEnds(S: State, S': State, c: nat) {
    c < |S.cpus| && c < |S'.cpus| && S.cpus[c].pc.Poll? && S'.cpus[c].pc.User?
  }

  /** How many traps of CPU c end between run[a] and run[b]. */
  function TrapsEnded(run: seq<State>, c: nat, a: nat, b: nat): nat
    requires a <= b < |run|
    decreases b
  {
    if b == a then 0 else TrapsEnded(run, c, a, b - 1) + if TrapEnds(run[b - 1], run[b], c) then 1 else 0
  }

  predicate Waiting(S: State, i: nat, n: nat) {
    |S.tasks| == n && i < n && !S.tasks[i].blocked && !S.tasks[i].running
  }

  lemma NearerEachPoll(S: State, S': State, c: nat, i: nat, n: nat)
    requires Inv(S) && ScanOk(S, c, i) && Waiting(S, i, n) && Waiting(S', i, n) && S.cpus[c].pc.Poll?
    requires PollStep(S, S', c, S.cpus[c].pc.t, S.cpus[c].pc.count)
    ensures ScanOk(S', c, i)
    ensures Ahead(S'.cpus[c].cur, i, n) <= Ahead(S.cpus[c].cur, i, n) - if TrapEnds(S, S', c) then 1 else 0
  {
    assert CpuOk(S, c) && TaskOk(S, i);
    assert Owns(S.cpus[c], i) <==> S.tasks[i].holder == Some(c);
  }

  /** While task i is awake and on no CPU, the scan of CPU c cannot pass it, and each trap leaves the
      CPU with a task nearer to it. */
  lemma NearerEachTrap(S: State, S': State, d: nat, c: nat, i: nat, n: nat)
    requires Inv(S) && Step(S, S', d) && ScanOk(S, c, i) && Waiting(S, i, n) && Waiting(S', i, n)
    ensures ScanOk(S', c, i) && |S'.cpus| == |S.cpus|
    ensures Ahead(S'.cpus[c].cur, i, n) <= Ahead(S.cpus[c].cur, i, n) - if TrapEnds(S, S', c) then 1 else 0
  {
    if d == c && S.cpus[c].pc.Poll? && S'.cpus[c] != S.cpus[c] { NearerEachPoll(S, S', c, i, n); }
  }

  lemma {:induction false} WaitingNearer(run: seq<State>, c: nat, i: nat, n: nat, a: nat, b: nat)
    requires IsRun(run) && a <= b < |run| && ScanOk(run[a], c, i)
    requires forall k {:trigger run[k]} :: a <= k <= b ==> Waiting(run[k], i, n)
    ensures ScanOk(run[b], c, i)
    ensures TrapsEnded(run, c, a, b) + Ahead(run[b].cpus[c].cur, i, n) <= Ahead(run[a].cpus[c].cur, i, n)
    decreases b
  {
    if b > a {
      WaitingNearer(run, c, i, n, a, b - 1);
      RunInv(run, b - 1);
      assert StepAt(run, b);
      var d: nat :| Step(run[b - 1], run[b], d);
      NearerEachTrap(run[b - 1], run[b], d, c, i, n);
    }
  }

  lemma FewTraps(run: seq<State>, c: nat, i: nat, n: nat, a: nat, b: nat)
    requires IsRun(run) && a <= b < |run| && c < |run[a].cpus| && run[a].cpus[c].pc == User
    requires forall k {:trigger run[k]} :: a <= k <= b ==> Waiting(run[k], i, n)
    ensures TrapsEnded(run, c, a, b) < n
  {
    RunInv(run, a);
    RunInv(run, b);
    WaitingNearer(run, c, i, n, a, b);
    assert CpuOk(run[a], c) && CpuOk(run[b], c);
  }

  /** On any number of CPUs: while no task is created, a task that stays awake is on some CPU before
      any one CPU has ended as many traps as there are tasks. */
  lemma RunsWithinTraps(run: seq<State>, c: nat, i: nat, a: nat, b: nat)
    requires IsRun(run) && a <= b < |run| && c < |run[a].cpus| && run[a].cpus[c].pc == User && i < |run[a].tasks|
    requires forall k {:trigger run[k]} :: a <= k <= b ==>
               |run[k].tasks| == |run[a].tasks| && !run[k].tasks[i].blocked
    requires TrapsEnded(run, c, a, b) >= |run[a].tasks|
    ensures exists k :: a <= k <= b && i < |run[k].tasks| && run[k].tasks[i].running
  {
    var n := |run[a].tasks|;
    if forall k {:trigger run[k]} :: a <= k <= b ==> !run[k].tasks[i].running {
      forall k {:trigger run[k]} | a <= k <= b ensures Waiting(run[k], i, n) {}
      FewTraps(run, c, i, n, a, b);
      assert false;
    }
  }
}
