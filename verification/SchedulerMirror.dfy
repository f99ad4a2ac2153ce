/** The handlers on the linked list (Scheduler) and the atomic steps (Kernel) are the same scheduler: what a
    trap that nothing interrupts does to the list is what its steps do to the state. */
module SchedulerMirror {
  import opened Words
  import K = Kernel
  import opened TaskScans
  import Sch = Scheduler

  // ---------------------------------------------------------------- the order of the list

  /** The task at place p of a list of n, by number: create pushes at the front, so the first of the list was
      created last. Place -1 stands for the idle task. */
  function RefAt(p: int, n: nat, c: nat): K.TaskRef
    requires -1 <= p < n
  {
    if p == -1 then K.IdleOf(c) else K.T(n - 1 - p)
  }

  /** One step along the list, back to its first task behind the last, and the distance in steps. */
  lemma OrderMirrors(S: K.State, c: nat, p: int, q: nat, n: nat)
    requires |S.tasks| == n && -1 <= p < n && q < n
    ensures K.NextTask(S, RefAt(p, n, c)) == RefAt(if p + 1 < n then p + 1 else 0, n, c)
    ensures K.Ahead(RefAt(p, n, c), n - 1 - q, n) == Sch.Dist(p, q, n)
  {
  }

  // ---------------------------------------------------------------- the same state

  ghost predicate Same(t: Sch.Task, k: K.Task)
    reads t
  {
    t.blocked == k.blocked && t.running == k.running && t.nest == k.nest && t.context == k.context
  }

  /** CPU c of S is this CPU, and its tasks are those of the list. */
  ghost predicate Mirrors(cpu: Sch.Cpu, S: K.State, c: nat)
    reads cpu, cpu.idle, cpu.list
  {
    var holds :=
      var n := |cpu.list|;
      && c < |S.cpus| && |S.tasks| == n && c < |S.idle| && |cpu.idle.context| > 0
      && S.idle[c] == cpu.idle.context[0]
      && S.cpus[c].cur == RefAt(cpu.Index(cpu.currentTask), n, c)
      && S.cpus[c].last == (if cpu.lastTask == null then None else Some(RefAt(cpu.Index(cpu.lastTask), n, c)))
      && forall p {:trigger cpu.list[p]} :: 0 <= p < n ==> Same(cpu.list[p], S.tasks[n - 1 - p]);
    holds
  }

  // ---------------------------------------------------------------- kmt_context_save

  predicate GivesUp(cpu: K.Cpu) {
    cpu.last.Some? && cpu.last.value.T? && cpu.last.value != cpu.cur
  }

  /** What kmt_context_save makes of a task: the current one has the context, the departed one is given up. */
  predicate SavedTask(t: K.Task, t': K.Task, current: bool, left: bool, ctx: nat) {
    && |t.context| == 4
    && t' == if current then t.(context := [ctx] + t.context[1..], nest := 1)
             else if left then t.(running := false, nest := 0, holder := None)
             else t
  }

  /** What the steps Save, ReleaseLast and SetLast of CPU c come to. */
  ghost predicate Saved(S: K.State, S': K.State, c: nat, ctx: nat) {
    c < |S.cpus| == |S'.cpus| && c < |S.idle| == |S'.idle| && |S'.tasks| == |S.tasks| &&
    var cpu := S.cpus[c];
    && S'.cpus[c] == K.Cpu(cpu.cur, Some(cpu.cur), K.Poll(cpu.cur, 0))
    && S'.idle[c] == (if cpu.cur.T? then S.idle[c] else ctx)
    && forall i: nat {:trigger S'.tasks[i]} :: i < |S.tasks| ==>
        SavedTask(S.tasks[i], S'.tasks[i], cpu.cur == K.T(i), GivesUp(cpu) && cpu.last.value.i == i, ctx)
  }

  lemma HandlerStep(S: K.State, S': K.State, c: nat)
    requires K.MovesOn(S, S', c)
    ensures S.cpus[c].pc.Save? ==> K.SaveStep(S, S', c, S.cpus[c].pc.ctx)
    ensures S.cpus[c].pc.ReleaseLast? ==> K.ReleaseStep(S, S', c)
    ensures S.cpus[c].pc.SetLast? ==>
        S' == K.SetCpu(S, c, S.cpus[c].(last := Some(S.cpus[c].cur), pc := K.Poll(S.cpus[c].cur, 0)))
    ensures S.cpus[c].pc.Poll? ==> K.PollStep(S, S', c, S.cpus[c].pc.t, S.cpus[c].pc.count)
  {
  }

  /** What the invariant says of a task before its CPU, or another, saves. */
  ghost predicate Savable(S: K.State, c: nat, i: nat) {
    c < |S.cpus| && c < |S.idle| && i < |S.tasks| && |S.tasks[i].context| == 4 &&
    var cpu := S.cpus[c];
    && (cpu.cur.IdleOf? ==> cpu.cur.cpu == c) && (cpu.cur == K.T(i) ==> S.tasks[i].nest == 0)
    && (GivesUp(cpu) && cpu.last.value.i == i ==> S.tasks[i].nest == 1)
  }

  lemma AllSavable(S: K.State, c: nat, i: nat)
    requires K.Inv(S) && c < |S.cpus| && S.cpus[c].pc.Save? && i < |S.tasks|
    ensures Savable(S, c, i)
  {
    assert K.CpuOk(S, c) && K.TaskOk(S, i);
    assert K.Owns(S.cpus[c], i) <==> S.tasks[i].holder == Some(c);
  }

  lemma SavedOne(S: K.State, S1: K.State, S2: K.State, c: nat, ctx: nat, i: nat)
    requires Savable(S, c, i) && K.SaveStep(S, S1, c, ctx) && K.ReleaseStep(S1, S2, c)
    ensures i < |S2.tasks|
    ensures SavedTask(S.tasks[i], S2.tasks[i], S.cpus[c].cur == K.T(i),
                      GivesUp(S.cpus[c]) && S.cpus[c].last.value.i == i, ctx)
  {
  }

  lemma SavedRest(S: K.State, S1: K.State, S2: K.State, S3: K.State, c: nat, ctx: nat)
    requires K.SaveStep(S, S1, c, ctx) && K.ReleaseStep(S1, S2, c)
    requires S3 == K.SetCpu(S2, c, S2.cpus[c].(last := Some(S2.cpus[c].cur), pc := K.Poll(S2.cpus[c].cur, 0)))
    requires c < |S.idle| && (S.cpus[c].cur.IdleOf? ==> S.cpus[c].cur.cpu == c)
    ensures c < |S3.cpus| == |S.cpus| && |S3.idle| == |S.idle| && S3.tasks == S2.tasks && |S3.tasks| == |S.tasks|
    ensures S3.cpus[c] == K.Cpu(S.cpus[c].cur, Some(S.cpus[c].cur), K.Poll(S.cpus[c].cur, 0))
    ensures S3.idle[c] == if S.cpus[c].cur.T? then S.idle[c] else ctx
  {
  }

  lemma SaveMoves(S: K.State, S1: K.State, S2: K.State, S3: K.State, c: nat, ctx: nat)
    requires K.Inv(S) && K.MovesOn(S, S1, c) && K.MovesOn(S1, S2, c) && K.MovesOn(S2, S3, c)
    requires S.cpus[c].pc == K.Save(ctx)
    ensures Saved(S, S3, c, ctx)
  {
    assert K.CpuOk(S, c);
    HandlerStep(S, S1, c);
    HandlerStep(S1, S2, c);
    HandlerStep(S2, S3, c);
    SavedRest(S, S1, S2, S3, c, ctx);
    forall i: nat | i < |S.tasks|
      ensures SavedTask(S.tasks[i], S3.tasks[i], S.cpus[c].cur == K.T(i),
                        GivesUp(S.cpus[c]) && S.cpus[c].last.value.i == i, ctx)
    {
      AllSavable(S, c, i);
      SavedOne(S, S1, S2, c, ctx, i);
    }
  }

  lemma NestsMirror(cpu: Sch.Cpu, S: K.State, c: nat)
    requires cpu.Valid() && K.Inv(S) && Mirrors(cpu, S, c) && S.cpus[c].pc.Save?
    ensures cpu.currentTask != cpu.idle ==> cpu.currentTask.nest == 0
    ensures cpu.lastTask != null && cpu.lastTask != cpu.idle && cpu.lastTask != cpu.currentTask ==>
        cpu.lastTask.nest == 1
  {
    var n, p := |cpu.list|, cpu.Index(cpu.currentTask);
    assert K.CpuOk(S, c);
    if cpu.currentTask != cpu.idle {
      assert Same(cpu.list[p], S.tasks[n - 1 - p]);
      assert K.TaskOk(S, n - 1 - p) && K.Owns(S.cpus[c], n - 1 - p);
    }
    if cpu.lastTask != null && cpu.lastTask != cpu.idle && cpu.lastTask != cpu.currentTask {
      var l := cpu.Index(cpu.lastTask);
      assert Same(cpu.list[l], S.tasks[n - 1 - l]);
      assert K.TaskOk(S, n - 1 - l) && K.Owns(S.cpus[c], n - 1 - l);
    }
  }

  method SaveOnList(cpu: Sch.Cpu, context: nat, ghost S: K.State, ghost S': K.State, ghost c: nat)
    requires cpu.Valid() && Mirrors(cpu, S, c) && Saved(S, S', c, context)
    requires cpu.currentTask != cpu.idle ==> cpu.currentTask.nest == 0
    requires cpu.lastTask != null && cpu.lastTask != cpu.idle && cpu.lastTask != cpu.currentTask ==>
        cpu.lastTask.nest == 1
    modifies cpu`lastTask, cpu.currentTask, cpu.lastTask
    ensures cpu.Valid() && Mirrors(cpu, S', c)
  {
    ghost var n, list, cur, last := |cpu.list|, cpu.list, cpu.currentTask, cpu.lastTask;
    ghost var k, l := cpu.Index(cur), if last == null then -1 else cpu.Index(last);
    cpu.KmtContextSave(context);
    forall p | 0 <= p < n ensures Same(list[p], S'.tasks[n - 1 - p]) {
      assert old(Same(list[p], S.tasks[n - 1 - p]));
      assert SavedTask(S.tasks[n - 1 - p], S'.tasks[n - 1 - p], p == k, p == l && l != k, context);
    }
  }

  /** kmt_context_save does to the list what the three steps do to the state. */
  method SaveMirrors(cpu: Sch.Cpu, context: nat, ghost S: K.State, ghost S1: K.State, ghost S2: K.State,
          ghost S3: K.State, ghost c: nat)
    requires cpu.Valid() && K.Inv(S) && Mirrors(cpu, S, c) && S.cpus[c].pc == K.Save(context)
    requires K.MovesOn(S, S1, c) && K.MovesOn(S1, S2, c) && K.MovesOn(S2, S3, c)
    modifies cpu`lastTask, cpu.currentTask, cpu.lastTask
    ensures cpu.Valid() && Mirrors(cpu, S3, c)
  {
    SaveMoves(S, S1, S2, S3, c, context);
    NestsMirror(cpu, S, c);
    SaveOnList(cpu, context, S, S3, c);
  }

  // ---------------------------------------------------------------- kmt_schedule

  /** The task that is entered runs on CPU c and has no context pushed; another is as it was. */
  predicate EnteredTask(t: K.Task, t': K.Task, entered: bool, c: nat) {
    t' == if entered then t.(nest := 0, running := true, holder := Some(c)) else t
  }

  /** CPU c has left its loop for the first eligible task, or for its idle task if there is none. */
  ghost predicate Entered(S: K.State, S': K.State, c: nat) {
    var holds :=
      c < |S.cpus| == |S'.cpus| && c < |S.idle| == |S'.idle| && |S'.tasks| == |S.tasks| &&
      var cur, cur' := S.cpus[c].cur, S'.cpus[c].cur;
      && S'.cpus[c].last == S.cpus[c].last && S'.idle[c] == S.idle[c]
      && (match cur'
          case T(i) => Eligible(S, cur, i) && forall j: nat :: Eligible(S, cur, j) ==>
              K.Ahead(cur, i, |S.tasks|) <= K.Ahead(cur, j, |S.tasks|)
          case IdleOf(d) => d == c && forall j: nat :: !Eligible(S, cur, j))
      && forall i: nat {:trigger S'.tasks[i]} :: i < |S.tasks| ==>
          EnteredTask(S.tasks[i], S'.tasks[i], cur' == K.T(i), c);
    holds
  }

  lemma LastPoll(S: K.State, S': K.State, c: nat)
    requires K.Inv(S) && K.MovesOn(S, S', c) && K.TrapEnds(S, S', c)
    ensures S'.idle == S.idle && |S'.tasks| == |S.tasks| && S'.cpus[c].last == S.cpus[c].last
    ensures forall i: nat {:trigger S'.tasks[i]} :: i < |S.tasks| ==>
        EnteredTask(S.tasks[i], S'.tasks[i], S'.cpus[c].cur == K.T(i), c)
  {
    assert K.CpuOk(S, c);
    HandlerStep(S, S', c);
    if S'.cpus[c].cur.T? && S'.cpus[c].cur.i < |S.tasks| {
      var i := S'.cpus[c].cur.i;
      assert K.TaskOk(S, i);
      assert K.Owns(S.cpus[c], i) <==> S.tasks[i].holder == Some(c);
    }
  }

  lemma PollKeepsIdle(S: K.State, S': K.State, c: nat)
    requires K.MovesOn(S, S', c) && S.cpus[c].pc.Poll?
    ensures S'.idle == S.idle
  {
  }

  lemma {:induction false} PassKeepsIdle(run: seq<K.State>, c: nat, m: nat, n: nat)
    requires K.IsRun(run) && Scanning(run, c, m, n) && Alone(run, c, m, n)
    ensures run[n].idle == run[m].idle
    decreases n
  {
    if n > m {
      PassKeepsIdle(run, c, m, n - 1);
      assert MovesAt(run, n - 1, c);
      PollKeepsIdle(run[n - 1], run[n], c);
    }
  }

  /** A pass that nothing interrupts. */
  lemma PassEnters(run: seq<K.State>, c: nat, m: nat, n: nat)
    requires K.IsRun(run) && Scanning(run, c, m, n) && Alone(run, c, m, n)
    requires n + 1 < |run| && K.TrapEnds(run[n], run[n + 1], c)
    ensures Entered(run[m], run[n + 1], c)
  {
    K.RunInv(run, m);
    K.RunInv(run, n);
    assert K.CpuOk(run[m], c) && K.CpuOk(run[n], c);
    AloneKeepsTasks(run, c, m, n);
    PassKeepsIdle(run, c, m, n);
    EntersFirstEligible(run, c, m, n);
    assert MovesAt(run, n, c);
    LastPoll(run[n], run[n + 1], c);
  }

  lemma SameEligible(cpu: Sch.Cpu, S: K.State, c: nat, p: nat)
    requires cpu.Valid() && Mirrors(cpu, S, c) && p < |cpu.list|
    ensures cpu.Eligible(cpu.list[p]) <==> Eligible(S, S.cpus[c].cur, |cpu.list| - 1 - p)
  {
    assert Same(cpu.list[p], S.tasks[|cpu.list| - 1 - p]);
  }

  lemma SameFirst(cpu: Sch.Cpu, S: K.State, S': K.State, c: nat, f: int)
    requires cpu.Valid() && Mirrors(cpu, S, c) && Entered(S, S', c)
    ensures cpu.AllRefused() ==> S'.cpus[c].cur == RefAt(-1, |cpu.list|, c)
    ensures cpu.IsFirstEligible(f) ==> S'.cpus[c].cur == RefAt(f, |cpu.list|, c)
  {
    var n, p := |cpu.list|, cpu.Index(cpu.currentTask);
    if S'.cpus[c].cur.T? {
      var i := S'.cpus[c].cur.i;
      SameEligible(cpu, S, c, n - 1 - i);
      OrderMirrors(S, c, p, n - 1 - i, n);
    }
    if cpu.IsFirstEligible(f) {
      SameEligible(cpu, S, c, f);
      OrderMirrors(S, c, p, f, n);
    }
  }

  /** The task the scan of the list stops at is the one the pass enters. */
  lemma SameChoice(cpu: Sch.Cpu, S: K.State, S': K.State, c: nat)
    requires cpu.Valid() && Mirrors(cpu, S, c) && Entered(S, S', c)
    ensures cpu.AllRefused() ==> S'.cpus[c].cur == RefAt(-1, |cpu.list|, c)
    ensures forall f: int {:trigger cpu.IsFirstEligible(f)} :: cpu.IsFirstEligible(f) ==>
        S'.cpus[c].cur == RefAt(f, |cpu.list|, c)
  {
    SameFirst(cpu, S, S', c, -1);
    forall f: int {:trigger cpu.IsFirstEligible(f)} | cpu.IsFirstEligible(f)
      ensures S'.cpus[c].cur == RefAt(f, |cpu.list|, c)
    {
      SameFirst(cpu, S, S', c, f);
    }
  }

  /** kmt_schedule stops at the task that the pass enters, pops its context if it was the current one, marks it
      running if not, and changes nothing else of any task. */
  method EnterOnList(cpu: Sch.Cpu, ghost S: K.State, ghost S': K.State, ghost c: nat) returns (ctx: nat, ghost f: int)
    requires cpu.Valid() && cpu.list != [] && Mirrors(cpu, S, c) && Entered(S, S', c)
    requires cpu.currentTask != cpu.idle ==> cpu.currentTask.nest == 1 && cpu.currentTask.running
    requires forall t :: t in cpu.list && t != cpu.currentTask && !t.running ==> t.nest == 0
    modifies cpu`currentTask, cpu.list
    ensures cpu.Valid() && cpu.list == old(cpu.list) && -1 <= f < |cpu.list| && ctx == cpu.currentTask.context[0]
    ensures S'.cpus[c].cur == RefAt(f, |cpu.list|, c)
    ensures cpu.currentTask == if f == -1 then cpu.idle else cpu.list[f]
    ensures forall p {:trigger cpu.list[p]} :: 0 <= p < |cpu.list| ==>
        var t := cpu.list[p];
        t.context == old(t.context) && t.blocked == old(t.blocked) &&
        t.nest == (if p == f then 0 else old(t.nest)) && t.running == (p == f || old(t.running))
  {
    SameChoice(cpu, S, S', c);
    ctx, f := cpu.KmtSchedule();
    forall p | 0 <= p < |cpu.list| ensures p != f ==> cpu.list[p] != cpu.currentTask { assert cpu.list[p] in cpu.list; }
  }

  /** So it does to every task what the pass does. */
  method PassOnList(cpu: Sch.Cpu, ghost S: K.State, ghost S': K.State, ghost c: nat) returns (ctx: nat)
    requires cpu.Valid() && cpu.list != [] && Mirrors(cpu, S, c) && Entered(S, S', c)
    requires cpu.currentTask != cpu.idle ==> cpu.currentTask.nest == 1 && cpu.currentTask.running
    requires forall t :: t in cpu.list && t != cpu.currentTask && !t.running ==> t.nest == 0
    modifies cpu`currentTask, cpu.list
    ensures cpu.Valid() && cpu.list == old(cpu.list) && ctx == cpu.currentTask.context[0]
    ensures S'.cpus[c].cur == RefAt(cpu.Index(cpu.currentTask), |cpu.list|, c)
    ensures |S'.tasks| == |cpu.list| && forall p {:trigger cpu.list[p]} :: 0 <= p < |cpu.list| ==>
        Same(cpu.list[p], S'.tasks[|cpu.list| - 1 - p])
  {
    ghost var n, list, f := |cpu.list|, cpu.list, -1;
    ctx, f := EnterOnList(cpu, S, S', c);
    if f >= 0 { cpu.IndexIs(cpu.currentTask, f); }
    forall p | 0 <= p < n ensures Same(list[p], S'.tasks[n - 1 - p]) {
      assert old(Same(list[p], S.tasks[n - 1 - p]));
      assert EnteredTask(S.tasks[n - 1 - p], S'.tasks[n - 1 - p], p == f, c);
    }
  }

  lemma RunningMirrors(cpu: Sch.Cpu, S: K.State, c: nat)
    requires cpu.Valid() && K.Inv(S) && Mirrors(cpu, S, c) && S.cpus[c].pc.Poll?
    ensures cpu.currentTask != cpu.idle ==> cpu.currentTask.nest == 1 && cpu.currentTask.running
    ensures forall t :: t in cpu.list && t != cpu.currentTask && !t.running ==> t.nest == 0
  {
    var n, k := |cpu.list|, cpu.Index(cpu.currentTask);
    assert K.CpuOk(S, c);
    if cpu.currentTask != cpu.idle {
      assert Same(cpu.list[k], S.tasks[n - 1 - k]);
      assert K.TaskOk(S, n - 1 - k) && K.Owns(S.cpus[c], n - 1 - k);
    }
    forall t | t in cpu.list && t != cpu.currentTask && !t.running ensures t.nest == 0 {
      var p := cpu.Index(t);
      assert Same(cpu.list[p], S.tasks[n - 1 - p]) && K.TaskOk(S, n - 1 - p);
    }
  }

  /** kmt_schedule does to the list what a pass that nothing interrupts does to the state, and returns the
      context that the CPU goes on with. */
  method ScheduleMirrors(cpu: Sch.Cpu, ghost run: seq<K.State>, ghost c: nat, ghost m: nat, ghost n: nat)
      returns (ctx: nat)
    requires K.IsRun(run) && Scanning(run, c, m, n) && Alone(run, c, m, n)
    requires n + 1 < |run| && K.TrapEnds(run[n], run[n + 1], c)
    requires cpu.Valid() && cpu.list != [] && Mirrors(cpu, run[m], c)
    modifies cpu`currentTask, cpu.list
    ensures cpu.Valid() && Mirrors(cpu, run[n + 1], c) && ctx == cpu.currentTask.context[0]
  {
    K.RunInv(run, m);
    PassEnters(run, c, m, n);
    RunningMirrors(cpu, run[m], c);
    ctx := PassOnList(cpu, run[m], run[n + 1], c);
  }

  /** The two handlers together do to the list what a whole trap of CPU c, from run[a] on, does to the state
      when nothing else happens meanwhile. */
  method TrapMirrors(cpu: Sch.Cpu, context: nat, ghost run: seq<K.State>, ghost c: nat, ghost a: nat, ghost n: nat)
      returns (ctx: nat)
    requires K.IsRun(run) && a + 3 <= n && Alone(run, c, a, n) && Scanning(run, c, a + 3, n)
    requires n + 1 < |run| && K.TrapEnds(run[n], run[n + 1], c)
    requires cpu.Valid() && cpu.list != [] && Mirrors(cpu, run[a], c) && run[a].cpus[c].pc == K.Save(context)
    modifies cpu`lastTask, cpu`currentTask, cpu.idle, cpu.list
    ensures cpu.Valid() && Mirrors(cpu, run[n + 1], c) && ctx == cpu.currentTask.context[0]
  {
    K.RunInv(run, a);
    assert MovesAt(run, a, c) && MovesAt(run, a + 1, c) && MovesAt(run, a + 2, c);
    ghost var list := cpu.list;
    SaveMirrors(cpu, context, run[a], run[a + 1], run[a + 2], run[a + 3], c);
    assert cpu.list == list;
    ctx := ScheduleMirrors(cpu, run, c, a + 3, n);
  }

  /** create puts the task in front of the list and appends it to the state: the numbers of the others stay. */
  method CreateMirrors(cpu: Sch.Cpu, task: Sch.Task, ctx: nat, ghost S: K.State, ghost S': K.State, ghost c: nat)
    requires cpu.Valid() && Mirrors(cpu, S, c) && task !in cpu.list && task != cpu.idle && |task.context| == 4
    requires K.CreateWith(S, S', ctx) && S'.tasks[|S.tasks|].context[1..] == task.context[1..]
    modifies cpu`taskList, cpu`taskCount, cpu`list, task
    ensures cpu.Valid() && Mirrors(cpu, S', c)
  {
    ghost var n, list, cur, last := |cpu.list|, cpu.list, cpu.currentTask, cpu.lastTask;
    ghost var k, l := cpu.Index(cur), if last == null then -1 else cpu.Index(last);
    cpu.Create(task, ctx);
    if k >= 0 { cpu.IndexIs(cur, k + 1); }
    if l >= 0 { cpu.IndexIs(last, l + 1); }
    forall p | 0 <= p < n + 1 ensures Same(cpu.list[p], S'.tasks[n - p]) {
      assert p > 0 ==> cpu.list[p] == list[p - 1] && old(Same(list[p - 1], S.tasks[n - p]));
      assert p > 0 ==> list[p - 1] in list;
    }
  }
}
