/** What becomes of the contexts that kmt_context_save stores (kernel/src/kmt.c lines 14-19, 53, 66, 71
    and 84), over the steps and runs of module Kernel: whatever the other CPUs do in between, a task
    goes on from where its last trap left it, and so does the idle task of each CPU. */
module TaskContexts {
  import opened Words
  import opened Kernel

  // ---------------------------------------------------------------- which steps give a context

  /** CPU c, trapped with ctx while task i is its current one, takes its next step. */
  ghost predicate SavesTask(S: State, S': State, c: nat, i: nat, ctx: nat) {
    c < |S.cpus| && S.cpus[c].pc == Save(ctx) && S.cpus[c].cur == T(i) && MovesOn(S, S', c)
  }

  /** CPU c, trapped with ctx while its idle task is its current one, takes its next step. */
  ghost predicate SavesIdle(S: State, S': State, c: nat, ctx: nat) {
    c < |S.cpus| && S.cpus[c].pc == Save(ctx) && S.cpus[c].cur == IdleOf(c) && MovesOn(S, S', c)
  }

  ghost predicate SavesSomeIdle(S: State, S': State, c: nat) {
    exists ctx: nat :: SavesIdle(S, S', c, ctx)
  }

  /** The step creates task i with ctx. */
  ghost predicate CreatesTask(S: State, S': State, i: nat, ctx: nat) {
    |S.tasks| == i && CreateWith(S, S', ctx)
  }

  /** The step gives task i the context ctx: a trap of it on some CPU, or its creation. */
  ghost predicate GivesContext(S: State, S': State, i: nat, ctx: nat) {
    CreatesTask(S, S', i, ctx) || exists c: nat :: SavesTask(S, S', c, i, ctx)
  }

  ghost predicate GivesSome(S: State, S': State, i: nat) {
    exists ctx: nat :: GivesContext(S, S', i, ctx)
  }

  ghost predicate GivenAt(run: seq<State>, j: int, i: nat) {
    0 <= j < |run| - 1 && GivesSome(run[j], run[j + 1], i)
  }

  /** Step m of the run is the last before state n that gives task i a context, and it gives ctx. */
  ghost predicate LastGiven(run: seq<State>, m: nat, n: nat, i: nat, ctx: nat) {
    && m < n < |run| && GivesContext(run[m], run[m + 1], i, ctx)
    && forall j :: m < j < n ==> !GivenAt(run, j, i)
  }

  // ---------------------------------------------------------------- one step

  /** A trap stores its context where the task will be resumed from, and in no other slot. */
  lemma SavesContext(S: State, S': State, c: nat, i: nat, ctx: nat)
    requires Inv(S) && SavesTask(S, S', c, i, ctx)
    ensures i < |S.tasks| == |S'.tasks| && |S.tasks[i].context| == 4
    ensures S'.tasks[i].context == [ctx] + S.tasks[i].context[1..]
    ensures S'.tasks[i].nest == 1 && S'.idle == S.idle
  {
    assert CpuOk(S, c) && TaskOk(S, i);
    assert Owns(S.cpus[c], i);
  }

  lemma SavesIdleContext(S: State, S': State, c: nat, ctx: nat)
    requires Inv(S) && SavesIdle(S, S', c, ctx)
    ensures c < |S'.idle| == |S.idle| && S'.idle[c] == ctx && S'.tasks == S.tasks
    ensures forall d :: 0 <= d < |S.idle| && d != c ==> S'.idle[d] == S.idle[d]
  {
  }

  lemma GivenIsStored(S: State, S': State, i: nat, ctx: nat)
    requires Inv(S) && GivesContext(S, S', i, ctx)
    ensures i < |S'.tasks| && |S'.tasks[i].context| == 4 && S'.tasks[i].context[0] == ctx
  {
    if !CreatesTask(S, S', i, ctx) {
      var c: nat :| SavesTask(S, S', c, i, ctx);
      SavesContext(S, S', c, i, ctx);
    }
  }

  /** Nothing but its own trap changes a context of a task, whichever CPU steps and however. */
  lemma OthersKeepContext(S: State, S': State, i: nat)
    requires Inv(S) && Next(S, S') && i < |S.tasks| && !GivesSome(S, S', i)
    ensures i < |S'.tasks| && S'.tasks[i].context == S.tasks[i].context
  {
    var c: nat :| Step(S, S', c);
    if S.cpus[c].pc.Save? && S.cpus[c].cur == T(i) {
      assert !GivesContext(S, S', i, S.cpus[c].pc.ctx);
      assert !SavesTask(S, S', c, i, S.cpus[c].pc.ctx);
    }
  }

  /** Nothing but a trap of CPU c in its idle task changes that task's context. */
  lemma OthersKeepIdle(S: State, S': State, c: nat)
    requires Inv(S) && Next(S, S') && c < |S.cpus| && !SavesSomeIdle(S, S', c)
    ensures c < |S'.idle| && S'.idle[c] == S.idle[c]
  {
    var d: nat :| Step(S, S', d);
    assert CpuOk(S, d);
    if d == c && S.cpus[c].pc.Save? && S.cpus[c].cur == IdleOf(c) {
      assert !SavesIdle(S, S', c, S.cpus[c].pc.ctx);
    }
  }

  // ---------------------------------------------------------------- over runs

  lemma {:induction false} LastGivenStays(run: seq<State>, m: nat, n: nat, i: nat, ctx: nat)
    requires IsRun(run) && LastGiven(run, m, n, i, ctx)
    ensures i < |run[n].tasks| && |run[n].tasks[i].context| == 4 && run[n].tasks[i].context[0] == ctx
    decreases n
  {
    RunInv(run, n - 1);
    assert StepAt(run, n);
    if n == m + 1 {
      GivenIsStored(run[m], run[n], i, ctx);
    } else {
      LastGivenStays(run, m, n - 1, i, ctx);
      assert !GivenAt(run, n - 1, i);
      OthersKeepContext(run[n - 1], run[n], i);
    }
  }

  /** Every task that exists was given a context, at its creation if it has not trapped since. */
  lemma {:induction false} WasGiven(run: seq<State>, n: nat, i: nat) returns (m: nat, ctx: nat)
    requires IsRun(run) && n < |run| && i < |run[n].tasks|
    ensures LastGiven(run, m, n, i, ctx)
    decreases n
  {
    assert n > 0;
    RunInv(run, n - 1);
    assert StepAt(run, n);
    if GivesSome(run[n - 1], run[n], i) {
      m := n - 1;
      ctx :| GivesContext(run[m], run[n], i, ctx);
    } else {
      NotGivenExisted(run[n - 1], run[n], i);
      m, ctx := WasGiven(run, n - 1, i);
    }
  }

  lemma NotGivenExisted(S: State, S': State, i: nat)
    requires Next(S, S') && i < |S'.tasks| && !GivesSome(S, S', i)
    ensures i < |S.tasks|
  {
    var c: nat :| Step(S, S', c);
    if Create(S, S') {
      var ctx: nat :| CreateWith(S, S', ctx);
      assert !GivesContext(S, S', i, ctx);
    }
  }

  /** The context that CPU c goes on with when it enters task i is the one that the task's last trap,
      on whatever CPU, was taken with; if it has not trapped yet, the one it was created with. */
  lemma ReturnsLastContext(run: seq<State>, n: nat, c: nat, i: nat, m: nat, ctx: nat)
    requires IsRun(run) && n + 1 < |run| && Enters(run[n], run[n + 1], c, i) && Step(run[n], run[n + 1], c)
    requires LastGiven(run, m, n, i, ctx)
    ensures var t := run[n + 1].tasks[i]; t.nest < |t.context| && t.context[t.nest] == ctx
  {
    RunInv(run, n);
    EntersByPoll(run[n], run[n + 1], c, i);
    LastGivenStays(run, m, n, i, ctx);
  }

  /** There is always such a context. */
  lemma EnteredWasGiven(run: seq<State>, n: nat, c: nat, i: nat)
    requires IsRun(run) && n + 1 < |run| && Enters(run[n], run[n + 1], c, i)
    ensures exists m: nat, ctx: nat :: LastGiven(run, m, n, i, ctx)
  {
    var m, ctx := WasGiven(run, n, i);
  }

  ghost predicate IdleSavedAt(run: seq<State>, j: int, c: nat) {
    0 <= j < |run| - 1 && SavesSomeIdle(run[j], run[j + 1], c)
  }

  /** Step m of the run is the last before state n that gives the idle task of CPU c a context. */
  ghost predicate LastIdle(run: seq<State>, m: nat, n: nat, c: nat, ctx: nat) {
    && m < n < |run| && SavesIdle(run[m], run[m + 1], c, ctx)
    && forall j :: m < j < n ==> !IdleSavedAt(run, j, c)
  }

  ghost predicate NoIdleYet(run: seq<State>, n: nat, c: nat) {
    n < |run| && forall j :: 0 <= j < n ==> !IdleSavedAt(run, j, c)
  }

  lemma {:induction false} LastIdleStays(run: seq<State>, m: nat, n: nat, c: nat, ctx: nat)
    requires IsRun(run) && LastIdle(run, m, n, c, ctx)
    ensures c < |run[n].idle| && run[n].idle[c] == ctx
    decreases n
  {
    RunInv(run, n - 1);
    assert StepAt(run, n);
    if n == m + 1 {
      SavesIdleContext(run[m], run[n], c, ctx);
    } else {
      LastIdleStays(run, m, n - 1, c, ctx);
      assert !IdleSavedAt(run, n - 1, c);
      OthersKeepIdle(run[n - 1], run[n], c);
    }
  }

  lemma {:induction false} FirstIdleStays(run: seq<State>, n: nat, c: nat)
    requires IsRun(run) && NoIdleYet(run, n, c) && c < |run[0].idle|
    ensures c < |run[n].idle| && run[n].idle[c] == run[0].idle[c]
    decreases n
  {
    if n > 0 {
      FirstIdleStays(run, n - 1, c);
      RunInv(run, n - 1);
      assert StepAt(run, n);
      assert !IdleSavedAt(run, n - 1, c);
      OthersKeepIdle(run[n - 1], run[n], c);
    }
  }

  /** CPU c finds no task to run and turns to its idle task. */
  ghost predicate GoesIdle(S: State, S': State, c: nat) {
    && c < |S.cpus| && c < |S'.cpus|
    && S.cpus[c].pc.Poll? && S'.cpus[c].pc.User? && S'.cpus[c].cur == IdleOf(c)
  }

  /** A CPU that turns to its idle task goes on with the context of its last trap in that task, whatever
      tasks it has run since; before the first such trap, with what the idle task had at the start. */
  lemma IdleReturnsLastContext(run: seq<State>, n: nat, c: nat, m: nat, ctx: nat)
    requires IsRun(run) && n + 1 < |run| && GoesIdle(run[n], run[n + 1], c) && Step(run[n], run[n + 1], c)
    requires LastIdle(run, m, n, c, ctx) || (NoIdleYet(run, n, c) && c < |run[0].idle| && ctx == run[0].idle[c])
    ensures c < |run[n + 1].idle| && run[n + 1].idle[c] == ctx
  {
    RunInv(run, n);
    if LastIdle(run, m, n, c, ctx) { LastIdleStays(run, m, n, c, ctx); } else { FirstIdleStays(run, n, c); }
    assert StepAt(run, n + 1);
    assert !SavesSomeIdle(run[n], run[n + 1], c);
    OthersKeepIdle(run[n], run[n + 1], c);
  }
}
