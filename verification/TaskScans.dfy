/** What one pass of the loop of kmt_schedule finds (kernel/src/kmt.c lines 33-71), over the runs of module
    Kernel: whom the CPU has polled before it enters a task or turns to its idle task, and why it
    has not entered one of those instead. */
module TaskScans {
  import opened Words
  import opened Kernel
  import opened TaskContexts

  /** CPU c polls task j and goes on to the next. */
  ghost predicate Refuses(S: State, S': State, c: nat, j: nat) {
    && c < |S.cpus| && MovesOn(S, S', c) && S.cpus[c].pc.Poll? && S'.cpus[c].pc.Poll?
    && S'.cpus[c].pc.t == T(j)
  }

  /** From state m, where its loop begins, to state n, CPU c is in the loop. */
  ghost predicate Scanning(run: seq<State>, c: nat, m: nat, n: nat) {
    && m <= n < |run| && c < |run[m].cpus| && run[m].cpus[c].pc == Poll(run[m].cpus[c].cur, 0)
    && forall k {:trigger run[k]} :: m <= k <= n ==> c < |run[k].cpus| && run[k].cpus[c].pc.Poll?
  }

  ghost predicate RefusesAt(run: seq<State>, k: int, c: nat, j: nat) {
    0 <= k < |run| - 1 && Refuses(run[k], run[k + 1], c, j)
  }

  /** In one of the steps from m to n CPU c refuses task j. */
  ghost predicate Refused(run: seq<State>, c: nat, m: nat, n: nat, j: nat) {
    exists k :: m <= k < n && RefusesAt(run, k, c, j)
  }

  ghost predicate RefusedTwice(run: seq<State>, c: nat, m: nat, n: nat, j: nat) {
    exists k, l :: m <= k < l < n && RefusesAt(run, k, c, j) && RefusesAt(run, l, c, j)
  }

  /** A task may run on a CPU whose current task is cur: it is awake, and no CPU runs it but, if it is
      the current one, this one. */
  predicate Eligible(S: State, cur: TaskRef, j: nat) {
    j < |S.tasks| && !S.tasks[j].blocked && (T(j) == cur || !S.tasks[j].running)
  }

  // ---------------------------------------------------------------- one poll

  lemma RefusedWhy(S: State, S': State, c: nat, j: nat)
    requires Inv(S) && Refuses(S, S', c, j)
    ensures j < |S.tasks| && !Eligible(S, S.cpus[c].cur, j)
  {
    assert CpuOk(S, c);
  }

  /** Task j is still ahead of the loop of CPU c, on its first or its second lap around the list: the polls
      so far and those up to the task are no more than its distance and the laps before. */
  ghost predicate StillAhead(S: State, c: nat, j: nat, second: bool) {
    && c < |S.cpus| && S.cpus[c].pc.Poll?
    && S.cpus[c].pc.count + Ahead(S.cpus[c].pc.t, j, |S.tasks|) <=
        Ahead(S.cpus[c].cur, j, |S.tasks|) + if second then |S.tasks| else 0
  }

  /** What a step leaves of CPU c if it is not a step of its loop: the CPU is as it was, and there may be a
      new task. */
  lemma StepElsewhere(S: State, S': State, d: nat, c: nat)
    requires Inv(S) && Step(S, S', d) && c < |S.cpus| && (d != c || S'.cpus == S.cpus)
    ensures |S'.cpus| == |S.cpus| && S'.cpus[c] == S.cpus[c] && |S.tasks| <= |S'.tasks| <= |S.tasks| + 1
  {
  }

  lemma PollGoesOn(S: State, S': State, c: nat)
    requires Inv(S) && Step(S, S', c) && S.cpus[c].pc.Poll? && S'.cpus != S.cpus
    ensures PollStep(S, S', c, S.cpus[c].pc.t, S.cpus[c].pc.count) && |S'.cpus| == |S.cpus|
    ensures |S'.tasks| == |S.tasks| && S'.cpus[c] != S.cpus[c]
  {
  }

  /** While CPU c is in the loop, a task it has not come to stays ahead, whatever other CPUs do; once it
      has come to it and gone on, the task is ahead for the next lap. */
  lemma PollAdvances(S: State, S': State, c: nat, j: nat, second: bool)
    requires Inv(S) && Next(S, S') && c < |S.cpus| && c < |S'.cpus| && j < |S.tasks|
    requires StillAhead(S, c, j, second) && S'.cpus[c].pc.Poll?
    ensures j < |S'.tasks| && S'.cpus[c].cur == S.cpus[c].cur
    ensures StillAhead(S', c, j, second) || Refuses(S, S', c, j)
    ensures !second ==> StillAhead(S', c, j, true)
  {
    assert CpuOk(S, c);
    var d: nat :| Step(S, S', d);
    if d == c && S'.cpus != S.cpus {
      PollGoesOn(S, S', c);
    } else {
      StepElsewhere(S, S', d, c);
    }
  }

  // ---------------------------------------------------------------- one pass of the loop

  /** A task that existed when the loop began is still ahead of it, or has been refused and is ahead
      again, or has been refused twice. */
  lemma {:induction false} AheadOrRefused(run: seq<State>, c: nat, m: nat, n: nat, j: nat)
    requires IsRun(run) && Scanning(run, c, m, n) && j < |run[m].tasks|
    ensures j < |run[n].tasks| && run[n].cpus[c].cur == run[m].cpus[c].cur
    ensures StillAhead(run[n], c, j, false) || Refused(run, c, m, n, j)
    ensures StillAhead(run[n], c, j, true) || RefusedTwice(run, c, m, n, j)
    decreases n
  {
    if n > m {
      AheadOrRefused(run, c, m, n - 1, j);
      RunInv(run, n - 1);
      assert StepAt(run, n);
      LoopStays(run[n - 1], run[n], c);
      if StillAhead(run[n - 1], c, j, false) { PollAdvances(run[n - 1], run[n], c, j, false); }
      if StillAhead(run[n - 1], c, j, true) { PollAdvances(run[n - 1], run[n], c, j, true); }
      assert Refuses(run[n - 1], run[n], c, j) ==> RefusesAt(run, n - 1, c, j);
    }
  }

  lemma LoopStays(S: State, S': State, c: nat)
    requires Inv(S) && Next(S, S') && c < |S.cpus| && c < |S'.cpus| && S.cpus[c].pc.Poll? && S'.cpus[c].pc.Poll?
    ensures S'.cpus[c].cur == S.cpus[c].cur && |S.tasks| <= |S'.tasks|
  {
    var d: nat :| Step(S, S', d);
    if d == c && S'.cpus != S.cpus { PollGoesOn(S, S', c); } else { StepElsewhere(S, S', d, c); }
  }

  /** In step k CPU c polls task j and finds it unfit: asleep, or running and not the CPU's own current
      task. */
  ghost predicate UnfitAt(run: seq<State>, k: int, c: nat, j: nat) {
    RefusesAt(run, k, c, j) && j < |run[k].tasks| && !Eligible(run[k], run[k].cpus[c].cur, j)
  }

  ghost predicate FoundUnfit(run: seq<State>, c: nat, m: nat, n: nat, j: nat) {
    exists k :: m <= k < n && UnfitAt(run, k, c, j)
  }

  ghost predicate FoundUnfitTwice(run: seq<State>, c: nat, m: nat, n: nat, j: nat) {
    exists k, l :: m <= k < l < n && UnfitAt(run, k, c, j) && UnfitAt(run, l, c, j)
  }

  lemma RefusedUnfit(run: seq<State>, k: nat, c: nat, j: nat)
    requires IsRun(run) && RefusesAt(run, k, c, j)
    ensures UnfitAt(run, k, c, j)
  {
    RunInv(run, k);
    RefusedWhy(run[k], run[k + 1], c, j);
  }

  /** A CPU turns to its idle task only if in this pass it has twice found every task unfit that was there
      when the pass began, its current one, if any, asleep, whatever other CPUs did in between. */
  lemma IdleOnlyIfAllUnfit(run: seq<State>, c: nat, m: nat, n: nat, j: nat)
    requires IsRun(run) && Scanning(run, c, m, n) && n + 1 < |run| && GoesIdle(run[n], run[n + 1], c)
    requires j < |run[m].tasks|
    ensures FoundUnfitTwice(run, c, m, n, j)
  {
    AheadOrRefused(run, c, m, n, j);
    RunInv(run, n);
    assert StepAt(run, n + 1);
    IdleAfterAll(run[n], run[n + 1], c, j);
    var k: nat, l: nat :| m <= k < l < n && RefusesAt(run, k, c, j) && RefusesAt(run, l, c, j);
    RefusedUnfit(run, k, c, j);
    RefusedUnfit(run, l, c, j);
  }

  lemma LeavesLoop(S: State, S': State, c: nat)
    requires Inv(S) && Next(S, S') && TrapEnds(S, S', c)
    ensures Step(S, S', c) && PollStep(S, S', c, S.cpus[c].pc.t, S.cpus[c].pc.count)
  {
    var d: nat :| Step(S, S', d);
    if d == c && S'.cpus != S.cpus { PollGoesOn(S, S', c); } else { StepElsewhere(S, S', d, c); }
  }

  lemma IdleAfterAll(S: State, S': State, c: nat, j: nat)
    requires Inv(S) && Next(S, S') && GoesIdle(S, S', c) && j < |S.tasks|
    ensures !StillAhead(S, c, j, true)
  {
    LeavesLoop(S, S', c);
    assert CpuOk(S, c);
  }

  /** A CPU enters a task only if in this pass it has found every task unfit that comes before it on the
      list from the current one on and was there when the pass began. */
  lemma EntersOnlyIfNearerUnfit(run: seq<State>, c: nat, m: nat, n: nat, i: nat, j: nat)
    requires IsRun(run) && Scanning(run, c, m, n) && n + 1 < |run| && Enters(run[n], run[n + 1], c, i)
    requires j < |run[m].tasks|
    requires Ahead(run[m].cpus[c].cur, j, |run[n].tasks|) < Ahead(run[m].cpus[c].cur, i, |run[n].tasks|)
    ensures FoundUnfit(run, c, m, n, j)
  {
    AheadOrRefused(run, c, m, n, j);
    RunInv(run, n);
    assert StepAt(run, n + 1);
    EntersAfterNearer(run[n], run[n + 1], c, i, j);
    var k: nat :| m <= k < n && RefusesAt(run, k, c, j);
    RefusedUnfit(run, k, c, j);
  }

  lemma EntersAfterNearer(S: State, S': State, c: nat, i: nat, j: nat)
    requires Inv(S) && Next(S, S') && Enters(S, S', c, i) && j < |S.tasks|
    requires Ahead(S.cpus[c].cur, j, |S.tasks|) < Ahead(S.cpus[c].cur, i, |S.tasks|)
    ensures !StillAhead(S, c, j, false)
  {
    LeavesLoop(S, S', c);
    assert CpuOk(S, c);
  }

  ghost predicate MovesAt(run: seq<State>, k: int, c: nat) {
    0 <= k < |run| - 1 && MovesOn(run[k], run[k + 1], c)
  }

  /** How many polls CPU c has made between run[m] and run[n]. */
  ghost function PollsMade(run: seq<State>, c: nat, m: nat, n: nat): nat
    requires m <= n
    decreases n
  {
    if n == m then 0 else PollsMade(run, c, m, n - 1) + if MovesAt(run, n - 1, c) then 1 else 0
  }

  lemma {:induction false} CountsPolls(run: seq<State>, c: nat, m: nat, n: nat)
    requires IsRun(run) && Scanning(run, c, m, n)
    ensures run[n].cpus[c].pc.count == PollsMade(run, c, m, n)
    decreases n
  {
    if n > m {
      CountsPolls(run, c, m, n - 1);
      RunInv(run, n - 1);
      assert StepAt(run, n);
      OnePoll(run[n - 1], run[n], c);
    }
  }

  lemma OnePoll(S: State, S': State, c: nat)
    requires Inv(S) && Next(S, S') && c < |S.cpus| && c < |S'.cpus| && S.cpus[c].pc.Poll? && S'.cpus[c].pc.Poll?
    ensures S'.cpus[c].pc.count == S.cpus[c].pc.count + if MovesOn(S, S', c) then 1 else 0
  {
    var d: nat :| Step(S, S', d);
    if d == c && S'.cpus != S.cpus { PollGoesOn(S, S', c); } else { StepElsewhere(S, S', d, c); }
    if MovesOn(S, S', c) { PollGoesOn(S, S', c); }
  }

  /** And only after two polls more than twice as many as there are tasks. */
  lemma IdleOnlyAfterPolls(run: seq<State>, c: nat, m: nat, n: nat)
    requires IsRun(run) && Scanning(run, c, m, n) && n + 1 < |run| && GoesIdle(run[n], run[n + 1], c)
    ensures PollsMade(run, c, m, n) >= 2 * |run[n].tasks| + 2
  {
    CountsPolls(run, c, m, n);
    RunInv(run, n);
    assert StepAt(run, n + 1);
    IdleAfterPolls(run[n], run[n + 1], c);
  }

  lemma IdleAfterPolls(S: State, S': State, c: nat)
    requires Inv(S) && Next(S, S') && GoesIdle(S, S', c)
    ensures S.cpus[c].pc.count >= 2 * |S.tasks| + 2
  {
    LeavesLoop(S, S', c);
    assert CpuOk(S, c);
  }

  // ---------------------------------------------------------------- a pass on its own

  /** From state m to state n + 1 only the loop of CPU c takes steps. */
  ghost predicate Alone(run: seq<State>, c: nat, m: nat, n: nat) {
    forall k :: m <= k <= n ==> MovesAt(run, k, c)
  }

  lemma RefusalKeepsTasks(S: State, S': State, c: nat)
    requires Inv(S) && MovesOn(S, S', c) && S.cpus[c].pc.Poll? && S'.cpus[c].pc.Poll?
    ensures S'.tasks == S.tasks && S'.cpus[c].cur == S.cpus[c].cur
  {
    PollGoesOn(S, S', c);
  }

  lemma {:induction false} AloneKeepsTasks(run: seq<State>, c: nat, m: nat, n: nat)
    requires IsRun(run) && Scanning(run, c, m, n) && Alone(run, c, m, n)
    ensures run[n].tasks == run[m].tasks && run[n].cpus[c].cur == run[m].cpus[c].cur
    decreases n
  {
    if n > m {
      AloneKeepsTasks(run, c, m, n - 1);
      RunInv(run, n - 1);
      assert MovesAt(run, n - 1, c);
      RefusalKeepsTasks(run[n - 1], run[n], c);
    }
  }

  lemma UnfitThroughout(run: seq<State>, c: nat, m: nat, n: nat, j: nat)
    requires IsRun(run) && Scanning(run, c, m, n) && Alone(run, c, m, n) && FoundUnfit(run, c, m, n, j)
    ensures !Eligible(run[m], run[m].cpus[c].cur, j)
  {
    var k: nat :| m <= k < n && UnfitAt(run, k, c, j);
    AloneKeepsTasks(run, c, m, k);
  }

  /** A pass in which nothing else happens enters the first eligible task of the list from the current
      one on, the current one last; and the CPU turns to its idle task exactly when there is none. */
  lemma EntersFirstEligible(run: seq<State>, c: nat, m: nat, n: nat)
    requires IsRun(run) && Scanning(run, c, m, n) && Alone(run, c, m, n)
    requires n + 1 < |run| && TrapEnds(run[n], run[n + 1], c)
    ensures var cur, cur', size := run[m].cpus[c].cur, run[n + 1].cpus[c].cur, |run[m].tasks|;
      match cur'
      case T(i) => Eligible(run[m], cur, i) && forall j: nat :: Eligible(run[m], cur, j) ==>
          Ahead(cur, i, size) <= Ahead(cur, j, size)
      case IdleOf(d) => d == c && forall j: nat :: !Eligible(run[m], cur, j)
  {
    var cur, cur' := run[m].cpus[c].cur, run[n + 1].cpus[c].cur;
    RunInv(run, n);
    AloneKeepsTasks(run, c, m, n);
    assert MovesAt(run, n, c);
    assert StepAt(run, n + 1);
    LeavesLoop(run[n], run[n + 1], c);
    match cur' {
      case T(i) =>
        EntersEligible(run[n], run[n + 1], c, i);
        forall j: nat | Eligible(run[m], cur, j)
          ensures Ahead(cur, i, |run[m].tasks|) <= Ahead(cur, j, |run[m].tasks|)
        {
          if Ahead(cur, j, |run[m].tasks|) < Ahead(cur, i, |run[m].tasks|) {
            EntersOnlyIfNearerUnfit(run, c, m, n, i, j);
            UnfitThroughout(run, c, m, n, j);
            assert false;
          }
        }
      case IdleOf(d) =>
        EntersIdle(run[n], run[n + 1], c);
        forall j: nat ensures !Eligible(run[m], cur, j) {
          if j < |run[m].tasks| {
            IdleOnlyIfAllUnfit(run, c, m, n, j);
            UnfitThroughout(run, c, m, n, j);
          }
        }
    }
  }

  lemma EntersEligible(S: State, S': State, c: nat, i: nat)
    requires Inv(S) && Step(S, S', c) && TrapEnds(S, S', c) && S'.cpus[c].cur == T(i)
    ensures Enters(S, S', c, i) && Eligible(S, S.cpus[c].cur, i)
  {
    assert CpuOk(S, c);
    EntersByPoll(S, S', c, i);
  }

  lemma EntersIdle(S: State, S': State, c: nat)
    requires Inv(S) && Step(S, S', c) && TrapEnds(S, S', c) && S'.cpus[c].cur.IdleOf?
    ensures GoesIdle(S, S', c)
  {
    assert CpuOk(S, c);
  }

  /** So the current task goes on when it is awake and no other task is eligible. */
  lemma CurrentGoesOn(run: seq<State>, c: nat, m: nat, n: nat, i: nat)
    requires IsRun(run) && Scanning(run, c, m, n) && Alone(run, c, m, n)
    requires n + 1 < |run| && TrapEnds(run[n], run[n + 1], c)
    requires run[m].cpus[c].cur == T(i) && i < |run[m].tasks| && !run[m].tasks[i].blocked
    requires forall j: nat :: Eligible(run[m], T(i), j) ==> j == i
    ensures run[n + 1].cpus[c].cur == T(i)
  {
    EntersFirstEligible(run, c, m, n);
    assert Eligible(run[m], T(i), i);
  }
}
