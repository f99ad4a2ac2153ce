/** How slab_alloc walks the list while other CPUs free into it (kernel/src/slab.c lines 69-117): the first
    slab with a free block serves the call, and a new one is made only after a full walk. Built on
    the steps of SlabReclaim. */
module SlabWalks {
  import opened Words
  import opened SlabReclaim
  import opened SlabAccounts

  // ---------------------------------------------------------------- one visit

  /** What the CPU leaves slab s with: one of its free blocks, now the caller's, and nothing else moved. */
  ghost predicate TakesOneOf(S: State, S': State, s: nat, b: nat) {
    && s < |S.slabs| == |S'.slabs| && b in S.slabs[s].free && (s, b) !in S.held
    && S'.held == S.held + {(s, b)} && S'.slabs[s].free == S.slabs[s].free - {b}
    && forall n {:trigger S'.slabs[n]} :: 0 <= n < |S.slabs| && n != s ==> S'.slabs[n] == S.slabs[n]
  }

  ghost predicate TakesSome(S: State, S': State, s: nat) {
    exists b: nat :: TakesOneOf(S, S', s, b)
  }

  /** A slab that has a free block when the allocating CPU holds it serves the call: the CPU takes
      exactly one block of it, and goes on neither to the next slab nor to the page layer. */
  lemma VisitTakes(S: State, S': State, c: nat, s: nat)
    requires Inv(S) && Step(S, S', c) && (S.cpus[c] == Visit(s) || S.cpus[c] == VisitNew(s))
    requires S.slabs[s].free != {}
    ensures S'.cpus == S.cpus[c := Unlock(s)] && TakesSome(S, S', s)
  {
    assert TakeBlock(S, S', c, s);
    var b: nat :| b in S.slabs[s].free && S' == SetPc(Taken(S, s, b), c, Unlock(s));
    assert !IsOut(S, s, b);
    assert TakesOneOf(S, S', s, b);
  }

  /** A full one is left as it is, for the next of the list if there is one. */
  lemma VisitPasses(S: State, S': State, c: nat, s: nat)
    requires Inv(S) && Step(S, S', c) && S.cpus[c] == Visit(s) && s < |S.slabs| && S.slabs[s].free == {}
    ensures |S'.slabs| == |S.slabs| && S'.held == S.held && S'.slabs[s].append == S.slabs[s].append
    ensures c < |S'.cpus| && match S.slabs[s].append
        case Some(n) => S'.cpus[c] == LockNext(s, n) && S'.slabs == S.slabs
        case None => S'.cpus[c] == AllocPage(0) && S'.slabs[s].lock == Open && S'.slabs[s].free == {}
  {
  }

  // ---------------------------------------------------------------- a whole walk

  /** In step j of the run CPU c holds slab s, finds no free block in it and goes on. */
  ghost predicate PassesFull(run: seq<State>, j: int, c: nat, s: nat) {
    && 0 <= j < |run| - 1 && c < |run[j].cpus| && c < |run[j + 1].cpus|
    && run[j].cpus[c] == Visit(s) && s < |run[j].slabs| && run[j].slabs[s].free == {}
    && run[j + 1].cpus[c] != Visit(s)
  }

  /** In one of the steps from m to n. */
  ghost predicate PassedFull(run: seq<State>, m: nat, n: nat, c: nat, s: nat) {
    exists j :: m <= j < n && PassesFull(run, j, c, s)
  }

  /** A call that CPU c began in step m is still under way in state n. */
  ghost predicate InCall(run: seq<State>, c: nat, m: nat, n: nat) {
    && m < n < |run| && c < |run[m].cpus| && run[m].cpus[c] == Idle
    && forall k {:trigger run[k]} :: m < k <= n ==> c < |run[k].cpus| && run[k].cpus[c] != Idle
  }

  /** While the CPU walks: the slabs it has still to come to are those below this bound. */
  function Pending(pc: Pc): Option<nat> {
    match pc
    case LockHead(h) => Some(h + 1)
    case Visit(s) => Some(s + 1)
    case LockNext(_, n) => Some(n + 1)
    case Release(_, n) => Some(n + 1)
    case Advance(_, n) => Some(n + 1)
    case AllocPage(_) => Some(0)
    case HoldPage(_) => Some(0)
    case _ => None
  }

  lemma StepKeepsOthers(S: State, S': State, c: nat)
    requires Step(S, S', c)
    ensures S'.owner == S.owner && |S'.units| == |S.units| && |S'.cpus| == |S.cpus|
    ensures S'.cpus == S.cpus[c := S'.cpus[c]]
  {
    if InAlloc(S.cpus[c]) { AllocKeepsOthers(S, S', c); }
  }

  lemma AllocKeepsOthers(S: State, S': State, c: nat)
    requires Step(S, S', c) && InAlloc(S.cpus[c])
    ensures S'.owner == S.owner && |S'.units| == |S.units| && |S'.cpus| == |S.cpus|
    ensures S'.cpus == S.cpus[c := S'.cpus[c]]
  {
  }

  /** The same slabs are in the list. */
  ghost predicate SameMembers(S: State, S': State) {
    && S'.head == S.head && |S'.slabs| == |S.slabs|
    && forall n {:trigger S'.slabs[n]} :: 0 <= n < |S.slabs| ==> S'.slabs[n].gone == S.slabs[n].gone
  }

  lemma FreeSameMembers(S: State, S': State, c: nat)
    requires Step(S, S', c) && !InAlloc(S.cpus[c]) && !S.cpus[c].Unlink?
    ensures SameMembers(S, S')
  {
  }

  lemma AllocSameMembers(S: State, S': State, c: nat)
    requires Step(S, S', c) && InAlloc(S.cpus[c]) && !S.cpus[c].Publish?
    ensures SameMembers(S, S') || (S.cpus[c].HoldPage? && c < |S'.cpus| && S'.cpus[c].Publish?)
  {
  }

  /** No slab joins the list but by the publication of a new one. */
  lemma NoneJoins(S: State, S': State, c: nat, s: nat)
    requires Inv(S) && Step(S, S', c) && !S.cpus[c].Publish? && Linked(S', s)
    ensures Linked(S, s)
  {
    StepKeepsOthers(S, S', c);
    if S.cpus[c].Unlink? {
      UnlinkSlabs(S, S', c);
    } else if S.cpus[c].HoldPage? && S'.cpus[c].Publish? {
      NewSlabSlabs(S, S', c);
    } else if InAlloc(S.cpus[c]) {
      AllocSameMembers(S, S', c);
    } else {
      FreeSameMembers(S, S', c);
    }
  }

  /** A slab that the CPU need not come to any more is one it just passed, or needed not before. */
  lemma PendingStep(S: State, S': State, c: nat, s: nat)
    requires Inv(S) && Step(S, S', c) && c < |S'.cpus| && Pending(S'.cpus[c]).Some?
    requires Linked(S, s) && Pending(S'.cpus[c]).value <= s
    ensures S.cpus[c] != Idle
    ensures || (Pending(S.cpus[c]).Some? && Pending(S.cpus[c]).value <= s)
            || (S.cpus[c] == Visit(s) && S.slabs[s].free == {} && S'.cpus[c] != Visit(s))
  {
    if S.cpus[c].Visit? {
      PendingVisit(S, S', c, s);
    } else if InAlloc(S.cpus[c]) {
      PendingAlloc(S, S', c, s);
    }
  }

  lemma PendingAlloc(S: State, S': State, c: nat, s: nat)
    requires Inv(S) && Step(S, S', c) && c < |S'.cpus| && InAlloc(S.cpus[c]) && !S.cpus[c].Visit?
    requires Linked(S, s) && Pending(S'.cpus[c]).Some? && Pending(S'.cpus[c]).value <= s
    ensures Pending(S.cpus[c]).Some? && Pending(S.cpus[c]).value <= s
  {
    assert PcOk(S, c);
  }

  lemma PendingVisit(S: State, S': State, c: nat, s: nat)
    requires Inv(S) && Step(S, S', c) && c < |S'.cpus| && S.cpus[c].Visit? && Pending(S'.cpus[c]).Some?
    requires Linked(S, s) && Pending(S'.cpus[c]).value <= s
    ensures S.cpus[c].s < s || (S.cpus[c] == Visit(s) && S.slabs[s].free == {} && S'.cpus[c] != Visit(s))
  {
    assert PcOk(S, c);
    assert SlabOk(S, S.cpus[c].s) && AppendOk(S, S.cpus[c].s);
  }

  lemma PendingBefore(run: seq<State>, c: nat, n: nat, s: nat)
    requires IsRun(run) && 0 < n < |run| && c < |run[n - 1].cpus| && c < |run[n].cpus|
    requires Pending(run[n].cpus[c]).Some? && Linked(run[n], s) && Pending(run[n].cpus[c]).value <= s
    ensures Linked(run[n - 1], s) && run[n - 1].cpus[c] != Idle
    ensures || (Pending(run[n - 1].cpus[c]).Some? && Pending(run[n - 1].cpus[c]).value <= s)
            || PassesFull(run, n - 1, c, s)
  {
    var S, S' := run[n - 1], run[n];
    RunInv(run, n - 1);
    assert StepAt(run, n);
    var d: nat :| Step(S, S', d);
    StepKeepsOthers(S, S', d);
    assert PcOk(S, c) && PcOk(S, d);
    NoneJoins(S, S', d, s);
    if d == c { PendingStep(S, S', c, s); }
  }

  /** Every slab now in the list that is not ahead of the walk was passed full in this call. */
  lemma {:induction false} BehindWasPassed(run: seq<State>, c: nat, m: nat, n: nat, s: nat)
    requires IsRun(run) && InCall(run, c, m, n) && Pending(run[n].cpus[c]).Some?
    requires Linked(run[n], s) && Pending(run[n].cpus[c]).value <= s
    ensures PassedFull(run, m, n, c, s)
    decreases n
  {
    assert n - 1 > m ==> c < |run[n - 1].cpus|;
    PendingBefore(run, c, n, s);
    if !PassesFull(run, n - 1, c, s) {
      BehindWasPassed(run, c, m, n - 1, s);
      var j :| m <= j < n - 1 && PassesFull(run, j, c, s);
    }
  }

  /** A call takes a new page only when every slab of the list, each one there now having been there since
      the call began, was held in this call and had no free block then. */
  lemma NewPageOnlyAfterFullWalk(run: seq<State>, c: nat, m: nat, n: nat, s: nat)
    requires IsRun(run) && InCall(run, c, m, n) && (run[n].cpus[c].AllocPage? || run[n].cpus[c].HoldPage?)
    requires Linked(run[n], s)
    ensures PassedFull(run, m, n, c, s)
  {
    BehindWasPassed(run, c, m, n, s);
  }

  /** The slab that serves a call is the first with a free block: every slab of the list before it was
      held in this call and had none then. */
  lemma FirstWithRoomServes(run: seq<State>, c: nat, m: nat, n: nat, s: nat, t: nat)
    requires IsRun(run) && InCall(run, c, m, n) && n + 1 < |run| && run[n].cpus[c] == Visit(s)
    requires Step(run[n], run[n + 1], c) && run[n + 1].cpus[c] == Unlock(s)
    requires Linked(run[n], t) && s < t
    ensures PassedFull(run, m, n, c, t)
    ensures TakesSome(run[n], run[n + 1], s)
  {
    BehindWasPassed(run, c, m, n, t);
    RunInv(run, n);
    if run[n].slabs[s].free == {} {
      VisitPasses(run[n], run[n + 1], c, s);
      assert false;
    }
    VisitTakes(run[n], run[n + 1], c, s);
  }

  // ---------------------------------------------------------------- a call without a block

  /** In state j CPU c holds the lock of unit u for a page of its own. */
  ghost predicate TriedAt(run: seq<State>, j: int, c: nat, u: nat) {
    0 <= j < |run| && c < |run[j].cpus| && run[j].cpus[c] == HoldPage(u)
  }

  ghost predicate Tried(run: seq<State>, m: nat, n: nat, c: nat, u: nat) {
    exists j :: m < j <= n && TriedAt(run, j, c, u)
  }

  /** The units before the one at which the CPU is have been tried. */
  lemma {:induction false} UnitsTried(run: seq<State>, c: nat, m: nat, n: nat, u: nat)
    requires IsRun(run) && InCall(run, c, m, n) && (run[n].cpus[c].AllocPage? || run[n].cpus[c].HoldPage?)
    requires u < run[n].cpus[c].u || run[n].cpus[c] == HoldPage(u)
    ensures Tried(run, m, n, c, u)
    decreases n
  {
    if run[n].cpus[c] == HoldPage(u) {
      assert TriedAt(run, n, c, u);
    } else {
      var S, S' := run[n - 1], run[n];
      assert StepAt(run, n);
      var d: nat :| Step(S, S', d);
      StepKeepsOthers(S, S', d);
      UnitsTried(run, c, m, n - 1, u);
    }
  }

  lemma NewSlabHasRoom(S: State, c: nat)
    requires AccountInv(S) && c < |S.cpus| && S.cpus[c].VisitNew?
    ensures S.cpus[c].s < |S.slabs| && S.slabs[S.cpus[c].s].free != {}
  {
    assert PcOk(S, c);
    assert FreeSlabOk(S, S.cpus[c].s) && SlabOk(S, S.cpus[c].s);
  }

  lemma EndsAtLastUnit(S: State, S': State, c: nat)
    requires AccountInv(S) && Next(S, S') && c < |S.cpus| && c < |S'.cpus|
    requires InAlloc(S.cpus[c]) && S'.cpus[c] == Idle
    ensures S.cpus[c].HoldPage? && S.cpus[c].u + 1 == |S.units|
  {
    var d: nat :| Step(S, S', d);
    StepKeepsOthers(S, S', d);
    assert PcOk(S, c);
    if S.cpus[c].VisitNew? { NewSlabHasRoom(S, c); }
  }

  /** A call that ends without a block, after its walk, has held the lock of every unit of the page layer
      and found no page. */
  lemma GivesUpAfterAllUnits(run: seq<State>, c: nat, m: nat, n: nat, u: nat)
    requires IsRun(run) && InCall(run, c, m, n) && n + 1 < |run| && c < |run[n + 1].cpus|
    requires InAlloc(run[n].cpus[c]) && run[n + 1].cpus[c] == Idle && u < |run[n].units|
    ensures Tried(run, m, n, c, u)
  {
    RunAccounted(run, n);
    assert StepAt(run, n + 1);
    EndsAtLastUnit(run[n], run[n + 1], c);
    UnitsTried(run, c, m, n, u);
  }

  /** How far a call has come among the page locks; the walk is before them, everything else behind. */
  function PageRank(pc: Pc, units: nat): nat {
    match pc
    case LockHead(_) => 0
    case Visit(_) => 0
    case LockNext(_, _) => 0
    case Release(_, _) => 0
    case Advance(_, _) => 0
    case AllocPage(u) => 4 * u + 1
    case HoldPage(u) => 4 * u + 2
    case OtherPage(u) => 4 * u + 3
    case HoldOther(u) => 4 * u + 4
    case _ => 4 * units + 1
  }

  ghost predicate RankUp(S: State, S': State, c: nat) {
    var holds := c < |S.cpus| && c < |S'.cpus| && |S'.units| == |S.units| &&
      PageRank(S.cpus[c], |S.units|) <= PageRank(S'.cpus[c], |S'.units|);
    holds
  }

  lemma PageRankAt(run: seq<State>, c: nat, n: nat)
    requires IsRun(run) && 0 < n < |run| && c < |run[n - 1].cpus| && c < |run[n].cpus|
    requires run[n - 1].cpus[c] != Idle && run[n].cpus[c] != Idle
    ensures RankUp(run[n - 1], run[n], c)
  {
    var S, S' := run[n - 1], run[n];
    RunInv(run, n - 1);
    assert PcOk(S, c);
    assert StepAt(run, n);
    var d: nat :| Step(S, S', d);
    StepKeepsOthers(S, S', d);
  }

  lemma {:induction false} PageRankGrows(run: seq<State>, c: nat, m: nat, k: nat, n: nat)
    requires IsRun(run) && InCall(run, c, m, n) && m < k <= n
    ensures |run[k].units| == |run[n].units|
    ensures PageRank(run[k].cpus[c], |run[n].units|) <= PageRank(run[n].cpus[c], |run[n].units|)
    decreases n
  {
    if k < n {
      PageRankGrows(run, c, m, k, n - 1);
      PageRankAt(run, c, n);
    }
  }

  /** No unit is tried twice in one call: once its lock is dropped, only later units follow. */
  lemma NoUnitTwice(run: seq<State>, c: nat, m: nat, k: nat, i: nat, n: nat, u: nat)
    requires IsRun(run) && InCall(run, c, m, n) && m < k <= i <= n
    requires run[k].cpus[c] == run[n].cpus[c] && (run[n].cpus[c] == HoldPage(u) || run[n].cpus[c] == HoldOther(u))
    ensures run[i].cpus[c] == run[n].cpus[c]
  {
    PageRankGrows(run, c, m, k, i);
    PageRankGrows(run, c, m, i, n);
    RunInv(run, n);
    assert PcOk(run[n], c);
  }
}
