/** Where the blocks of a list's slabs are while CPUs allocate and free at the same time, and which
    entirely free slabs stay in the list (kernel/src/slab.c). Built on the steps of SlabReclaim. */
module SlabAccounts {
  import opened Words
  import opened SlabReclaim

  /** The CPU is on its way from the test for entirely free to unlinking slab s. */
  predicate Checking(pc: Pc, s: nat) {
    match pc
    case TestFull(x) => s == x
    case ReadHead(x) => s == x
    case ReadAppend(x, _) => s == x
    case Walk(x, _, _) => s == x
    case TryPrev(x, _) => s == x
    case Unlink(x, _) => s == x
    case _ => false
  }

  /** The CPU has made slab s and taken no block of it yet. */
  predicate Making(pc: Pc, s: nat) {
    pc == Publish(s) || pc == LockNew(s) || pc == VisitNew(s)
  }

  /** The CPU that holds slab s is deciding whether to unlink it. */
  ghost predicate UnderCheck(S: State, s: nat) {
    && s < |S.slabs| && S.slabs[s].lock.HeldBy? && S.slabs[s].lock.cpu < |S.cpus|
    && Checking(S.cpus[S.slabs[s].lock.cpu], s)
  }

  predicate WhollyFree(S: State, s: nat) {
    s < |S.slabs| && S.slabs[s].free == S.slabs[s].blocks
  }

  /** An entirely free slab of the list is accounted for: it was spared, is being decided on, or is
      new. */
  ghost predicate FreeSlabOk(S: State, s: nat) {
    s < |S.slabs| && S.owner < |S.cpus| &&
    var making := Making(S.cpus[S.owner], s);
    && (s in S.spared ==> Linked(S, s) && WhollyFree(S, s) && !UnderCheck(S, s))
    && (making ==> WhollyFree(S, s))
    && (Linked(S, s) && WhollyFree(S, s) ==> s in S.spared || UnderCheck(S, s) || making)
  }

  ghost predicate Accounted(S: State) {
    var holds := S.owner < |S.cpus|
      && (forall s {:trigger s in S.spared} :: s in S.spared ==> s < |S.slabs|)
      && (forall s {:trigger FreeSlabOk(S, s)} :: 0 <= s < |S.slabs| ==> FreeSlabOk(S, s));
    holds
  }

  /** A step of CPU c that, slab x apart, moves no block, changes no membership of the list and
      begins or ends no decision about a slab. */
  ghost predicate PlainBut(S: State, S': State, c: nat, x: nat) {
    && c < |S.cpus| && |S'.cpus| == |S.cpus| && |S.slabs| <= |S'.slabs| && S'.owner == S.owner
    && (|S'.slabs| > |S.slabs| ==> x == |S.slabs| && |S'.slabs| == |S.slabs| + 1)
    && (forall d {:trigger S'.cpus[d]} :: 0 <= d < |S.cpus| && d != c ==> S'.cpus[d] == S.cpus[d])
    && (forall n {:trigger S'.slabs[n]} :: 0 <= n < |S.slabs| && n != x ==> SameSlab(S.slabs[n], S'.slabs[n], c))
    && (forall n {:trigger n in S'.spared} :: n != x ==> (n in S'.spared <==> n in S.spared))
    && (forall n: nat {:trigger Linked(S', n)} :: n != x ==> (Linked(S', n) <==> Linked(S, n)))
    && (forall n {:trigger Checking(S'.cpus[c], n)} :: n != x ==>
          (Checking(S'.cpus[c], n) <==> Checking(S.cpus[c], n)))
    && (forall n {:trigger Making(S'.cpus[c], n)} :: n != x ==> (Making(S'.cpus[c], n) <==> Making(S.cpus[c], n)))
  }

  predicate SameSlab(a: Slab, b: Slab, c: nat) {
    a.free == b.free && a.blocks == b.blocks && (a.lock == b.lock || (Mine(a.lock, c) && Mine(b.lock, c)))
  }

  predicate Mine(l: Lock, c: nat) {
    l == Open || l == HeldBy(c)
  }

  /** Whether slab s is being decided on changes only with the position of the CPU that holds it. */
  lemma SameCheck(S: State, S': State, c: nat, s: nat)
    requires c < |S.cpus| && |S'.cpus| == |S.cpus| && s < |S.slabs| && s < |S'.slabs|
    requires forall d {:trigger S'.cpus[d]} :: 0 <= d < |S.cpus| && d != c ==> S'.cpus[d] == S.cpus[d]
    requires SameSlab(S.slabs[s], S'.slabs[s], c)
    requires Holds(S.cpus[c], s) <==> S.slabs[s].lock == HeldBy(c)
    requires Holds(S'.cpus[c], s) <==> S'.slabs[s].lock == HeldBy(c)
    requires Checking(S'.cpus[c], s) <==> Checking(S.cpus[c], s)
    ensures UnderCheck(S', s) <==> UnderCheck(S, s)
  {
    assert Checking(S.cpus[c], s) ==> Holds(S.cpus[c], s);
    assert Checking(S'.cpus[c], s) ==> Holds(S'.cpus[c], s);
  }

  lemma PlainKeeps(S: State, S': State, c: nat, x: nat)
    requires Accounted(S) && PlainBut(S, S', c, x) && LocksOk(S) && LocksOk(S')
    requires if x < |S'.slabs| then FreeSlabOk(S', x) else x !in S'.spared
    ensures Accounted(S')
  {
    MyLocks(S, c);
    MyLocks(S', c);
    forall s | 0 <= s < |S'.slabs| ensures FreeSlabOk(S', s) {
      if s != x {
        assert FreeSlabOk(S, s);
        SameCheck(S, S', c, s);
      }
    }
    assert forall s {:trigger s in S'.spared} :: s in S'.spared ==> s < |S'.slabs|;
  }

  /** A step that is plain for every slab. */
  ghost predicate Plain(S: State, S': State, c: nat) {
    PlainBut(S, S', c, |S.slabs|) && |S'.slabs| == |S.slabs| && S'.spared == S.spared
  }

  lemma TakeUnitPlain(S: State, S': State, c: nat)
    requires Inv(S) && Step(S, S', c) && WantsUnit(S.cpus[c])
    ensures Plain(S, S', c)
  {
  }

  lemma DropUnitPlain(S: State, S': State, c: nat)
    requires Inv(S) && Step(S, S', c) && (S.cpus[c].HoldGivePage? || S.cpus[c].HoldOther? || S.cpus[c].HoldPage?)
    requires c < |S'.cpus| && !S'.cpus[c].Publish?
    ensures Plain(S, S', c)
  {
  }

  lemma StartPlain(S: State, S': State, c: nat)
    requires Inv(S) && Step(S, S', c) && S.cpus[c].Idle?
    ensures Plain(S, S', c)
  {
  }

  lemma SpinPlain(S: State, S': State, c: nat)
    requires Inv(S) && Step(S, S', c) && (S.cpus[c].LockHead? || S.cpus[c].LockNext? || S.cpus[c].LockNew?)
    ensures Plain(S, S', c)
  {
    MyLocks(S, c);
  }

  lemma VisitStepPlain(S: State, S': State, c: nat)
    requires Inv(S) && Step(S, S', c) && S.cpus[c].Visit? && !S'.cpus[c].Unlock?
    ensures Plain(S, S', c)
  {
    MyLocks(S, c);
  }

  lemma UnlockPlain(S: State, S': State, c: nat)
    requires Inv(S) && Step(S, S', c) && (S.cpus[c].Release? || S.cpus[c].Unlock? || S.cpus[c].UnlockPrev?)
    ensures Plain(S, S', c)
  {
    assert PcOk(S, c);
    MyLocks(S, c);
  }

  lemma WalkStepPlain(S: State, S': State, c: nat)
    requires Inv(S) && Step(S, S', c) && S.cpus[c].Walk?
    ensures Plain(S, S', c)
  {
    assert PcOk(S, c);
  }

  lemma TestStep(S: State, S': State, c: nat)
    requires Inv(S) && Accounted(S) && Step(S, S', c) && S.cpus[c].TestFull? && Inv(S')
    ensures Accounted(S')
  {
    assert PcOk(S, c);
    MyLocks(S, c);
    var s := S.cpus[c].s;
    assert FreeSlabOk(S, s) && SlabOk(S, s);
    SameCount(S.slabs[s].free, S.slabs[s].blocks);
    PlainKeeps(S, S', c, s);
  }

  lemma GoOnPlain(S: State, S': State, c: nat)
    requires Inv(S) && Step(S, S', c)
    requires S.cpus[c].Advance? || S.cpus[c].ReadHead? || S.cpus[c].ReadAppend? || S.cpus[c].TryPrev?
    requires c < |S'.cpus| && !S'.cpus[c].Idle?
    ensures Plain(S, S', c)
  {
    assert PcOk(S, c);
  }

  lemma UnlinkAccounted(S: State, S': State, c: nat)
    requires Inv(S) && Accounted(S) && Step(S, S', c) && S.cpus[c].Unlink? && Inv(S')
    ensures Accounted(S')
  {
    assert PcOk(S, c);
    MyLocks(S, c);
    UnlinkSlabs(S, S', c);
    var s := S.cpus[c].s;
    assert FreeSlabOk(S, s);
    PlainKeeps(S, S', c, s);
  }

  lemma ReturnAccounted(S: State, S': State, c: nat)
    requires Inv(S) && Accounted(S) && Step(S, S', c) && S.cpus[c].LockSlab? && Inv(S')
    ensures Accounted(S')
  {
    assert PcOk(S, c);
    MyLocks(S, c);
    var s := S.cpus[c].s;
    assert FreeSlabOk(S, s) && SlabOk(S, s);
    if S' != S { PlainKeeps(S, S', c, s); }
  }

  lemma PublishAccounted(S: State, S': State, c: nat)
    requires Inv(S) && Accounted(S) && Step(S, S', c) && S.cpus[c].Publish? && Inv(S')
    ensures Accounted(S')
  {
    assert PcOk(S, c);
    var s := S.cpus[c].s;
    assert FreeSlabOk(S, s);
    forall m: nat {:trigger Linked(S', m)} {:trigger Linked(S, m)} | m != s ensures Linked(S', m) <==> Linked(S, m) {
      assert S.cpus[S.owner] != Publish(m);
    }
    PlainKeeps(S, S', c, s);
  }

  /** The entirely free slabs stay accounted for, whatever any CPU does next. */
  lemma StepKeepsAccounts(S: State, S': State, c: nat)
    requires Inv(S) && Accounted(S) && Step(S, S', c)
    ensures Accounted(S')
  {
    StepKeepsInv(S, S', c);
    match S.cpus[c] {
      case TestFull(_) => TestStep(S, S', c);
      case Unlink(_, _) => UnlinkAccounted(S, S', c);
      case LockSlab(_, _) => ReturnAccounted(S, S', c);
      case Publish(_) => PublishAccounted(S, S', c);
      case HoldPage(_) => MakeOrGoOn(S, S', c);
      case ReadHead(_) => SpareOrGoOn(S, S', c);
      case TryPrev(_, _) => SpareOrGoOn(S, S', c);
      case Visit(_) => VisitAccounted(S, S', c);
      case VisitNew(_) => VisitAccounted(S, S', c);
      case _ => PlainAccounted(S, S', c);
    }
  }

  lemma MakeOrGoOn(S: State, S': State, c: nat)
    requires Inv(S) && Accounted(S) && Step(S, S', c) && S.cpus[c].HoldPage? && Inv(S')
    ensures Accounted(S')
  {
    if S'.cpus[c].Publish? {
      assert PcOk(S, c);
      NewSlabSlabs(S, S', c);
      PlainKeeps(S, S', c, |S.slabs|);
    } else {
      DropUnitPlain(S, S', c);
      PlainKeeps(S, S', c, |S.slabs|);
    }
  }

  lemma SpareOrGoOn(S: State, S': State, c: nat)
    requires Inv(S) && Accounted(S) && Step(S, S', c) && (S.cpus[c].ReadHead? || S.cpus[c].TryPrev?) && Inv(S')
    ensures Accounted(S')
  {
    if S'.cpus[c].Idle? {
      assert PcOk(S, c);
      MyLocks(S, c);
      assert FreeSlabOk(S, S.cpus[c].s);
      PlainKeeps(S, S', c, S.cpus[c].s);
    } else {
      GoOnPlain(S, S', c);
      PlainKeeps(S, S', c, |S.slabs|);
    }
  }

  lemma VisitAccounted(S: State, S': State, c: nat)
    requires Inv(S) && Accounted(S) && Step(S, S', c) && (S.cpus[c].Visit? || S.cpus[c].VisitNew?) && Inv(S')
    ensures Accounted(S')
  {
    var s := S.cpus[c].s;
    assert PcOk(S, c) && FreeSlabOk(S, s) && SlabOk(S, s);
    if S.slabs[s].free != {} {
      MyLocks(S, c);
      PlainKeeps(S, S', c, s);
    } else {
      VisitStepPlain(S, S', c);
      PlainKeeps(S, S', c, |S.slabs|);
    }
  }

  lemma PlainAccounted(S: State, S': State, c: nat)
    requires Inv(S) && Accounted(S) && Step(S, S', c) && Inv(S')
    requires var pc := S.cpus[c];
      && !pc.TestFull? && !pc.Unlink? && !pc.LockSlab? && !pc.Publish? && !pc.HoldPage? && !pc.ReadHead?
      && !pc.TryPrev? && !pc.Visit? && !pc.VisitNew?
    ensures Accounted(S')
  {
    match S.cpus[c] {
      case Idle => StartPlain(S, S', c);
      case Walk(_, _, _) => WalkStepPlain(S, S', c);
      case ReadAppend(_, _) => GoOnPlain(S, S', c);
      case Unlock(_) => UnlockPlain(S, S', c);
      case UnlockPrev(_) => UnlockPlain(S, S', c);
      case LockHead(_) => SpinPlain(S, S', c);
      case LockNext(_, _) => SpinPlain(S, S', c);
      case Release(_, _) => UnlockPlain(S, S', c);
      case Advance(_, _) => GoOnPlain(S, S', c);
      case LockNew(_) => SpinPlain(S, S', c);
      case HoldGivePage(_, _) => DropUnitPlain(S, S', c);
      case HoldOther(_) => DropUnitPlain(S, S', c);
      case _ => TakeUnitPlain(S, S', c);
    }
    PlainKeeps(S, S', c, |S.slabs|);
  }

  // ---------------------------------------------------------------- no block is lost

  /** Some CPU is about to put block b back into slab s. */
  ghost predicate Returning(S: State, s: nat, b: nat) {
    exists c :: 0 <= c < |S.cpus| && S.cpus[c] == LockSlab(s, b)
  }

  ghost predicate NoBlockLost(S: State) {
    var holds :=
      forall s: nat, b: nat {:trigger InUse(S, s, b)} :: InUse(S, s, b) ==> (s, b) in S.held || Returning(S, s, b);
    holds
  }

  predicate InUse(S: State, s: nat, b: nat) {
    s < |S.slabs| && b in S.slabs[s].blocks && b !in S.slabs[s].free
  }

  /** A step of CPU c that leaves every block where it is. */
  ghost predicate SameBlocks(S: State, S': State, c: nat) {
    && c < |S.cpus| && |S'.cpus| == |S.cpus| && S'.held == S.held
    && (forall d {:trigger S'.cpus[d]} :: 0 <= d < |S.cpus| && d != c ==> S'.cpus[d] == S.cpus[d])
    && (S.cpus[c].LockSlab? ==> S'.cpus[c] == S.cpus[c])
    && (forall s: nat, b: nat {:trigger InUse(S', s, b)} :: InUse(S', s, b) ==> InUse(S, s, b))
  }

  lemma SameBlocksKeep(S: State, S': State, c: nat)
    requires NoBlockLost(S) && SameBlocks(S, S', c)
    ensures NoBlockLost(S')
  {
    forall s: nat, b: nat | InUse(S', s, b) ensures (s, b) in S'.held || Returning(S', s, b) {
      if (s, b) !in S.held {
        var d :| 0 <= d < |S.cpus| && S.cpus[d] == LockSlab(s, b);
        assert S'.cpus[d] == LockSlab(s, b);
      }
    }
  }

  lemma AllocSameBlocks(S: State, S': State, c: nat)
    requires Inv(S) && Step(S, S', c) && InAlloc(S.cpus[c]) && !S'.cpus[c].Unlock?
    ensures SameBlocks(S, S', c)
  {
    assert PcOk(S, c);
  }

  lemma FreeSameBlocks(S: State, S': State, c: nat)
    requires Inv(S) && Step(S, S', c) && !InAlloc(S.cpus[c]) && !S.cpus[c].Idle? && !S.cpus[c].LockSlab?
    requires !S.cpus[c].ReadHead? && !S.cpus[c].TryPrev?
    ensures SameBlocks(S, S', c)
  {
    assert PcOk(S, c);
  }

  lemma SpareSameBlocks(S: State, S': State, c: nat)
    requires Inv(S) && Step(S, S', c) && (S.cpus[c].ReadHead? || S.cpus[c].TryPrev?)
    ensures SameBlocks(S, S', c)
  {
    assert PcOk(S, c);
  }

  /** A step after which the callers or CPU c account for block b of slab s, and nothing is lost
      besides. */
  lemma MovedBlockKeeps(S: State, S': State, c: nat, s: nat, b: nat)
    requires NoBlockLost(S) && c < |S.cpus| && |S'.cpus| == |S.cpus|
    requires forall d {:trigger S'.cpus[d]} :: 0 <= d < |S.cpus| && d != c ==> S'.cpus[d] == S.cpus[d]
    requires S.cpus[c].LockSlab? ==> S.cpus[c] == LockSlab(s, b)
    requires forall x: nat, y: nat {:trigger (x, y) in S'.held} ::
               (x, y) != (s, b) && (x, y) in S.held ==> (x, y) in S'.held
    requires forall x: nat, y: nat {:trigger InUse(S', x, y)} ::
               InUse(S', x, y) && (x, y) != (s, b) ==> InUse(S, x, y)
    requires InUse(S', s, b) ==> (s, b) in S'.held || Returning(S', s, b)
    ensures NoBlockLost(S')
  {
    forall x: nat, y: nat | InUse(S', x, y) && (x, y) != (s, b) ensures (x, y) in S'.held || Returning(S', x, y) {
      if (x, y) !in S.held {
        var d :| 0 <= d < |S.cpus| && S.cpus[d] == LockSlab(x, y);
        assert S'.cpus[d] == LockSlab(x, y);
      }
    }
  }

  lemma TakeLosesNone(S: State, S': State, c: nat, s: nat)
    requires NoBlockLost(S) && c < |S.cpus| && s < |S.slabs| && TakeBlock(S, S', c, s) && !S.cpus[c].LockSlab?
    ensures NoBlockLost(S')
  {
    var b: nat :| b in S.slabs[s].free && S' == SetPc(Taken(S, s, b), c, Unlock(s));
    MovedBlockKeeps(S, S', c, s, b);
  }

  lemma StartLosesNone(S: State, S': State, c: nat)
    requires NoBlockLost(S) && Step(S, S', c) && S.cpus[c].Idle?
    ensures NoBlockLost(S')
  {
    if S'.cpus[c].LockSlab? {
      var s, b := S'.cpus[c].s, S'.cpus[c].b;
      assert S' == SetPc(S.(held := S.held - {(s, b)}), c, LockSlab(s, b));
      assert Returning(S', s, b);
      MovedBlockKeeps(S, S', c, s, b);
    } else {
      SameBlocksKeep(S, S', c);
    }
  }

  lemma StepLosesNoBlock(S: State, S': State, c: nat)
    requires Inv(S) && NoBlockLost(S) && Step(S, S', c)
    ensures NoBlockLost(S')
  {
    if S.cpus[c].Idle? {
      StartLosesNone(S, S', c);
    } else if S.cpus[c].LockSlab? {
      if S' != S { MovedBlockKeeps(S, S', c, S.cpus[c].s, S.cpus[c].b); }
    } else if InAlloc(S.cpus[c]) && S'.cpus[c].Unlock? {
      assert S.cpus[c].Visit? || S.cpus[c].VisitNew?;
      TakeLosesNone(S, S', c, S.cpus[c].s);
    } else {
      if InAlloc(S.cpus[c]) { AllocSameBlocks(S, S', c); }
      else if S.cpus[c].ReadHead? || S.cpus[c].TryPrev? { SpareSameBlocks(S, S', c); }
      else { FreeSameBlocks(S, S', c); }
      SameBlocksKeep(S, S', c);
    }
  }

  // ---------------------------------------------------------------- over all runs

  ghost predicate AccountInv(S: State) {
    var holds := Inv(S) && Accounted(S) && NoBlockLost(S);
    holds
  }

  lemma NextAccounted(S: State, S': State)
    requires AccountInv(S) && Next(S, S')
    ensures AccountInv(S')
  {
    var c: nat :| Step(S, S', c);
    StepKeepsInv(S, S', c);
    StepKeepsAccounts(S, S', c);
    StepLosesNoBlock(S, S', c);
  }

  lemma {:induction false} RunAccounted(run: seq<State>, i: nat)
    requires IsRun(run) && i < |run|
    ensures AccountInv(run[i])
  {
    if i == 0 {
      InitInv(run[0]);
    } else {
      RunAccounted(run, i - 1);
      assert StepAt(run, i);
      NextAccounted(run[i - 1], run[i]);
    }
  }

  /** Every block of every slab is at every moment in exactly one place: in the slab's free list, in
      a caller's hands, or with one CPU that is about to put it back. */
  lemma BlocksConserved(run: seq<State>, i: nat, s: nat, b: nat)
    requires IsRun(run) && i < |run| && s < |run[i].slabs|
    ensures b in run[i].slabs[s].blocks <==>
            b in run[i].slabs[s].free || (s, b) in run[i].held || Returning(run[i], s, b)
    ensures !(b in run[i].slabs[s].free && (s, b) in run[i].held)
    ensures !(b in run[i].slabs[s].free && Returning(run[i], s, b))
    ensures !((s, b) in run[i].held && Returning(run[i], s, b))
    ensures forall c, d :: 0 <= c < d < |run[i].cpus| && run[i].cpus[c] == LockSlab(s, b) ==>
              run[i].cpus[d] != LockSlab(s, b)
  {
    RunAccounted(run, i);
    var S := run[i];
    assert SlabOk(S, s);
    assert InUse(S, s, b) ==> (s, b) in S.held || Returning(S, s, b);
    assert (s, b) in S.held ==> IsOut(S, s, b);
    if Returning(S, s, b) {
      var c :| 0 <= c < |S.cpus| && S.cpus[c] == LockSlab(s, b);
      assert PcOk(S, c);
    }
  }

  /** Which slabs of the list are entirely free, in every reachable state: those that were spared,
      those whose holder is about to find that out or is on its way to unlinking them, and the one
      just made, which is the head. */
  lemma EntirelyFreeExactly(run: seq<State>, i: nat, s: nat)
    requires IsRun(run) && i < |run| && Linked(run[i], s)
    ensures var S := run[i];
      S.owner < |S.cpus| && s < |S.slabs| &&
      (WhollyFree(S, s) <==>
         || s in S.spared
         || (UnderCheck(S, s) && (S.cpus[S.slabs[s].lock.cpu].TestFull? ==> |S.slabs[s].free| == |S.slabs[s].blocks|))
         || Making(S.cpus[S.owner], s))
      && (Making(S.cpus[S.owner], s) ==> S.head == Some(s))
  {
    RunAccounted(run, i);
    var S := run[i];
    assert FreeSlabOk(S, s) && SlabOk(S, s) && PcOk(S, S.owner);
    SameCount(S.slabs[s].free, S.slabs[s].blocks);
    if UnderCheck(S, s) { assert PcOk(S, S.slabs[s].lock.cpu); }
  }

  ghost predicate Quiescent(S: State) {
    forall c {:trigger S.cpus[c]} :: 0 <= c < |S.cpus| ==> S.cpus[c].Idle?
  }

  /** No slab behind the head is entirely free. */
  ghost predicate Tidy(S: State) {
    forall s: nat {:trigger Linked(S, s)} :: Linked(S, s) && S.head != Some(s) ==> !WhollyFree(S, s)
  }

  /** When no call is under way, every block is free or in a caller's hands, the entirely free slabs
      of the list are the spared ones, and those behind the head are what is left over. */
  lemma QuiescentLeftovers(run: seq<State>, i: nat)
    requires IsRun(run) && i < |run| && Quiescent(run[i])
    ensures var S := run[i];
      && (forall s: nat {:trigger Linked(S, s)} :: Linked(S, s) ==> (WhollyFree(S, s) <==> s in S.spared))
      && (forall s: nat, b: nat {:trigger InUse(S, s, b)} :: InUse(S, s, b) <==> (s, b) in S.held)
      && (Tidy(S) <==> forall s {:trigger s in S.spared} :: s in S.spared ==> S.head == Some(s))
  {
    RunAccounted(run, i);
    var S := run[i];
    forall s: nat | Linked(S, s) ensures WhollyFree(S, s) <==> s in S.spared {
      EntirelyFreeExactly(run, i, s);
    }
    forall s: nat, b: nat ensures InUse(S, s, b) <==> (s, b) in S.held {
      assert (s, b) in S.held ==> IsOut(S, s, b);
    }
    forall s | s in S.spared ensures Linked(S, s) { assert FreeSlabOk(S, s); }
  }

  // ---------------------------------------------------------------- calls that do not overlap

  /** At most one CPU is inside a call. */
  ghost predicate OneBusy(S: State) {
    forall c, d {:trigger S.cpus[c], S.cpus[d]} :: 0 <= c < d < |S.cpus| ==> S.cpus[c].Idle? || S.cpus[d].Idle?
  }

  ghost predicate OneCallAtATime(run: seq<State>) {
    forall i {:trigger run[i]} :: 0 <= i < |run| ==> OneBusy(run[i])
  }

  /** The allocating CPU has found no free block in the head and still works on the request. */
  predicate PastHead(pc: Pc, head: Option<nat>) {
    || pc.LockNext? || pc.Release? || pc.Advance? || pc.AllocPage? || pc.HoldPage? || pc.Publish?
    || (pc.Visit? && head != Some(pc.s))
  }

  /** What recover_slab has read of the list is still in it. */
  ghost predicate TrailLinked(S: State, pc: Pc) {
    match pc
    case ReadAppend(_, prev) => Linked(S, prev)
    case Walk(_, prev, cur) => Linked(S, prev) && cur.Some? && Linked(S, cur.value)
    case TryPrev(_, prev) => Linked(S, prev)
    case _ => true
  }

  ghost predicate Neat(S: State) {
    var holds := S.owner < |S.cpus|
      && (forall s {:trigger s in S.spared} :: s in S.spared ==>
            S.head == Some(s) && !PastHead(S.cpus[S.owner], S.head))
      && (forall c {:trigger TrailLinked(S, S.cpus[c])} :: 0 <= c < |S.cpus| ==> TrailLinked(S, S.cpus[c]));
    holds
  }

  /** With no other call under way, recover_slab finds its predecessor unlocked. */
  lemma TryLockSucceeds(S: State, c: nat)
    requires Inv(S) && Neat(S) && OneBusy(S) && c < |S.cpus| && S.cpus[c].TryPrev?
    ensures S.cpus[c].prev < |S.slabs| && S.slabs[S.cpus[c].prev].lock == Open
  {
    var prev := S.cpus[c].prev;
    assert TrailLinked(S, S.cpus[c]) && PcOk(S, c) && SlabOk(S, prev);
    var l := S.slabs[prev].lock;
    assert l.HeldBy? ==> l.cpu < |S.cpus| && Holds(S.cpus[l.cpu], prev);
  }

  lemma NeatAfter(S: State, S': State, c: nat)
    requires Neat(S) && OneBusy(S) && c < |S.cpus| && |S'.cpus| == |S.cpus| && S'.owner == S.owner && !S.cpus[c].Idle?
    requires forall d {:trigger S'.cpus[d]} :: 0 <= d < |S.cpus| && d != c ==> S'.cpus[d] == S.cpus[d]
    requires TrailLinked(S', S'.cpus[c])
    requires forall s {:trigger s in S'.spared} :: s in S'.spared ==>
               S'.head == Some(s) && (c == S.owner ==> !PastHead(S'.cpus[c], S'.head))
    ensures Neat(S')
  {
    forall d | 0 <= d < |S'.cpus| && d != c ensures S'.cpus[d].Idle? {
      assert S.cpus[c].Idle? || S.cpus[d].Idle?;
    }
  }

  lemma AllocNeat(S: State, S': State, c: nat)
    requires Inv(S) && Accounted(S) && Neat(S) && OneBusy(S) && Step(S, S', c) && InAlloc(S.cpus[c])
    ensures Neat(S')
  {
    assert PcOk(S, c);
    if S.cpus[c].Visit? { assert FreeSlabOk(S, S.cpus[c].s) && SlabOk(S, S.cpus[c].s); }
    NeatAfter(S, S', c);
  }

  lemma RecoverNeat(S: State, S': State, c: nat)
    requires Inv(S) && Neat(S) && OneBusy(S) && Step(S, S', c)
    requires S.cpus[c].ReadHead? || S.cpus[c].ReadAppend? || S.cpus[c].Walk? || S.cpus[c].TryPrev?
    ensures Neat(S')
  {
    assert PcOk(S, c) && TrailLinked(S, S.cpus[c]);
    if S.cpus[c].ReadAppend? { assert SlabOk(S, S.cpus[c].prev); }
    if S.cpus[c].Walk? { assert SlabOk(S, S.cpus[c].cur.value); }
    if S.cpus[c].TryPrev? { TryLockSucceeds(S, c); }
    NeatAfter(S, S', c);
  }

  lemma FreeNeat(S: State, S': State, c: nat)
    requires Inv(S) && Neat(S) && OneBusy(S) && Step(S, S', c)
    requires S.cpus[c].LockSlab? || S.cpus[c].TestFull? || S.cpus[c].Unlink? || S.cpus[c].Unlock?
    ensures Neat(S')
  {
    assert S'.spared == S.spared && S'.head == S.head;
    NeatAfter(S, S', c);
  }

  lemma PageNeat(S: State, S': State, c: nat)
    requires Inv(S) && Neat(S) && OneBusy(S) && Step(S, S', c)
    requires var pc := S.cpus[c]; pc.GivePage? || pc.HoldGivePage? || pc.UnlockPrev? || pc.OtherPage? || pc.HoldOther?
    ensures Neat(S')
  {
    assert S'.spared == S.spared && S'.head == S.head;
    NeatAfter(S, S', c);
  }

  lemma StartNeat(S: State, S': State, c: nat)
    requires Inv(S) && Neat(S) && Step(S, S', c) && S.cpus[c].Idle?
    ensures Neat(S')
  {
    forall d | 0 <= d < |S'.cpus| ensures TrailLinked(S', S'.cpus[d]) {
      assert d != c ==> TrailLinked(S, S.cpus[d]);
    }
  }

  lemma {:induction false} RunNeat(run: seq<State>, i: nat)
    requires IsRun(run) && OneCallAtATime(run) && i < |run|
    ensures Neat(run[i])
  {
    if i > 0 {
      RunNeat(run, i - 1);
      RunAccounted(run, i - 1);
      assert StepAt(run, i);
      var S, S' := run[i - 1], run[i];
      var c: nat :| Step(S, S', c);
      assert OneBusy(S);
      if S.cpus[c].Idle? { StartNeat(S, S', c); }
      else if InAlloc(S.cpus[c]) { AllocNeat(S, S', c); }
      else if S.cpus[c].ReadHead? || S.cpus[c].ReadAppend? || S.cpus[c].Walk? || S.cpus[c].TryPrev? {
        RecoverNeat(S, S', c);
      }
      else if S.cpus[c].LockSlab? || S.cpus[c].TestFull? || S.cpus[c].Unlink? || S.cpus[c].Unlock? {
        FreeNeat(S, S', c);
      }
      else { PageNeat(S, S', c); }
    }
  }

  /** Calls that do not overlap leave no entirely free slab behind the head. */
  lemma TidyWithoutOverlap(run: seq<State>, i: nat)
    requires IsRun(run) && OneCallAtATime(run) && i < |run| && Quiescent(run[i])
    ensures Tidy(run[i])
  {
    RunNeat(run, i);
    QuiescentLeftovers(run, i);
  }

  // ---------------------------------------------------------------- overlapping calls that leave one

  function Two(slabs: seq<Slab>, head: Option<nat>, held: set<(nat, nat)>, unit: Option<nat>, p: Pc, q: Pc,
               spared: set<nat>): State {
    State(slabs, head, held, [unit], [p, q], 0, spared)
  }

  /** CPU 0 finds the head full and lets go of it; CPU 1 gives its block back and leaves the slab,
      since it is the head; CPU 0 puts a new head before it and takes a block there, which CPU 1
      gives back as well. */
  function Overlap(i: nat): State {
    if i == 0 then Two([], None, {}, None, Idle, Idle, {})
    else if i == 1 then Two([], None, {}, None, AllocPage(0), Idle, {})
    else if i == 2 then Two([], None, {}, Some(0), HoldPage(0), Idle, {})
    else if i == 3 then Two([Whole(Open, None)], None, {}, None, Publish(0), Idle, {})
    else if i == 4 then Two([Whole(Open, None)], Some(0), {}, None, LockNew(0), Idle, {})
    else if i == 5 then Two([Whole(HeldBy(0), None)], Some(0), {}, None, VisitNew(0), Idle, {})
    else if i == 6 then Two([Drained(HeldBy(0), None)], Some(0), {(0, 0)}, None, Unlock(0), Idle, {})
    else if i == 7 then Two([Drained(Open, None)], Some(0), {(0, 0)}, None, Idle, Idle, {})
    else if i == 8 then Two([Drained(Open, None)], Some(0), {(0, 0)}, None, LockHead(0), Idle, {})
    else if i == 9 then Two([Drained(HeldBy(0), None)], Some(0), {(0, 0)}, None, Visit(0), Idle, {})
    else if i == 10 then Two([Drained(Open, None)], Some(0), {(0, 0)}, None, AllocPage(0), Idle, {})
    else if i == 11 then Two([Drained(Open, None)], Some(0), {}, None, AllocPage(0), LockSlab(0, 0), {})
    else if i == 12 then Two([Whole(HeldBy(1), None)], Some(0), {}, None, AllocPage(0), TestFull(0), {})
    else if i == 13 then Two([Whole(HeldBy(1), None)], Some(0), {}, None, AllocPage(0), ReadHead(0), {})
    else if i == 14 then Two([Whole(Open, None)], Some(0), {}, None, AllocPage(0), Idle, {0})
    else if i == 15 then Two([Whole(Open, None)], Some(0), {}, Some(0), HoldPage(0), Idle, {0})
    else if i == 16 then Two([Whole(Open, None), Whole(Open, Some(0))], Some(0), {}, None, Publish(1), Idle, {0})
    else if i == 17 then Two([Whole(Open, None), Whole(Open, Some(0))], Some(1), {}, None, LockNew(1), Idle, {0})
    else if i == 18 then Two([Whole(Open, None), Whole(HeldBy(0), Some(0))], Some(1), {}, None, VisitNew(1), Idle, {0})
    else if i == 19 then Two([Whole(Open, None), Drained(HeldBy(0), Some(0))], Some(1), {(1, 0)}, None, Unlock(1),
        Idle, {0})
    else if i == 20 then Two([Whole(Open, None), Drained(Open, Some(0))], Some(1), {(1, 0)}, None, Idle, Idle, {0})
    else if i == 21 then Two([Whole(Open, None), Drained(Open, Some(0))], Some(1), {}, None, Idle, LockSlab(1, 0), {0})
    else if i == 22 then Two([Whole(Open, None), Whole(HeldBy(1), Some(0))], Some(1), {}, None, Idle, TestFull(1), {0})
    else if i == 23 then Two([Whole(Open, None), Whole(HeldBy(1), Some(0))], Some(1), {}, None, Idle, ReadHead(1), {0})
    else Two([Whole(Open, None), Whole(Open, Some(0))], Some(1), {}, None, Idle, Idle, {0, 1})
  }

  function Mover(i: nat): nat {
    if 10 <= i < 14 || i >= 20 then 1 else 0
  }

  lemma OverlapFrom0(i: nat)
    ensures i < 4 ==> Step(Overlap(i), Overlap(i + 1), 0)
  {
  }

  lemma OverlapFrom4(i: nat)
    ensures 4 <= i < 8 ==> Step(Overlap(i), Overlap(i + 1), 0)
  {
    var none: set<nat> := {};
    assert {0} - {0} == none;
    assert i == 5 ==> 0 in Overlap(5).slabs[0].free && TakeBlock(Overlap(5), Overlap(6), 0, 0) by {
      TakeExample(Overlap(5), Overlap(6), 0);
    }
  }

  lemma OverlapFrom8(i: nat)
    ensures 8 <= i < 14 ==> Step(Overlap(i), Overlap(i + 1), Mover(i))
  {
    var none: set<nat> := {};
    assert none + {0} == {0};
    assert i == 10 ==> (0, 0) in Overlap(10).held;
    assert i == 11 ==> Overlap(11).slabs[0].free + {0} == {0};
  }

  lemma OverlapFrom14(i: nat)
    ensures 14 <= i < 17 ==> Step(Overlap(i), Overlap(i + 1), 0)
  {
  }

  lemma OverlapFrom17(i: nat)
    ensures 17 <= i < 20 ==> Step(Overlap(i), Overlap(i + 1), 0)
  {
    var none: set<nat> := {};
    assert {0} - {0} == none && {0} - {1} == {0};
    assert i == 18 ==> 0 in Overlap(18).slabs[1].free && TakeBlock(Overlap(18), Overlap(19), 0, 1) by {
      TakeExample(Overlap(18), Overlap(19), 1);
    }
  }

  lemma OverlapFrom20(i: nat)
    ensures 20 <= i < 24 ==> Step(Overlap(i), Overlap(i + 1), 1)
  {
    var none: set<nat> := {};
    assert none + {0} == {0};
    assert i == 20 ==> (1, 0) in Overlap(20).held;
    assert i == 21 ==> Overlap(21).slabs[1].free + {0} == {0};
  }

  /** No call is under way and nothing is handed out, but slab s is in the list behind the head. */
  ghost predicate LeftBehind(S: State, s: nat) {
    var holds := Quiescent(S) && S.held == {} && Linked(S, s) && S.head != Some(s) && WhollyFree(S, s);
    holds
  }

  /** Overlapping calls can leave an entirely free slab behind the head although everything has been
      given back. */
  lemma OverlapLeavesSlab() returns (run: seq<State>)
    ensures IsRun(run) && LeftBehind(run[|run| - 1], 0) && !Tidy(run[|run| - 1])
  {
    run := seq(25, i requires 0 <= i => Overlap(i));
    forall i {:trigger StepAt(run, i)} | 0 < i < |run| ensures StepAt(run, i) {
      if i <= 4 { OverlapFrom0(i - 1); }
      else if i <= 8 { OverlapFrom4(i - 1); }
      else if i <= 14 { OverlapFrom8(i - 1); }
      else if i <= 17 { OverlapFrom14(i - 1); }
      else if i <= 20 { OverlapFrom17(i - 1); }
      else { OverlapFrom20(i - 1); }
    }
    assert Linked(run[24], 0);
  }
}
