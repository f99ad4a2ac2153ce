/** Reclaiming slabs while other CPUs allocate and free (kernel/src/slab.c, kernel/report/report.md):
    one CPU's list of slabs of one block size, the CPU that owns it, and any number of CPUs that
    free blocks of it, interleaved one atomic step at a time.

    Slabs are numbered in the order they were made. A reclaimed slab's page is taken not to be
    handed out again during the run, so its last contents stay readable. */
module SlabReclaim {
  import opened Words

  /** A lock word is 0 (Open) or 1; who set it is history. A reclaimed slab's stays 1 for good. */
  datatype Lock = Open | HeldBy(cpu: nat) | LeftSet

  datatype Slab = Slab(lock: Lock, append: Option<nat>, blocks: set<nat>, free: set<nat>, gone: bool)

  /** Where a CPU is. Each constructor is named after what the CPU does next. */
  datatype Pc =
    | Idle
    // slab_alloc
    | LockHead(s: nat)                       // spins on the head's lock
    | Visit(s: nat)                          // holds s
    | LockNext(s: nat, n: nat)               // holds s, spins on n
    | Release(s: nat, n: nat)                // holds s and n
    | Advance(s: nat, n: nat)                // holds n; is about to read the append field of s
    | AllocPage(u: nat)                      // spins on the lock of unit u
    | HoldPage(u: nat)                       // holds the lock of unit u
    | Publish(s: nat)                        // s is formatted but not yet the head
    | LockNew(s: nat)                        // spins on the new slab's lock
    | VisitNew(s: nat)                       // holds s
    | Unlock(s: nat)                         // holds s, last step of either call
    // slab_free
    | LockSlab(s: nat, b: nat)               // spins on s, to return block b
    | TestFull(s: nat)                       // holds s
    | ReadHead(s: nat)                       // holds s, which is entirely free
    | ReadAppend(s: nat, prev: nat)          // holds s; is about to read the append field of prev
    | Walk(s: nat, prev: nat, cur: Option<nat>)
    | TryPrev(s: nat, prev: nat)             // holds s
    | Unlink(s: nat, prev: nat)              // holds s and prev
    | GivePage(prev: nat, u: nat)            // holds prev, spins on the lock of unit u
    | HoldGivePage(prev: nat, u: nat)        // holds prev and the lock of unit u
    | UnlockPrev(prev: nat)                  // holds prev
    // page_alloc or page_free on behalf of anything else: callers of pages, other lists
    | OtherPage(u: nat)                      // spins on the lock of unit u
    | HoldOther(u: nat)                      // holds the lock of unit u

  datatype State = State(
    slabs: seq<Slab>,
    head: Option<nat>,
    held: set<(nat, nat)>,           // blocks in the callers' hands: (slab, block)
    units: seq<Option<nat>>,         // the page locks
    cpus: seq<Pc>,
    owner: nat,                      // the CPU whose list this is
    spared: set<nat>)                // history: slabs found entirely free, left in the list, not used since

  predicate Holds(pc: Pc, s: nat) {
    match pc
    case Visit(x) => s == x
    case LockNext(x, _) => s == x
    case Release(x, n) => s == x || s == n
    case Advance(_, n) => s == n
    case VisitNew(x) => s == x
    case Unlock(x) => s == x
    case TestFull(x) => s == x
    case ReadHead(x) => s == x
    case ReadAppend(x, _) => s == x
    case Walk(x, _, _) => s == x
    case TryPrev(x, _) => s == x
    case Unlink(x, p) => s == x || s == p
    case GivePage(p, _) => s == p
    case HoldGivePage(p, _) => s == p
    case UnlockPrev(p) => s == p
    case _ => false
  }

  predicate HoldsUnit(pc: Pc, u: nat) {
    (pc.HoldPage? && pc.u == u) || (pc.HoldGivePage? && pc.u == u) || (pc.HoldOther? && pc.u == u)
  }

  /** The slab whose lock the CPU spins on with `_lock`. */
  function SpinTarget(pc: Pc): Option<nat> {
    match pc
    case LockHead(s) => Some(s)
    case LockNext(_, n) => Some(n)
    case LockNew(s) => Some(s)
    case LockSlab(s, _) => Some(s)
    case _ => None
  }

  /** The CPU spins on the lock of a unit. */
  predicate WantsUnit(pc: Pc) {
    pc.AllocPage? || pc.GivePage? || pc.OtherPage?
  }

  predicate InAlloc(pc: Pc) {
    pc.LockHead? || pc.Visit? || pc.LockNext? || pc.Release? || pc.Advance? || pc.AllocPage? || pc.HoldPage?
    || pc.Publish? || pc.LockNew? || pc.VisitNew?
  }

  /** The CPU has no business with the list, or is allocating from it. */
  predicate NoFreer(pc: Pc) {
    pc.Idle? || InAlloc(pc) || pc.OtherPage? || pc.HoldOther?
  }

  // ---------------------------------------------------------------- steps

  function SetPc(S: State, c: nat, pc: Pc): State
    requires c < |S.cpus|
  {
    S.(cpus := S.cpus[c := pc])
  }

  function SetLock(S: State, s: nat, l: Lock): State
    requires s < |S.slabs|
  {
    S.(slabs := S.slabs[s := S.slabs[s].(lock := l)])
  }

  function SetUnit(S: State, u: nat, l: Option<nat>): State
    requires u < |S.units|
  {
    S.(units := S.units[u := l])
  }

  /** `_lock`: one turn of the spin loop. */
  ghost predicate Spin(S: State, S': State, c: nat, s: nat, next: Pc) {
    c < |S.cpus| && s < |S.slabs| &&
    S' == if S.slabs[s].lock == Open then SetPc(SetLock(S, s, HeldBy(c)), c, next) else S
  }

  ghost predicate Start(S: State, S': State, c: nat) {
    && c < |S.cpus|
    && (// slab_alloc on the owner's CPU
        || (c == S.owner && S.head.Some? && S' == SetPc(S, c, LockHead(S.head.value)))
        || (c == S.owner && S.head.None? && |S.units| > 0 && S' == SetPc(S, c, AllocPage(0)))
        // page_alloc or page_free of something else
        || (exists u: nat :: u < |S.units| && S' == SetPc(S, c, OtherPage(u)))
        // slab_free of any block somebody holds
        || (exists s: nat, b: nat :: (s, b) in S.held &&
              S' == SetPc(S.(held := S.held - {(s, b)}), c, LockSlab(s, b))))
  }

  /** Block b of slab s goes to the caller. */
  function Taken(S: State, s: nat, b: nat): State
    requires s < |S.slabs|
  {
    S.(slabs := S.slabs[s := S.slabs[s].(free := S.slabs[s].free - {b})],
       held := S.held + {(s, b)}, spared := S.spared - {s})
  }

  /** recover_slab gives up and leaves the entirely free slab s where it is. */
  function Spared(S: State, s: nat): State
    requires s < |S.slabs|
  {
    SetLock(S, s, Open).(spared := S.spared + {s})
  }

  ghost predicate TakeBlock(S: State, S': State, c: nat, s: nat) {
    c < |S.cpus| && s < |S.slabs| &&
    exists b: nat :: b in S.slabs[s].free && S' == SetPc(Taken(S, s, b), c, Unlock(s))
  }

  ghost predicate VisitStep(S: State, S': State, c: nat, s: nat) {
    c < |S.cpus| && s < |S.slabs| &&
    if S.slabs[s].free != {} then TakeBlock(S, S', c, s)
    else if S.slabs[s].append.None? then
      S' == SetPc(SetLock(S, s, Open), c, if |S.units| > 0 then AllocPage(0) else Idle)
    else S' == SetPc(S, c, LockNext(s, S.slabs[s].append.value))
  }

  /** page_alloc holds one unit lock at a time: it takes a page of this unit, or tries the next. */
  ghost predicate HoldPageStep(S: State, S': State, c: nat, u: nat) {
    && c < |S.cpus| && u < |S.units|
    && (|| S' == SetPc(SetUnit(S, u, None), c, if u + 1 < |S.units| then AllocPage(u + 1) else Idle)
        || (exists blocks: set<nat> :: blocks != {} &&
              S' == SetPc(SetUnit(S, u, None).(slabs := S.slabs + [Slab(Open, S.head, blocks, blocks, false)]),
                          c, Publish(|S.slabs|))))
  }

  ghost predicate LockSlabStep(S: State, S': State, c: nat, s: nat, b: nat) {
    c < |S.cpus| && s < |S.slabs| && S' == if S.slabs[s].lock == Open
          then SetPc(S.(slabs := S.slabs[s := S.slabs[s].(lock := HeldBy(c), free := S.slabs[s].free + {b})]), c,
              TestFull(s))
          else S
  }

  ghost predicate WalkStep(S: State, S': State, c: nat, s: nat, prev: nat, cur: Option<nat>) {
    c < |S.cpus| && s < |S.slabs| &&
    if cur.None? then S' == SetPc(SetLock(S, s, Open), c, Idle)
    else if cur.value == s then S' == SetPc(S, c, TryPrev(s, prev))
    else cur.value < |S.slabs| && S' == SetPc(S, c, Walk(s, cur.value, S.slabs[cur.value].append))
  }

  ghost predicate ReadHeadStep(S: State, S': State, c: nat, s: nat) {
    c < |S.cpus| && s < |S.slabs| && S.head.Some? && S.head.value < |S.slabs| &&
    S' == if S.head.value == s then SetPc(Spared(S, s), c, Idle)
          else SetPc(S, c, ReadAppend(s, S.head.value))
  }

  ghost predicate TryPrevStep(S: State, S': State, c: nat, s: nat, prev: nat) {
    c < |S.cpus| && s < |S.slabs| && prev < |S.slabs| &&
    S' == if S.slabs[prev].lock == Open then SetPc(SetLock(S, prev, HeldBy(c)), c, Unlink(s, prev))
          else SetPc(Spared(S, s), c, Idle)
  }

  ghost predicate UnlinkStep(S: State, S': State, c: nat, s: nat, prev: nat) {
    c < |S.cpus| && s < |S.slabs| && prev < |S.slabs| &&
    exists u: nat :: u < |S.units| &&
      S' == SetPc(S.(slabs := S.slabs[prev := S.slabs[prev].(append := S.slabs[s].append)]
                                     [s := S.slabs[s].(lock := LeftSet, gone := true)]), c, GivePage(prev, u))
  }

  /** A page_alloc that finds no room goes on to the next unit. */
  ghost predicate HoldOtherStep(S: State, S': State, c: nat, u: nat) {
    && c < |S.cpus| && u < |S.units|
    && (|| S' == SetPc(SetUnit(S, u, None), c, Idle)
        || (u + 1 < |S.units| && S' == SetPc(SetUnit(S, u, None), c, OtherPage(u + 1))))
  }

  ghost predicate Step(S: State, S': State, c: nat) {
    var taken := StepFrom(S, S', c);
    taken
  }

  ghost predicate StepFrom(S: State, S': State, c: nat) {
    c < |S.cpus| &&
    match S.cpus[c]
    case Idle => Start(S, S', c)
    case LockHead(s) => Spin(S, S', c, s, Visit(s))
    case Visit(s) => VisitStep(S, S', c, s)
    case LockNext(s, n) => Spin(S, S', c, n, Release(s, n))
    case Release(s, n) => s < |S.slabs| && S' == SetPc(SetLock(S, s, Open), c, Advance(s, n))
    case Advance(s, n) => s < |S.slabs| && S.slabs[s].append.Some? && S' == SetPc(S, c, Visit(S.slabs[s].append.value))
    case AllocPage(u) => u < |S.units| &&
        S' == (if S.units[u].None? then SetPc(SetUnit(S, u, Some(c)), c, HoldPage(u)) else S)
    case HoldPage(u) => HoldPageStep(S, S', c, u)
    case Publish(s) => S' == SetPc(S.(head := Some(s)), c, LockNew(s))
    case LockNew(s) => Spin(S, S', c, s, VisitNew(s))
    case VisitNew(s) => s < |S.slabs| &&
        if S.slabs[s].free != {} then TakeBlock(S, S', c, s) else S' == SetPc(SetLock(S, s, Open), c, Idle)
    case Unlock(s) => s < |S.slabs| && S' == SetPc(SetLock(S, s, Open), c, Idle)
    case LockSlab(s, b) => LockSlabStep(S, S', c, s, b)
    case TestFull(s) => s < |S.slabs| &&
        S' == SetPc(S, c, if |S.slabs[s].free| == |S.slabs[s].blocks| then ReadHead(s) else Unlock(s))
    case ReadHead(s) => ReadHeadStep(S, S', c, s)
    case ReadAppend(s, prev) => prev < |S.slabs| && S' == SetPc(S, c, Walk(s, prev, S.slabs[prev].append))
    case Walk(s, prev, cur) => WalkStep(S, S', c, s, prev, cur)
    case TryPrev(s, prev) => TryPrevStep(S, S', c, s, prev)
    case Unlink(s, prev) => UnlinkStep(S, S', c, s, prev)
    case GivePage(prev, u) => u < |S.units| &&
        S' == (if S.units[u].None? then SetPc(SetUnit(S, u, Some(c)), c, HoldGivePage(prev, u)) else S)
    case HoldGivePage(prev, u) => u < |S.units| && S' == SetPc(SetUnit(S, u, None), c, UnlockPrev(prev))
    case UnlockPrev(prev) => prev < |S.slabs| && S' == SetPc(SetLock(S, prev, Open), c, Idle)
    case OtherPage(u) => u < |S.units| &&
        S' == (if S.units[u].None? then SetPc(SetUnit(S, u, Some(c)), c, HoldOther(u)) else S)
    case HoldOther(u) => HoldOtherStep(S, S', c, u)
  }

  ghost predicate Init(S: State) {
    && S.slabs == [] && S.head == None && S.held == {} && S.spared == {}
    && (forall u :: 0 <= u < |S.units| ==> S.units[u] == None)
    && (forall c :: 0 <= c < |S.cpus| ==> S.cpus[c] == Idle)
    && S.owner < |S.cpus| && |S.units| > 0
  }

  // ---------------------------------------------------------------- the invariant

  /** Slab s has been made the head at some time and has not been unlinked. */
  predicate Linked(S: State, s: nat) {
    var holds :=
      s < |S.slabs| && !S.slabs[s].gone && S.head.Some? && s <= S.head.value;
    holds
  }

  /** The append field of slab n leads to an older slab and skips no linked one. */
  ghost predicate AppendOk(S: State, n: nat) {
    && n < |S.slabs|
    && (S.slabs[n].append.Some? ==> S.slabs[n].append.value < n)
    && (forall s: nat {:trigger Linked(S, s)} :: s < n && Linked(S, s) ==>
          S.slabs[n].append.Some? && s <= S.slabs[n].append.value)
    && (!S.slabs[n].gone && S.slabs[n].append.Some? ==> Linked(S, S.slabs[n].append.value))
  }

  ghost predicate SlabOk(S: State, n: nat) {
    && n < |S.slabs|
    && AppendOk(S, n)
    && S.slabs[n].free <= S.slabs[n].blocks && S.slabs[n].blocks != {}
    && (S.slabs[n].gone <==> S.slabs[n].lock == LeftSet)
    && (S.slabs[n].gone ==> S.slabs[n].free == S.slabs[n].blocks && S.head.Some? && n <= S.head.value)
  }

  ghost predicate HeadOk(S: State) {
    && (S.head.Some? ==> Linked(S, S.head.value))
    && (S.head.None? ==> forall c :: 0 <= c < |S.cpus| ==> NoFreer(S.cpus[c]))
    && S.owner < |S.cpus| && |S.units| > 0
    // the only slab that is not yet in the list is the one being published
    && (forall n {:trigger Publish(n)} :: 0 <= n < |S.slabs| && (S.head.None? || n > S.head.value) ==>
        S.cpus[S.owner] == Publish(n))
  }

  /** A block whose slab and number these are is out: no slab has it in its free list. */
  ghost predicate IsOut(S: State, s: nat, b: nat) {
    Linked(S, s) && b in S.slabs[s].blocks && b !in S.slabs[s].free
  }

  ghost predicate PcOk(S: State, c: nat) {
    var holds := c < |S.cpus| && (InAlloc(S.cpus[c]) ==> c == S.owner) && PlaceOk(S, c);
    holds
  }

  ghost predicate PlaceOk(S: State, c: nat) {
    c < |S.cpus| &&
    match S.cpus[c]
    case LockHead(s) => S.head == Some(s)
    case Visit(s) => Linked(S, s)
    case LockNext(s, n) => Linked(S, s) && S.slabs[s].append == Some(n)
    case Release(s, n) => Linked(S, s) && S.slabs[s].append == Some(n)
    case Advance(s, n) => s < |S.slabs| && S.slabs[s].append == Some(n) && Linked(S, n)
    case AllocPage(u) => u < |S.units|
    case HoldPage(u) => u < |S.units|
    case Publish(s) => s + 1 == |S.slabs| && !S.slabs[s].gone && S.slabs[s].append == S.head && S.slabs[s].lock == Open
      && (S.head.Some? ==> S.head.value < s)
    case LockNew(s) => S.head == Some(s)
    case VisitNew(s) => S.head == Some(s)
    case Unlock(s) => Linked(S, s)
    case LockSlab(s, b) => IsOut(S, s, b) && (s, b) !in S.held
    case TestFull(s) => Linked(S, s)
    case ReadHead(s) => Linked(S, s) && S.slabs[s].free == S.slabs[s].blocks
    case ReadAppend(s, prev) =>
      && Linked(S, s) && S.slabs[s].free == S.slabs[s].blocks
      && s < prev < |S.slabs| && prev <= S.head.value
    case Walk(s, prev, cur) =>
      && Linked(S, s) && S.slabs[s].free == S.slabs[s].blocks
      && s < prev < |S.slabs| && prev <= S.head.value && cur.Some? && s <= cur.value < prev
      && (cur.value == s ==> S.slabs[prev].append == Some(s))
    case TryPrev(s, prev) =>
      && Linked(S, s) && S.slabs[s].free == S.slabs[s].blocks
      && s < prev < |S.slabs| && prev <= S.head.value && S.slabs[prev].append == Some(s)
    case Unlink(s, prev) =>
      && Linked(S, s) && S.slabs[s].free == S.slabs[s].blocks
      && s < prev && Linked(S, prev) && S.slabs[prev].append == Some(s)
    case GivePage(prev, u) => Linked(S, prev) && u < |S.units|
    case HoldGivePage(prev, u) => Linked(S, prev) && u < |S.units|
    case UnlockPrev(prev) => Linked(S, prev)
    case OtherPage(u) => u < |S.units|
    case HoldOther(u) => u < |S.units|
    case Idle => true
  }

  ghost predicate LocksOk(S: State) {
    var holds :=
      && (forall s, c {:trigger Holds(S.cpus[c], s)} :: 0 <= s < |S.slabs| && 0 <= c < |S.cpus| ==>
            (S.slabs[s].lock == HeldBy(c) <==> Holds(S.cpus[c], s)))
      && (forall s {:trigger S.slabs[s].lock} :: 0 <= s < |S.slabs| && S.slabs[s].lock.HeldBy? ==>
          S.slabs[s].lock.cpu < |S.cpus|)
      && (forall u, c {:trigger HoldsUnit(S.cpus[c], u)} :: 0 <= u < |S.units| && 0 <= c < |S.cpus| ==>
            (S.units[u] == Some(c) <==> HoldsUnit(S.cpus[c], u)))
      && (forall u {:trigger S.units[u]} :: 0 <= u < |S.units| && S.units[u].Some? ==> S.units[u].value < |S.cpus|);
    holds
  }

  ghost predicate BlocksOk(S: State) {
    && (forall s: nat, b: nat {:trigger (s, b) in S.held} :: (s, b) in S.held ==> IsOut(S, s, b))
    && (forall c, d {:trigger S.cpus[c], S.cpus[d]} :: 0 <= c < d < |S.cpus| && S.cpus[c].LockSlab? ==>
        S.cpus[c] != S.cpus[d])
  }

  /** Bound to a name, as in PcOk and Step, so that a proof of it is one goal and not one for each
      conjunct. */
  ghost predicate Inv(S: State) {
    var holds :=
      && HeadOk(S) && LocksOk(S) && BlocksOk(S)
      && (forall n {:trigger SlabOk(S, n)} :: 0 <= n < |S.slabs| ==> SlabOk(S, n))
      && (forall c {:trigger PcOk(S, c)} :: 0 <= c < |S.cpus| ==> PcOk(S, c));
    holds
  }

  lemma InitInv(S: State)
    requires Init(S)
    ensures Inv(S)
  {
  }

  // ---------------------------------------------------------------- every step keeps the invariant

  /** Steps that touch at most the lock words and the stepping CPU's position. */
  ghost predicate SameList(S: State, S': State) {
    && |S'.slabs| == |S.slabs| && S'.head == S.head && |S'.units| == |S.units| && |S'.cpus| == |S.cpus| &&
        S'.owner == S.owner
    && (forall n {:trigger S'.slabs[n]} :: 0 <= n < |S.slabs| ==>
          S'.slabs[n].append == S.slabs[n].append && S'.slabs[n].gone == S.slabs[n].gone &&
              S'.slabs[n].blocks == S.slabs[n].blocks)
  }

  lemma SameListLinked(S: State, S': State)
    requires SameList(S, S')
    ensures forall n: nat {:trigger Linked(S', n)} {:trigger Linked(S, n)} :: Linked(S', n) <==> Linked(S, n)
    ensures forall n {:trigger AppendOk(S', n)} :: 0 <= n < |S.slabs| && AppendOk(S, n) ==> AppendOk(S', n)
  {
    forall n: nat ensures Linked(S', n) <==> Linked(S, n) {
      if n < |S.slabs| { assert S'.slabs[n].gone == S.slabs[n].gone; }
    }
    forall n | 0 <= n < |S.slabs| && AppendOk(S, n) ensures AppendOk(S', n) {
      assert S'.slabs[n].append == S.slabs[n].append;
    }
  }

  predicate IsPublish(pc: Pc, n: nat) {
    pc == Publish(n)
  }

  /** What a step of CPU c must leave alone for the other CPUs' positions to stay right. */
  ghost predicate LeavesOthers(S: State, S': State, c: nat) {
    && SameList(S, S') && c < |S.cpus|
    && (forall d {:trigger S'.cpus[d]} :: 0 <= d < |S.cpus| && d != c ==> S'.cpus[d] == S.cpus[d])
    && (forall d, n {:trigger Holds(S.cpus[d], n)} ::
        0 <= d < |S.cpus| && d != c && 0 <= n < |S.slabs| && Holds(S.cpus[d], n) ==>
          S'.slabs[n].free == S.slabs[n].free)
    && (forall d {:trigger S.cpus[d]} :: 0 <= d < |S.cpus| && d != c && S.cpus[d].LockSlab? ==>
          IsOut(S', S.cpus[d].s, S.cpus[d].b) && (S.cpus[d].s, S.cpus[d].b) !in S'.held)
    && (forall d, n {:trigger IsPublish(S.cpus[d], n)} ::
        0 <= d < |S.cpus| && d != c && 0 <= n < |S.slabs| && IsPublish(S.cpus[d], n) ==>
          S'.slabs[n].lock == S.slabs[n].lock)
  }

  lemma OthersOk(S: State, S': State, c: nat, d: nat)
    requires Inv(S) && c < |S.cpus| && SameList(S, S') && LeavesOthers(S, S', c) && d < |S.cpus| && d != c
    ensures PcOk(S', d)
  {
    SameListLinked(S, S');
    assert PcOk(S, d);
    assert S'.cpus[d] == S.cpus[d];
    assert S.cpus[d].Publish? ==> IsPublish(S.cpus[d], S.cpus[d].s);
    match S.cpus[d] {
      case ReadHead(s) => assert Holds(S.cpus[d], s);
      case ReadAppend(s, _) => assert Holds(S.cpus[d], s);
      case Walk(s, _, _) => assert Holds(S.cpus[d], s);
      case TryPrev(s, _) => assert Holds(S.cpus[d], s);
      case Unlink(s, _) => assert Holds(S.cpus[d], s);
      case _ =>
    }
  }

  /** A step of CPU c that moves its position and takes or drops locks accordingly, and nothing
      else. */
  ghost predicate Quiet(S: State, S': State, c: nat) {
    && c < |S.cpus| && SameList(S, S') && S'.held == S.held
    && (forall d {:trigger S'.cpus[d]} :: 0 <= d < |S.cpus| && d != c ==> S'.cpus[d] == S.cpus[d])
    && (forall n {:trigger S'.slabs[n]} :: 0 <= n < |S.slabs| ==>
          S'.slabs[n].free == S.slabs[n].free &&
              S'.slabs[n].lock == NewLock(S.slabs[n].lock, S.cpus[c], S'.cpus[c], n, c))
    && (forall n {:trigger Holds(S'.cpus[c], n)} ::
        0 <= n < |S.slabs| && Holds(S'.cpus[c], n) && !Holds(S.cpus[c], n) ==> S.slabs[n].lock == Open)
    && (forall u {:trigger S'.units[u]} :: 0 <= u < |S.units| ==>
        S'.units[u] == NewUnit(S.units[u], S.cpus[c], S'.cpus[c], u, c))
    && (forall u {:trigger HoldsUnit(S'.cpus[c], u)} ::
        0 <= u < |S.units| && HoldsUnit(S'.cpus[c], u) && !HoldsUnit(S.cpus[c], u) ==> S.units[u] == None)
    && !S.cpus[c].Publish? && !S'.cpus[c].Publish? && (S'.cpus[c].LockSlab? ==> S'.cpus[c] == S.cpus[c])
    && (S.head.None? ==> NoFreer(S'.cpus[c]))
  }

  function NewLock(l: Lock, pc: Pc, pc': Pc, n: nat, c: nat): Lock {
    if Holds(pc', n) then HeldBy(c) else if Holds(pc, n) then Open else l
  }

  function NewUnit(l: Option<nat>, pc: Pc, pc': Pc, u: nat, c: nat): Option<nat> {
    if HoldsUnit(pc', u) then Some(c) else if HoldsUnit(pc, u) then None else l
  }

  lemma QuietLocks(S: State, S': State, c: nat)
    requires LocksOk(S) && Quiet(S, S', c)
    ensures LocksOk(S')
  {
    forall s, d | 0 <= s < |S'.slabs| && 0 <= d < |S'.cpus|
      ensures S'.slabs[s].lock == HeldBy(d) <==> Holds(S'.cpus[d], s)
    {
      assert S.slabs[s].lock == HeldBy(c) <==> Holds(S.cpus[c], s);
      assert S.slabs[s].lock == HeldBy(d) <==> Holds(S.cpus[d], s);
      assert S'.slabs[s].lock == NewLock(S.slabs[s].lock, S.cpus[c], S'.cpus[c], s, c);
    }
    forall u, d | 0 <= u < |S'.units| && 0 <= d < |S'.cpus|
      ensures S'.units[u] == Some(d) <==> HoldsUnit(S'.cpus[d], u)
    {
      assert S.units[u] == Some(c) <==> HoldsUnit(S.cpus[c], u);
      assert S.units[u] == Some(d) <==> HoldsUnit(S.cpus[d], u);
      assert S'.units[u] == NewUnit(S.units[u], S.cpus[c], S'.cpus[c], u, c);
    }
  }

  lemma QuietStep(S: State, S': State, c: nat)
    requires Inv(S) && Quiet(S, S', c) && PcOk(S', c)
    ensures Inv(S')
  {
    SameListLinked(S, S');
    QuietLocks(S, S', c);
    forall n | 0 <= n < |S'.slabs| ensures SlabOk(S', n) {
      assert SlabOk(S, n);
      assert S.slabs[n].lock == HeldBy(c) <==> Holds(S.cpus[c], n);
    }
    forall d | 0 <= d < |S'.cpus| ensures PcOk(S', d) {
      if d != c { QuietOther(S, S', c, d); }
    }
    assert BlocksOk(S') by {
      forall s: nat, b: nat | (s, b) in S'.held ensures IsOut(S', s, b) { assert IsOut(S, s, b); }
    }
    assert PcOk(S, S.owner);
  }

  /** Every slab a CPU holds the lock of is in the list. */
  lemma HeldLinked(S: State, c: nat, n: nat)
    requires c < |S.cpus| && PcOk(S, c) && Holds(S.cpus[c], n)
    requires S.head.Some? ==> Linked(S, S.head.value)
    requires forall m {:trigger AppendOk(S, m)} :: 0 <= m < |S.slabs| ==> AppendOk(S, m)
    ensures Linked(S, n)
  {
    match S.cpus[c] {
      case Release(s, _) => assert AppendOk(S, s);
      case _ =>
    }
  }

  lemma QuietOther(S: State, S': State, c: nat, d: nat)
    requires Inv(S) && Quiet(S, S', c) && PcOk(S', c) && d < |S.cpus| && d != c
    ensures PcOk(S', d)
  {
    SameListLinked(S, S');
    forall n | 0 <= n < |S'.slabs| ensures AppendOk(S', n) { assert SlabOk(S, n); }
    forall e | 0 <= e < |S.cpus| && e != c && S.cpus[e].LockSlab?
      ensures IsOut(S', S.cpus[e].s, S.cpus[e].b) && (S.cpus[e].s, S.cpus[e].b) !in S'.held
    {
      assert PcOk(S, e);
    }
    forall e, n | 0 <= e < |S.cpus| && e != c && 0 <= n < |S.slabs| && IsPublish(S.cpus[e], n)
      ensures S'.slabs[n].lock == S.slabs[n].lock
    {
      assert PcOk(S, e);
      if Holds(S'.cpus[c], n) { HeldLinked(S', c, n); }
      assert S'.slabs[n].lock == NewLock(S.slabs[n].lock, S.cpus[c], S'.cpus[c], n, c);
    }
    OthersOk(S, S', c, d);
  }

  // ---------------------------------------------------------------- the quiet steps

  /** The lock words the stepping CPU has set. */
  lemma MyLocks(S: State, c: nat)
    requires LocksOk(S) && c < |S.cpus|
    ensures forall n {:trigger S.slabs[n]} :: 0 <= n < |S.slabs| ==>
        (S.slabs[n].lock == HeldBy(c) <==> Holds(S.cpus[c], n))
    ensures forall u {:trigger S.units[u]} :: 0 <= u < |S.units| ==>
        (S.units[u] == Some(c) <==> HoldsUnit(S.cpus[c], u))
  {
    forall n | 0 <= n < |S.slabs| ensures S.slabs[n].lock == HeldBy(c) <==> Holds(S.cpus[c], n) { }
    forall u | 0 <= u < |S.units| ensures S.units[u] == Some(c) <==> HoldsUnit(S.cpus[c], u) { }
  }

  /** A step that takes or drops the lock of slab s and no other lock. */
  lemma LockStep(S: State, S': State, c: nat, s: nat, l: Lock, pc: Pc)
    requires Inv(S) && c < |S.cpus| && s < |S.slabs|
    requires S' == SetPc(SetLock(S, s, l).(spared := S'.spared), c, pc) && PcOk(S', c)
    requires if l == Open then S.slabs[s].lock == HeldBy(c) else l == HeldBy(c) && S.slabs[s].lock == Open
    requires forall n {:trigger Holds(pc, n)} {:trigger Holds(S.cpus[c], n)} :: n != s ==>
               (Holds(pc, n) <==> Holds(S.cpus[c], n))
    requires Holds(pc, s) <==> l != Open
    requires forall v {:trigger HoldsUnit(pc, v)} {:trigger HoldsUnit(S.cpus[c], v)} ::
               !HoldsUnit(pc, v) && !HoldsUnit(S.cpus[c], v)
    requires !S.cpus[c].Publish? && !pc.Publish? && !pc.LockSlab? && (S.head.None? ==> NoFreer(pc))
    ensures Inv(S')
  {
    MyLocks(S, c);
    QuietStep(S, S', c);
  }

  lemma SpinSteps(S: State, S': State, c: nat)
    requires Inv(S) && Step(S, S', c)
    requires var pc := S.cpus[c]; pc.LockHead? || pc.LockNext? || pc.LockNew?
    ensures Inv(S')
  {
    if S' != S {
      assert PcOk(S, c);
      if S.cpus[c].LockNext? { assert SlabOk(S, S.cpus[c].s); }
      LockStep(S, S', c, SpinTarget(S.cpus[c]).value, HeldBy(c), S'.cpus[c]);
    }
  }

  /** A step that takes or drops the lock of unit u and no slab's. */
  lemma UnitStep(S: State, S': State, c: nat, u: nat, l: Option<nat>, pc: Pc)
    requires Inv(S) && c < |S.cpus| && u < |S.units| && S' == SetPc(SetUnit(S, u, l), c, pc) && PcOk(S', c)
    requires forall n {:trigger Holds(pc, n)} {:trigger Holds(S.cpus[c], n)} :: Holds(pc, n) <==> Holds(S.cpus[c], n)
    requires if l.Some? then l == Some(c) && S.units[u] == None else S.units[u] == Some(c)
    requires forall v {:trigger HoldsUnit(pc, v)} :: HoldsUnit(pc, v) <==> l.Some? && v == u
    requires forall v {:trigger HoldsUnit(S.cpus[c], v)} :: HoldsUnit(S.cpus[c], v) <==> l.None? && v == u
    requires !S.cpus[c].Publish? && !pc.Publish? && !pc.LockSlab? && (S.head.None? ==> NoFreer(pc))
    ensures Inv(S')
  {
    MyLocks(S, c);
    QuietStep(S, S', c);
  }

  lemma TakeUnitStep(S: State, S': State, c: nat)
    requires Inv(S) && Step(S, S', c) && WantsUnit(S.cpus[c])
    ensures Inv(S')
  {
    if S' != S {
      assert PcOk(S, c);
      UnitStep(S, S', c, S.cpus[c].u, Some(c), S'.cpus[c]);
    }
  }

  lemma DropUnitStep(S: State, S': State, c: nat)
    requires Inv(S) && Step(S, S', c) && (S.cpus[c].HoldGivePage? || S.cpus[c].HoldOther?)
    ensures Inv(S')
  {
    assert PcOk(S, c);
    MyLocks(S, c);
    UnitStep(S, S', c, S.cpus[c].u, None, S'.cpus[c]);
  }

  lemma UnlockSteps(S: State, S': State, c: nat)
    requires Inv(S) && Step(S, S', c) && (S.cpus[c].Release? || S.cpus[c].Unlock? || S.cpus[c].UnlockPrev?)
    ensures Inv(S')
  {
    assert PcOk(S, c);
    MyLocks(S, c);
    if S.cpus[c].Release? { assert SlabOk(S, S.cpus[c].s); }
    LockStep(S, S', c, if S.cpus[c].UnlockPrev? then S.cpus[c].prev else S.cpus[c].s, Open, S'.cpus[c]);
  }

  lemma TestFullStep(S: State, S': State, c: nat)
    requires Inv(S) && Step(S, S', c) && S.cpus[c].TestFull?
    ensures Inv(S')
  {
    assert PcOk(S, c);
    MyLocks(S, c);
    SameListLinked(S, S');
    var s := S.cpus[c].s;
    assert SlabOk(S, s);
    SameCount(S.slabs[s].free, S.slabs[s].blocks);
    QuietStep(S, S', c);
  }

  lemma AdvanceStep(S: State, S': State, c: nat)
    requires Inv(S) && Step(S, S', c) && S.cpus[c].Advance?
    ensures Inv(S')
  {
    assert PcOk(S, c);
    MyLocks(S, c);
    SameListLinked(S, S');
    QuietStep(S, S', c);
  }

  lemma ReadAppendStepOk(S: State, S': State, c: nat)
    requires Inv(S) && Step(S, S', c) && S.cpus[c].ReadAppend?
    ensures Inv(S')
  {
    assert PcOk(S, c);
    MyLocks(S, c);
    SameListLinked(S, S');
    assert SlabOk(S, S.cpus[c].prev);
    QuietStep(S, S', c);
  }

  lemma SameCount(part: set<nat>, whole: set<nat>)
    requires part <= whole
    ensures |part| == |whole| <==> part == whole
  {
    assert whole == part + (whole - part);
    assert |whole| == |part| + |whole - part|;
  }

  lemma ReadHeadStepOk(S: State, S': State, c: nat)
    requires Inv(S) && Step(S, S', c) && S.cpus[c].ReadHead?
    ensures Inv(S')
  {
    assert PcOk(S, c);
    MyLocks(S, c);
    if S'.cpus[c].Idle? {
      LockStep(S, S', c, S.cpus[c].s, Open, Idle);
    } else {
      SameListLinked(S, S');
      QuietStep(S, S', c);
    }
  }

  /** The walk of recover_slab never runs off the end: what it reads leads no further than the
      slab it looks for. */
  lemma WalkStepOk(S: State, S': State, c: nat)
    requires Inv(S) && Step(S, S', c) && S.cpus[c].Walk?
    ensures Inv(S')
    ensures S.cpus[c].cur.Some?
  {
    assert PcOk(S, c);
    MyLocks(S, c);
    SameListLinked(S, S');
    assert SlabOk(S, S.cpus[c].cur.value);
    QuietStep(S, S', c);
  }

  lemma TryPrevStepOk(S: State, S': State, c: nat)
    requires Inv(S) && Step(S, S', c) && S.cpus[c].TryPrev?
    ensures Inv(S')
  {
    assert PcOk(S, c);
    MyLocks(S, c);
    var s, prev := S.cpus[c].s, S.cpus[c].prev;
    if S.slabs[prev].lock == Open {
      assert SlabOk(S, prev);
      LockStep(S, S', c, prev, HeldBy(c), S'.cpus[c]);
    } else {
      LockStep(S, S', c, s, Open, Idle);
    }
  }

  // ---------------------------------------------------------------- steps that move blocks

  /** Blocks move between slab s, which the CPU holds or takes, and the callers. */
  ghost predicate MovesBlocks(S: State, S': State, c: nat, s: nat) {
    && c < |S.cpus| && SameList(S, S') && s < |S.slabs| && S'.units == S.units
    && (forall d {:trigger S'.cpus[d]} :: 0 <= d < |S.cpus| && d != c ==> S'.cpus[d] == S.cpus[d])
    && (forall n {:trigger S'.slabs[n]} :: 0 <= n < |S.slabs| && n != s ==> S'.slabs[n] == S.slabs[n])
    && S'.slabs[s].free <= S.slabs[s].blocks && !S.slabs[s].gone
    && S'.slabs[s].lock == NewLock(S.slabs[s].lock, S.cpus[c], S'.cpus[c], s, c)
    && (S.slabs[s].lock == Open || S.slabs[s].lock == HeldBy(c))
    && (forall n {:trigger Holds(S'.cpus[c], n)} :: n != s ==> !Holds(S'.cpus[c], n) && !Holds(S.cpus[c], n))
    && !S.cpus[c].HoldPage? && !S.cpus[c].HoldGivePage? && !S'.cpus[c].HoldPage? && !S'.cpus[c].HoldGivePage?
    && !S.cpus[c].HoldOther? && !S'.cpus[c].HoldOther?
    && !S.cpus[c].Publish? && !S'.cpus[c].Publish?
    && BlocksOk(S')
    && (forall d {:trigger S.cpus[d]} :: 0 <= d < |S.cpus| && d != c && S.cpus[d].LockSlab? ==>
          IsOut(S', S.cpus[d].s, S.cpus[d].b) && (S.cpus[d].s, S.cpus[d].b) !in S'.held)
  }

  lemma MoveStep(S: State, S': State, c: nat, s: nat)
    requires Inv(S) && MovesBlocks(S, S', c, s) && Linked(S, s) && PcOk(S', c)
    ensures Inv(S')
  {
    SameListLinked(S, S');
    assert LocksOk(S') by {
      MyLocks(S, c);
      forall n, d | 0 <= n < |S'.slabs| && 0 <= d < |S'.cpus|
        ensures S'.slabs[n].lock == HeldBy(d) <==> Holds(S'.cpus[d], n)
      {
        assert S.slabs[n].lock == HeldBy(d) <==> Holds(S.cpus[d], n);
      }
      forall u, d | 0 <= u < |S'.units| && 0 <= d < |S'.cpus|
        ensures S'.units[u] == Some(d) <==> HoldsUnit(S'.cpus[d], u)
      {
        assert S.units[u] == Some(d) <==> HoldsUnit(S.cpus[d], u);
      }
    }
    forall n | 0 <= n < |S'.slabs| ensures SlabOk(S', n) { assert SlabOk(S, n); }
    forall d | 0 <= d < |S'.cpus| ensures PcOk(S', d) {
      if d != c {
        forall e, n | 0 <= e < |S.cpus| && e != c && 0 <= n < |S.slabs| && Holds(S.cpus[e], n)
          ensures S'.slabs[n].free == S.slabs[n].free
        {
          assert S.slabs[n].lock == HeldBy(e);
        }
        forall e, n | 0 <= e < |S.cpus| && e != c && 0 <= n < |S.slabs| && IsPublish(S.cpus[e], n)
          ensures S'.slabs[n].lock == S.slabs[n].lock
        {
          assert PcOk(S, e);
        }
        OthersOk(S, S', c, d);
      }
    }
    assert PcOk(S, S.owner);
  }

  lemma TakeStep(S: State, S': State, c: nat, s: nat)
    requires Inv(S) && c < |S.cpus| && s < |S.slabs| && TakeBlock(S, S', c, s)
    requires S.cpus[c] == Visit(s) || S.cpus[c] == VisitNew(s)
    ensures Inv(S')
  {
    assert PcOk(S, c);
    MyLocks(S, c);
    SameListLinked(S, S');
    assert SlabOk(S, s);
    forall d | 0 <= d < |S.cpus| && d != c && S.cpus[d].LockSlab?
      ensures IsOut(S', S.cpus[d].s, S.cpus[d].b) && (S.cpus[d].s, S.cpus[d].b) !in S'.held
    {
      assert PcOk(S, d);
    }
    assert BlocksOk(S') by {
      forall x: nat, y: nat | (x, y) in S'.held ensures IsOut(S', x, y) { assert (x, y) in S.held ==> IsOut(S, x, y); }
    }
    assert S'.cpus[c] == Unlock(s);
    forall n {:trigger Holds(S'.cpus[c], n)} | n != s ensures !Holds(S'.cpus[c], n) && !Holds(S.cpus[c], n) {}
    MoveStep(S, S', c, s);
  }

  lemma VisitStepOk(S: State, S': State, c: nat)
    requires Inv(S) && Step(S, S', c) && (S.cpus[c].Visit? || S.cpus[c].VisitNew?)
    ensures Inv(S')
  {
    var s := S.cpus[c].s;
    if S.slabs[s].free != {} {
      TakeStep(S, S', c, s);
    } else {
      assert PcOk(S, c);
      MyLocks(S, c);
      if S'.cpus[c].LockNext? {
        SameListLinked(S, S');
        QuietStep(S, S', c);
      } else {
        LockStep(S, S', c, s, Open, S'.cpus[c]);
      }
    }
  }

  lemma LockSlabStepOk(S: State, S': State, c: nat)
    requires Inv(S) && Step(S, S', c) && S.cpus[c].LockSlab?
    ensures Inv(S')
  {
    if S' != S {
      var s, b := S.cpus[c].s, S.cpus[c].b;
      assert PcOk(S, c);
      MyLocks(S, c);
      SameListLinked(S, S');
      assert SlabOk(S, s);
      forall d | 0 <= d < |S.cpus| && d != c && S.cpus[d].LockSlab?
        ensures IsOut(S', S.cpus[d].s, S.cpus[d].b) && (S.cpus[d].s, S.cpus[d].b) !in S'.held
      {
        assert PcOk(S, d);
        assert S.cpus[d] != S.cpus[c];
      }
      assert BlocksOk(S') by {
        forall x: nat, y: nat | (x, y) in S'.held ensures IsOut(S', x, y) { assert IsOut(S, x, y); }
      }
      assert S'.cpus[c] == TestFull(s);
      MoveStep(S, S', c, s);
    }
  }

  lemma StartStep(S: State, S': State, c: nat)
    requires Inv(S) && Step(S, S', c) && S.cpus[c].Idle?
    ensures Inv(S')
  {
    if S'.cpus[c].LockSlab? {
      var s, b := S'.cpus[c].s, S'.cpus[c].b;
      assert (s, b) in S.held;
      FreeStart(S, S', c, s, b);
    } else {
      OtherStart(S, S', c);
    }
  }

  lemma OtherStart(S: State, S': State, c: nat)
    requires Inv(S) && Step(S, S', c) && S.cpus[c].Idle? && !S'.cpus[c].LockSlab?
    ensures Inv(S')
  {
    var pc := S'.cpus[c];
    assert S' == SetPc(S, c, pc) && (pc.LockHead? || pc.AllocPage? || pc.OtherPage?);
    MyLocks(S, c);
    SameListLinked(S, S');
    QuietStep(S, S', c);
  }

  lemma FreeStart(S: State, S': State, c: nat, s: nat, b: nat)
    requires Inv(S) && c < |S.cpus| && S.cpus[c].Idle? && (s, b) in S.held
    requires S' == SetPc(S.(held := S.held - {(s, b)}), c, LockSlab(s, b))
    ensures Inv(S')
  {
    assert IsOut(S, s, b);
    SameListLinked(S, S');
    forall n | 0 <= n < |S'.slabs| ensures SlabOk(S', n) { assert SlabOk(S, n); }
    forall d | 0 <= d < |S'.cpus|
      ensures PcOk(S', d) && (d != c ==> S'.cpus[d] != LockSlab(s, b))
    {
      assert PcOk(S, d);
    }
    assert LocksOk(S') by {
      forall n, d | 0 <= n < |S'.slabs| && 0 <= d < |S'.cpus|
        ensures S'.slabs[n].lock == HeldBy(d) <==> Holds(S'.cpus[d], n)
      {
        assert S.slabs[n].lock == HeldBy(d) <==> Holds(S.cpus[d], n);
      }
      forall u, d | 0 <= u < |S'.units| && 0 <= d < |S'.cpus|
        ensures S'.units[u] == Some(d) <==> HoldsUnit(S'.cpus[d], u)
      {
        assert S.units[u] == Some(d) <==> HoldsUnit(S.cpus[d], u);
      }
    }
    assert BlocksOk(S') by {
      forall x: nat, y: nat | (x, y) in S'.held ensures IsOut(S', x, y) { assert IsOut(S, x, y); }
    }
    assert PcOk(S, S.owner);
  }

  // ---------------------------------------------------------------- new slabs, and slabs that go

  lemma HoldPageStepOk(S: State, S': State, c: nat)
    requires Inv(S) && Step(S, S', c) && S.cpus[c].HoldPage?
    ensures Inv(S')
  {
    assert PcOk(S, c);
    MyLocks(S, c);
    if S'.cpus[c].Publish? {
      NewSlab(S, S', c);
    } else {
      UnitStep(S, S', c, S.cpus[c].u, None, S'.cpus[c]);
    }
  }

  lemma NewSlab(S: State, S': State, c: nat)
    requires Inv(S) && Step(S, S', c) && S.cpus[c].HoldPage? && S'.cpus[c].Publish?
    ensures Inv(S')
  {
    assert PcOk(S, c);
    NewSlabSlabs(S, S', c);
    NewSlabLocks(S, S', c);
    assert BlocksOk(S') by {
      forall x: nat, y: nat | (x, y) in S'.held ensures IsOut(S', x, y) { assert IsOut(S, x, y); }
    }
    forall d | 0 <= d < |S'.cpus| ensures PcOk(S', d) {
      assert PcOk(S, d);
      assert d != c ==> S'.cpus[d] == S.cpus[d];
    }
  }

  lemma NewSlabSlabs(S: State, S': State, c: nat)
    requires Inv(S) && Step(S, S', c) && S.cpus[c].HoldPage? && S'.cpus[c].Publish?
    ensures |S'.slabs| == |S.slabs| + 1 && forall m {:trigger S'.slabs[m]} :: 0 <= m < |S.slabs| ==>
        S'.slabs[m] == S.slabs[m]
    ensures forall m: nat {:trigger Linked(S', m)} {:trigger Linked(S, m)} :: Linked(S', m) <==> Linked(S, m)
    ensures forall m {:trigger SlabOk(S', m)} :: 0 <= m < |S'.slabs| ==> SlabOk(S', m)
  {
    assert PcOk(S, c);
    var n := |S.slabs|;
    assert S'.slabs[..n] == S.slabs && forall m :: 0 <= m < n ==> S'.slabs[m] == S.slabs[m];
    assert forall m: nat {:trigger Linked(S', m)} {:trigger Linked(S, m)} :: Linked(S', m) <==> Linked(S, m);
    forall m | 0 <= m < |S'.slabs| ensures SlabOk(S', m) {
      if m < n { assert SlabOk(S, m); }
    }
  }

  lemma NewSlabLocks(S: State, S': State, c: nat)
    requires Inv(S) && Step(S, S', c) && S.cpus[c].HoldPage? && S'.cpus[c].Publish?
    ensures LocksOk(S')
  {
    var n := |S.slabs|;
    forall s, d | 0 <= s < |S'.slabs| && 0 <= d < |S'.cpus|
      ensures S'.slabs[s].lock == HeldBy(d) <==> Holds(S'.cpus[d], s)
    {
      if s < n { assert S.slabs[s].lock == HeldBy(d) <==> Holds(S.cpus[d], s); }
      if s == n && d != c && Holds(S.cpus[d], s) { AllHeldLinked(S, d, s); }
    }
    forall v, d | 0 <= v < |S'.units| && 0 <= d < |S'.cpus|
      ensures S'.units[v] == Some(d) <==> HoldsUnit(S'.cpus[d], v)
    {
      assert S.units[v] == Some(d) <==> HoldsUnit(S.cpus[d], v);
      assert S.units[v] == Some(c) <==> HoldsUnit(S.cpus[c], v);
    }
  }

  lemma AllHeldLinked(S: State, c: nat, n: nat)
    requires Inv(S) && c < |S.cpus| && Holds(S.cpus[c], n)
    ensures Linked(S, n)
  {
    assert PcOk(S, c);
    forall m | 0 <= m < |S.slabs| ensures AppendOk(S, m) { assert SlabOk(S, m); }
    HeldLinked(S, c, n);
  }

  lemma PublishStepOk(S: State, S': State, c: nat)
    requires Inv(S) && Step(S, S', c) && S.cpus[c].Publish?
    ensures Inv(S')
  {
    assert PcOk(S, c);
    var n := S.cpus[c].s;
    forall m: nat {:trigger Linked(S', m)} {:trigger Linked(S, m)} ensures Linked(S', m) <==> Linked(S, m) || m == n {
      assert m != n ==> S.cpus[S.owner] != Publish(m);
    }
    forall m | 0 <= m < |S'.slabs| ensures SlabOk(S', m) { assert SlabOk(S, m); }
    assert LocksOk(S') by {
      forall s, d | 0 <= s < |S'.slabs| && 0 <= d < |S'.cpus|
        ensures S'.slabs[s].lock == HeldBy(d) <==> Holds(S'.cpus[d], s)
      {
        assert S.slabs[s].lock == HeldBy(d) <==> Holds(S.cpus[d], s);
      }
      forall v, d | 0 <= v < |S'.units| && 0 <= d < |S'.cpus|
        ensures S'.units[v] == Some(d) <==> HoldsUnit(S'.cpus[d], v)
      {
        assert S.units[v] == Some(d) <==> HoldsUnit(S.cpus[d], v);
      }
    }
    assert BlocksOk(S') by {
      forall x: nat, y: nat | (x, y) in S'.held ensures IsOut(S', x, y) { assert IsOut(S, x, y); }
    }
    forall d | 0 <= d < |S'.cpus| ensures PcOk(S', d) { assert PcOk(S, d); }
  }

  /** Only one slab of the list leads to a given slab. */
  lemma OnePredecessor(S: State, m: nat, n: nat, s: nat)
    requires Inv(S) && Linked(S, m) && Linked(S, n) && S.slabs[m].append == Some(s) == S.slabs[n].append && Linked(S, s)
    ensures m == n
  {
    assert SlabOk(S, m) && SlabOk(S, n);
    assert AppendOk(S, m) && AppendOk(S, n);
  }

  lemma UnlinkSlabs(S: State, S': State, c: nat)
    requires Inv(S) && Step(S, S', c) && S.cpus[c].Unlink?
    ensures forall m: nat {:trigger Linked(S', m)} {:trigger Linked(S, m)} ::
        Linked(S', m) <==> Linked(S, m) && m != S.cpus[c].s
    ensures forall m {:trigger SlabOk(S', m)} :: 0 <= m < |S'.slabs| ==> SlabOk(S', m)
  {
    assert PcOk(S, c);
    var s, prev := S.cpus[c].s, S.cpus[c].prev;
    assert SlabOk(S, s) && SlabOk(S, prev);
    forall m: nat ensures Linked(S', m) <==> Linked(S, m) && m != s { }
    forall m | 0 <= m < |S'.slabs| ensures SlabOk(S', m) {
      assert SlabOk(S, m);
      if m != prev && m != s {
        if Linked(S, m) && S.slabs[m].append == Some(s) { OnePredecessor(S, m, prev, s); }
        assert PcOk(S, S.owner);
      }
    }
  }

  /** What unlinking s from behind prev changes: the append field of prev, and s itself. */
  ghost predicate Removes(S: State, S': State, c: nat, s: nat, prev: nat) {
    && S'.head == S.head && S'.held == S.held && S'.units == S.units && S'.owner == S.owner
    && |S'.cpus| == |S.cpus| && |S'.slabs| == |S.slabs|
    && (forall d {:trigger S'.cpus[d]} :: 0 <= d < |S.cpus| && d != c ==> S'.cpus[d] == S.cpus[d])
    && (forall n {:trigger S'.slabs[n]} :: 0 <= n < |S.slabs| ==>
          && S'.slabs[n].free == S.slabs[n].free && S'.slabs[n].blocks == S.slabs[n].blocks
          && (n != prev ==> S'.slabs[n].append == S.slabs[n].append)
          && (n != s ==> S'.slabs[n].lock == S.slabs[n].lock && S'.slabs[n].gone == S.slabs[n].gone))
    && (forall m: nat {:trigger Linked(S', m)} {:trigger Linked(S, m)} :: Linked(S', m) <==> Linked(S, m) && m != s)
  }

  /** A CPU that holds neither of the two slabs stays where it may be. */
  lemma UnlinkOther(S: State, S': State, c: nat, d: nat, s: nat, prev: nat)
    requires Removes(S, S', c, s, prev) && d < |S.cpus| && d != c && PcOk(S, d)
    requires Linked(S, s) && Linked(S, prev) && S.head != Some(s) && S.slabs[prev].append == Some(s)
    requires S.slabs[s].free == S.slabs[s].blocks && s < prev && !Holds(S.cpus[d], s) && !Holds(S.cpus[d], prev)
    ensures PcOk(S', d)
  {
    assert S'.cpus[d] == S.cpus[d];
  }

  lemma UnlinkLocks(S: State, S': State, c: nat)
    requires Inv(S) && Step(S, S', c) && S.cpus[c].Unlink?
    ensures LocksOk(S')
  {
    assert PcOk(S, c);
    forall m, d | 0 <= m < |S'.slabs| && 0 <= d < |S'.cpus|
      ensures S'.slabs[m].lock == HeldBy(d) <==> Holds(S'.cpus[d], m)
    {
      assert S.slabs[m].lock == HeldBy(d) <==> Holds(S.cpus[d], m);
      assert S.slabs[m].lock == HeldBy(c) <==> Holds(S.cpus[c], m);
    }
    forall v, d | 0 <= v < |S'.units| && 0 <= d < |S'.cpus|
      ensures S'.units[v] == Some(d) <==> HoldsUnit(S'.cpus[d], v)
    {
      assert S.units[v] == Some(d) <==> HoldsUnit(S.cpus[d], v);
    }
  }

  lemma UnlinkStepOk(S: State, S': State, c: nat)
    requires Inv(S) && Step(S, S', c) && S.cpus[c].Unlink?
    ensures Inv(S')
  {
    UnlinkSlabs(S, S', c);
    assert PcOk(S, c);
    var s, prev := S.cpus[c].s, S.cpus[c].prev;
    forall d | 0 <= d < |S'.cpus| ensures PcOk(S', d) {
      if d != c {
        MyLocks(S, c);
        assert PcOk(S, d) && (Holds(S.cpus[d], s) <==> S.slabs[s].lock == HeldBy(d)) &&
            (Holds(S.cpus[d], prev) <==> S.slabs[prev].lock == HeldBy(d));
        UnlinkOther(S, S', c, d, s, prev);
      }
    }
    UnlinkLocks(S, S', c);
    assert BlocksOk(S') by {
      forall x: nat, y: nat | (x, y) in S'.held ensures IsOut(S', x, y) { assert IsOut(S, x, y); }
    }
    assert PcOk(S, S.owner);
  }

  /** Whatever any CPU does next, the invariant stays. */
  lemma StepKeepsInv(S: State, S': State, c: nat)
    requires Inv(S) && Step(S, S', c)
    ensures Inv(S')
  {
    match S.cpus[c] {
      case Idle => StartStep(S, S', c);
      case LockHead(_) => SpinSteps(S, S', c);
      case Visit(_) => VisitStepOk(S, S', c);
      case LockNext(_, _) => SpinSteps(S, S', c);
      case Release(_, _) => UnlockSteps(S, S', c);
      case Advance(_, _) => AdvanceStep(S, S', c);
      case AllocPage(_) => TakeUnitStep(S, S', c);
      case HoldPage(_) => HoldPageStepOk(S, S', c);
      case Publish(_) => PublishStepOk(S, S', c);
      case LockNew(_) => SpinSteps(S, S', c);
      case VisitNew(_) => VisitStepOk(S, S', c);
      case Unlock(_) => UnlockSteps(S, S', c);
      case LockSlab(_, _) => LockSlabStepOk(S, S', c);
      case TestFull(_) => TestFullStep(S, S', c);
      case ReadHead(_) => ReadHeadStepOk(S, S', c);
      case ReadAppend(_, _) => ReadAppendStepOk(S, S', c);
      case Walk(_, _, _) => WalkStepOk(S, S', c);
      case TryPrev(_, _) => TryPrevStepOk(S, S', c);
      case Unlink(_, _) => UnlinkStepOk(S, S', c);
      case GivePage(_, _) => TakeUnitStep(S, S', c);
      case HoldGivePage(_, _) => DropUnitStep(S, S', c);
      case UnlockPrev(_) => UnlockSteps(S, S', c);
      case OtherPage(_) => TakeUnitStep(S, S', c);
      case HoldOther(_) => DropUnitStep(S, S', c);
    }
  }

  // ---------------------------------------------------------------- what holds in every run

  ghost predicate Next(S: State, S': State) {
    exists c: nat :: Step(S, S', c)
  }

  ghost predicate StepAt(run: seq<State>, i: nat) {
    0 < i < |run| && Next(run[i - 1], run[i])
  }

  ghost predicate IsRun(run: seq<State>) {
    var holds :=
      && run != [] && Init(run[0])
      && forall i {:trigger StepAt(run, i)} :: 0 < i < |run| ==> StepAt(run, i);
    holds
  }

  lemma {:induction false} RunInv(run: seq<State>, i: nat)
    requires IsRun(run) && i < |run|
    ensures Inv(run[i])
  {
    if i == 0 {
      InitInv(run[0]);
    } else {
      RunInv(run, i - 1);
      assert StepAt(run, i);
      var c: nat :| Step(run[i - 1], run[i], c);
      StepKeepsInv(run[i - 1], run[i], c);
    }
  }

  /** No CPU ever spins on the lock of a reclaimed slab. */
  lemma NeverSpinsOnGone(run: seq<State>, i: nat, c: nat)
    requires IsRun(run) && i < |run| && c < |run[i].cpus|
    ensures SpinTarget(run[i].cpus[c]).Some? ==> Linked(run[i], SpinTarget(run[i].cpus[c]).value)
  {
    RunInv(run, i);
    SpinLinked(run[i], c);
  }

  lemma SpinLinked(S: State, c: nat)
    requires Inv(S) && c < |S.cpus|
    ensures SpinTarget(S.cpus[c]).Some? ==> Linked(S, SpinTarget(S.cpus[c]).value)
  {
    assert PcOk(S, c);
    if S.cpus[c].LockNext? { assert SlabOk(S, S.cpus[c].s); }
  }

  /** Every unlinking removes a slab other than the head, whose lock the CPU holds, from behind a
      slab of the list whose lock it holds too and which links to it. */
  lemma UnlinksTheRightSlab(run: seq<State>, i: nat, c: nat)
    requires IsRun(run) && i < |run| && c < |run[i].cpus| && run[i].cpus[c].Unlink?
    ensures var S := run[i]; var s, prev := S.cpus[c].s, S.cpus[c].prev;
            && Linked(S, s) && Linked(S, prev) && S.head != Some(s) && S.slabs[prev].append == Some(s)
            && S.slabs[s].lock == HeldBy(c) && S.slabs[prev].lock == HeldBy(c)
            && S.slabs[s].free == S.slabs[s].blocks
  {
    RunInv(run, i);
    assert PcOk(run[i], c);
    MyLocks(run[i], c);
  }

  /** A reclaimed slab has no block in anybody's hands, none on its way back, and nobody changes it
      any more. */
  lemma GoneSlabIsFree(run: seq<State>, i: nat, s: nat)
    requires IsRun(run) && i < |run| && s < |run[i].slabs| && run[i].slabs[s].gone
    ensures run[i].slabs[s].free == run[i].slabs[s].blocks
    ensures forall b: nat :: (s, b) !in run[i].held
    ensures forall c, b: nat :: 0 <= c < |run[i].cpus| ==> run[i].cpus[c] != LockSlab(s, b)
    ensures i + 1 < |run| ==> s < |run[i + 1].slabs| && run[i + 1].slabs[s] == run[i].slabs[s]
  {
    RunInv(run, i);
    var S := run[i];
    assert SlabOk(S, s);
    forall b: nat ensures (s, b) !in S.held {
      assert (s, b) in S.held ==> IsOut(S, s, b);
    }
    forall c, b: nat | 0 <= c < |S.cpus| ensures S.cpus[c] != LockSlab(s, b) {
      assert PcOk(S, c);
    }
    if i + 1 < |run| {
      var S' := run[i + 1];
      assert StepAt(run, i + 1);
      var c: nat :| Step(S, S', c);
      GoneStays(S, S', c, s);
    }
  }

  lemma GoneStays(S: State, S': State, c: nat, s: nat)
    requires Inv(S) && Step(S, S', c) && s < |S.slabs| && S.slabs[s].gone
    ensures s < |S'.slabs| && S'.slabs[s] == S.slabs[s]
  {
    assert PcOk(S, c);
    assert SlabOk(S, s);
    if Holds(S.cpus[c], s) { AllHeldLinked(S, c, s); assert false; }
    SpinLinked(S, c);
  }

  /** Every append field leads to an older slab. */
  ghost predicate AppendsOlder(S: State) {
    forall m {:trigger S.slabs[m]} :: 0 <= m < |S.slabs| && S.slabs[m].append.Some? ==> S.slabs[m].append.value < m
  }

  /** The slabs reached from n along the append fields. */
  ghost function ListFrom(S: State, n: Option<nat>): (l: seq<nat>)
    requires n.Some? ==> n.value < |S.slabs|
    requires AppendsOlder(S)
    decreases if n.Some? then n.value + 1 else 0
  {
    if n.None? then [] else [n.value] + ListFrom(S, S.slabs[n.value].append)
  }

  lemma AppendsDecrease(S: State)
    requires Inv(S)
    ensures S.head.Some? ==> S.head.value < |S.slabs|
    ensures AppendsOlder(S)
  {
    forall m | 0 <= m < |S.slabs| && S.slabs[m].append.Some?
      ensures S.slabs[m].append.value < m
    {
      assert SlabOk(S, m);
    }
  }

  /** The list from n on is strictly decreasing, so acyclic, and holds exactly the linked slabs
      that are no newer than n. */
  lemma {:induction false} ListFromLinked(S: State, n: Option<nat>)
    requires Inv(S) && (n.Some? ==> Linked(S, n.value))
    requires AppendsOlder(S)
    ensures forall x: nat :: x in ListFrom(S, n) <==> n.Some? && x <= n.value && Linked(S, x)
    ensures forall i, j :: 0 <= i < j < |ListFrom(S, n)| ==> ListFrom(S, n)[i] > ListFrom(S, n)[j]
    decreases if n.Some? then n.value + 1 else 0
  {
    if n.Some? {
      assert SlabOk(S, n.value);
      var rest := ListFrom(S, S.slabs[n.value].append);
      ListFromLinked(S, S.slabs[n.value].append);
      forall x: nat ensures x in ListFrom(S, n) <==> x <= n.value && Linked(S, x) {
        assert x in ListFrom(S, n) <==> x == n.value || x in rest;
      }
      forall i, j | 0 <= i < j < |ListFrom(S, n)| ensures ListFrom(S, n)[i] > ListFrom(S, n)[j] {
        assert ListFrom(S, n)[j] == rest[j - 1] && rest[j - 1] in rest;
        if i > 0 { assert ListFrom(S, n)[i] == rest[i - 1]; }
      }
    }
  }

  /** In every reachable state the list from the head is acyclic and holds exactly the slabs that
      were made the head at some time and not reclaimed. */
  lemma ListIsExactlyTheLinked(run: seq<State>, i: nat)
    requires IsRun(run) && i < |run|
    ensures var S := run[i];
            && (S.head.Some? ==> S.head.value < |S.slabs|)
            && AppendsOlder(S)
            && (forall x: nat :: x in ListFrom(S, S.head) <==> Linked(S, x))
            && (forall j, k :: 0 <= j < k < |ListFrom(S, S.head)| ==> ListFrom(S, S.head)[j] > ListFrom(S, S.head)[k])
  {
    RunInv(run, i);
    AppendsDecrease(run[i]);
    ListFromLinked(run[i], run[i].head);
  }

  // ---------------------------------------------------------------- no deadlock

  /** The CPU spins on a lock that is set. */
  ghost predicate Blocked(S: State, c: nat) {
    && c < |S.cpus|
    && (|| (SpinTarget(S.cpus[c]).Some? && SpinTarget(S.cpus[c]).value < |S.slabs| &&
            S.slabs[SpinTarget(S.cpus[c]).value].lock != Open)
        || (WantsUnit(S.cpus[c]) && S.cpus[c].u < |S.units| && S.units[S.cpus[c].u] != None))
  }

  ghost predicate Busy(S: State, c: nat) {
    var holds :=
      c < |S.cpus| && !S.cpus[c].Idle?;
    holds
  }

  /** CPU c spins on a lock that CPU d has set. */
  ghost predicate WaitsOn(S: State, c: nat, d: nat) {
    var holds :=
      && c < |S.cpus| && d < |S.cpus|
      && ( || (SpinTarget(S.cpus[c]).Some? && SpinTarget(S.cpus[c]).value < |S.slabs|
                && S.slabs[SpinTarget(S.cpus[c]).value].lock == HeldBy(d))
           || (WantsUnit(S.cpus[c]) && S.cpus[c].u < |S.units| && S.units[S.cpus[c].u] == Some(d)));
    holds
  }

  /** The order in which locks are waited for: any slab, then the next slab of the list with one in
      hand, then a page lock. */
  ghost function Rank(S: State, c: nat): nat
    requires c < |S.cpus|
  {
    if !Blocked(S, c) then 0 else if WantsUnit(S.cpus[c]) then 1 else if S.cpus[c].LockNext? then 2 else 3
  }

  /** A waiting CPU waits for some CPU. */
  lemma BlockedWaits(S: State, c: nat) returns (d: nat)
    requires Inv(S) && c < |S.cpus| && Blocked(S, c)
    ensures WaitsOn(S, c, d)
  {
    if WantsUnit(S.cpus[c]) {
      d := S.units[S.cpus[c].u].value;
    } else {
      SpinLinked(S, c);
      var s := SpinTarget(S.cpus[c]).value;
      assert SlabOk(S, s);
      d := S.slabs[s].lock.cpu;
    }
  }

  /** The wait-for relation is well-founded: who is waited for ranks lower. So no CPUs wait on each
      other in a circle, whatever other CPUs do beside them. */
  lemma WaitsDownward(S: State, c: nat, d: nat)
    requires Inv(S) && WaitsOn(S, c, d)
    ensures Rank(S, c) > Rank(S, d)
  {
    assert PcOk(S, c) && PcOk(S, d);
    MyLocks(S, c);
    MyLocks(S, d);
    assert S.cpus[c].LockNext? ==> SlabOk(S, S.cpus[c].s);
  }

  /** Every chain of CPUs each waiting on the next is short, and a waiting CPU's own chain ends in a
      CPU that is inside the allocator and not waiting. */
  lemma {:induction false} ChainEnds(S: State, c: nat) returns (chain: seq<nat>)
    requires Inv(S) && Busy(S, c)
    ensures 1 <= |chain| <= 4 && chain[0] == c
    ensures forall k {:trigger chain[k]} :: 0 <= k < |chain| - 1 ==> WaitsOn(S, chain[k], chain[k + 1])
    ensures Busy(S, chain[|chain| - 1]) && !Blocked(S, chain[|chain| - 1])
    ensures |chain| <= Rank(S, c) + 1
    decreases Rank(S, c)
  {
    if !Blocked(S, c) { return [c]; }
    var d := BlockedWaits(S, c);
    WaitsDownward(S, c, d);
    MyLocks(S, d);
    var rest := ChainEnds(S, d);
    chain := [c] + rest;
  }

  /** Whenever some CPU is inside the allocator, one that is inside it is not waiting. */
  lemma NoDeadlock(S: State, c: nat) returns (d: nat)
    requires Inv(S) && Busy(S, c)
    ensures Busy(S, d) && !Blocked(S, d)
  {
    var chain := ChainEnds(S, c);
    d := chain[|chain| - 1];
  }

  /** CPU c takes a step that moves it on. */
  ghost predicate MovesOn(S: State, S': State, c: nat) {
    var moves := Step(S, S', c) && |S'.cpus| == |S.cpus| && S'.cpus[c] != S.cpus[c];
    moves
  }

  lemma AllocatorMoves(S: State, c: nat) returns (S': State)
    requires Inv(S) && Busy(S, c) && !Blocked(S, c) && InAlloc(S.cpus[c])
    ensures MovesOn(S, S', c)
  {
    assert PcOk(S, c);
    SpinLinked(S, c);
    match S.cpus[c] {
      case LockHead(s) => S' := SetPc(SetLock(S, s, HeldBy(c)), c, Visit(s));
      case Visit(s) =>
        if S.slabs[s].free != {} {
          var b :| b in S.slabs[s].free;
          S' := SetPc(Taken(S, s, b), c, Unlock(s));
        }
        else if S.slabs[s].append.None? { S' := SetPc(SetLock(S, s, Open), c, AllocPage(0)); }
        else { S' := SetPc(S, c, LockNext(s, S.slabs[s].append.value)); }
      case LockNext(s, n) => S' := SetPc(SetLock(S, n, HeldBy(c)), c, Release(s, n));
      case Release(s, n) => S' := SetPc(SetLock(S, s, Open), c, Advance(s, n));
      case Advance(s, n) => S' := SetPc(S, c, Visit(n));
      case AllocPage(u) => S' := SetPc(SetUnit(S, u, Some(c)), c, HoldPage(u));
      case HoldPage(u) => S' := SetPc(SetUnit(S, u, None), c, if u + 1 < |S.units| then AllocPage(u + 1) else Idle);
      case Publish(s) => S' := SetPc(S.(head := Some(s)), c, LockNew(s));
      case LockNew(s) => S' := SetPc(SetLock(S, s, HeldBy(c)), c, VisitNew(s));
      case VisitNew(s) =>
        if S.slabs[s].free != {} {
          var b :| b in S.slabs[s].free;
          S' := SetPc(Taken(S, s, b), c, Unlock(s));
        } else {
          S' := SetPc(SetLock(S, s, Open), c, Idle);
        }
    }
  }

  lemma FreerMoves(S: State, c: nat) returns (S': State)
    requires Inv(S) && Busy(S, c) && !Blocked(S, c) && !InAlloc(S.cpus[c])
    ensures MovesOn(S, S', c)
  {
    assert PcOk(S, c);
    SpinLinked(S, c);
    match S.cpus[c] {
      case Unlock(s) => S' := SetPc(SetLock(S, s, Open), c, Idle);
      case LockSlab(s, b) =>
        S' := SetPc(S.(slabs := S.slabs[s := S.slabs[s].(lock := HeldBy(c), free := S.slabs[s].free + {b})]), c,
            TestFull(s));
      case TestFull(s) =>
        S' := SetPc(S, c, if |S.slabs[s].free| == |S.slabs[s].blocks| then ReadHead(s) else Unlock(s));
      case ReadHead(s) =>
        S' := if S.head.value == s then SetPc(Spared(S, s), c, Idle)
              else SetPc(S, c, ReadAppend(s, S.head.value));
      case ReadAppend(s, prev) => S' := SetPc(S, c, Walk(s, prev, S.slabs[prev].append));
      case Walk(s, prev, cur) =>
        S' := if cur.value == s then SetPc(S, c, TryPrev(s, prev))
              else SetPc(S, c, Walk(s, cur.value, S.slabs[cur.value].append));
      case TryPrev(s, prev) =>
        S' := if S.slabs[prev].lock == Open then SetPc(SetLock(S, prev, HeldBy(c)), c, Unlink(s, prev))
              else SetPc(Spared(S, s), c, Idle);
      case Unlink(s, prev) =>
        S' := SetPc(S.(slabs := S.slabs[prev := S.slabs[prev].(append := S.slabs[s].append)]
                                       [s := S.slabs[s].(lock := LeftSet, gone := true)]), c, GivePage(prev, 0));
      case GivePage(prev, u) => S' := SetPc(SetUnit(S, u, Some(c)), c, HoldGivePage(prev, u));
      case HoldGivePage(prev, u) => S' := SetPc(SetUnit(S, u, None), c, UnlockPrev(prev));
      case UnlockPrev(prev) => S' := SetPc(SetLock(S, prev, Open), c, Idle);
      case OtherPage(u) => S' := SetPc(SetUnit(S, u, Some(c)), c, HoldOther(u));
      case HoldOther(u) => S' := SetPc(SetUnit(S, u, None), c, Idle);
    }
  }

  /** And a CPU that is not waiting can take a step that moves it on. */
  lemma NotBlockedMoves(S: State, c: nat) returns (S': State)
    requires Inv(S) && Busy(S, c) && !Blocked(S, c)
    ensures MovesOn(S, S', c)
  {
    if InAlloc(S.cpus[c]) { S' := AllocatorMoves(S, c); } else { S' := FreerMoves(S, c); }
  }

  // ---------------------------------------------------------------- a run in which a slab is reclaimed

  function Alone(slabs: seq<Slab>, head: Option<nat>, held: set<(nat, nat)>, unit: Option<nat>, pc: Pc): State {
    State(slabs, head, held, [unit], [pc], 0, {})
  }

  /** A slab of one block that is free. */
  function Whole(l: Lock, append: Option<nat>): Slab {
    Slab(l, append, {0}, {0}, false)
  }

  /** A slab of one block that is not. */
  function Drained(l: Lock, append: Option<nat>): Slab {
    Slab(l, append, {0}, {}, false)
  }

  /** One CPU takes the only block of a slab, makes a second slab, and gives the first block back. */
  function Example(i: nat): State {
    if i == 0 then Alone([], None, {}, None, Idle)
    else if i == 1 then Alone([], None, {}, None, AllocPage(0))
    else if i == 2 then Alone([], None, {}, Some(0), HoldPage(0))
    else if i == 3 then Alone([Whole(Open, None)], None, {}, None, Publish(0))
    else if i == 4 then Alone([Whole(Open, None)], Some(0), {}, None, LockNew(0))
    else if i == 5 then Alone([Whole(HeldBy(0), None)], Some(0), {}, None, VisitNew(0))
    else if i == 6 then Alone([Drained(HeldBy(0), None)], Some(0), {(0, 0)}, None, Unlock(0))
    else if i == 7 then Alone([Drained(Open, None)], Some(0), {(0, 0)}, None, Idle)
    else if i == 8 then Alone([Drained(Open, None)], Some(0), {(0, 0)}, None, LockHead(0))
    else if i == 9 then Alone([Drained(HeldBy(0), None)], Some(0), {(0, 0)}, None, Visit(0))
    else if i == 10 then Alone([Drained(Open, None)], Some(0), {(0, 0)}, None, AllocPage(0))
    else if i == 11 then Alone([Drained(Open, None)], Some(0), {(0, 0)}, Some(0), HoldPage(0))
    else if i == 12 then Alone([Drained(Open, None), Whole(Open, Some(0))], Some(0), {(0, 0)}, None, Publish(1))
    else if i == 13 then Alone([Drained(Open, None), Whole(Open, Some(0))], Some(1), {(0, 0)}, None, LockNew(1))
    else if i == 14 then
      Alone([Drained(Open, None), Whole(HeldBy(0), Some(0))], Some(1), {(0, 0)}, None, VisitNew(1))
    else if i == 15 then
      Alone([Drained(Open, None), Drained(HeldBy(0), Some(0))], Some(1), {(0, 0), (1, 0)}, None, Unlock(1))
    else if i == 16 then
      Alone([Drained(Open, None), Drained(Open, Some(0))], Some(1), {(0, 0), (1, 0)}, None, Idle)
    else if i == 17 then
      Alone([Drained(Open, None), Drained(Open, Some(0))], Some(1), {(1, 0)}, None, LockSlab(0, 0))
    else if i == 18 then
      Alone([Whole(HeldBy(0), None), Drained(Open, Some(0))], Some(1), {(1, 0)}, None, TestFull(0))
    else if i == 19 then
      Alone([Whole(HeldBy(0), None), Drained(Open, Some(0))], Some(1), {(1, 0)}, None, ReadHead(0))
    else if i == 20 then
      Alone([Whole(HeldBy(0), None), Drained(Open, Some(0))], Some(1), {(1, 0)}, None, ReadAppend(0, 1))
    else if i == 21 then
      Alone([Whole(HeldBy(0), None), Drained(Open, Some(0))], Some(1), {(1, 0)}, None, Walk(0, 1, Some(0)))
    else if i == 22 then
      Alone([Whole(HeldBy(0), None), Drained(Open, Some(0))], Some(1), {(1, 0)}, None, TryPrev(0, 1))
    else if i == 23 then
      Alone([Whole(HeldBy(0), None), Drained(HeldBy(0), Some(0))], Some(1), {(1, 0)}, None, Unlink(0, 1))
    else Alone([Slab(LeftSet, None, {0}, {0}, true), Drained(HeldBy(0), None)], Some(1), {(1, 0)}, None, GivePage(1, 0))
  }

  lemma ExampleFrom0(i: nat)
    ensures i < 4 ==> Step(Example(i), Example(i + 1), 0)
  {
  }

  lemma TakeExample(S: State, S': State, s: nat)
    requires |S.cpus| > 0 && s < |S.slabs| && 0 in S.slabs[s].free
    requires S' == SetPc(Taken(S, s, 0), 0, Unlock(s))
    ensures TakeBlock(S, S', 0, s)
  {
  }

  lemma ExampleFrom4(i: nat)
    ensures 4 <= i < 8 ==> Step(Example(i), Example(i + 1), 0)
  {
    var none: set<nat> := {};
    assert {0} - {0} == none;
    assert i == 5 ==> 0 in Example(5).slabs[0].free && TakeBlock(Example(5), Example(6), 0, 0) by {
      TakeExample(Example(5), Example(6), 0);
    }
  }

  lemma ExampleFrom8(i: nat)
    ensures 8 <= i < 12 ==> Step(Example(i), Example(i + 1), 0)
  {
  }

  lemma ExampleFrom12(i: nat)
    ensures 12 <= i < 16 ==> Step(Example(i), Example(i + 1), 0)
  {
    var none: set<nat> := {};
    assert {0} - {0} == none;
    assert i == 14 ==> 0 in Example(14).slabs[1].free && TakeBlock(Example(14), Example(15), 0, 1) by {
      TakeExample(Example(14), Example(15), 1);
    }
  }

  lemma ExampleFrom16(i: nat)
    ensures 16 <= i < 20 ==> Step(Example(i), Example(i + 1), 0)
  {
    var none: set<nat> := {};
    assert none + {0} == {0};
    assert i == 17 ==> Example(17).slabs[0].free + {0} == {0};
  }

  lemma ExampleFrom20(i: nat)
    ensures 20 <= i < 22 ==> Step(Example(i), Example(i + 1), 0)
  {
  }

  lemma ExampleFrom22(i: nat)
    ensures 22 <= i < 24 ==> Step(Example(i), Example(i + 1), 0)
  {
  }

  lemma ExampleStep(i: nat)
    requires i < 24
    ensures Step(Example(i), Example(i + 1), 0)
  {
    if i < 4 {
      ExampleFrom0(i);
    } else if i < 8 {
      ExampleFrom4(i);
    } else if i < 12 {
      ExampleFrom8(i);
    } else if i < 16 {
      ExampleFrom12(i);
    } else if i < 20 {
      ExampleFrom16(i);
    } else if i < 22 {
      ExampleFrom20(i);
    } else {
      ExampleFrom22(i);
    }
  }

  /** Slab s has left the list, and another is the head. */
  ghost predicate Reclaimed(S: State, s: nat) {
    var holds := s < |S.slabs| && S.slabs[s].gone && S.head.Some? && S.head.value != s;
    holds
  }

  /** Slabs are reclaimed: the first one has left the list at the end. */
  lemma ReclaimHappens() returns (run: seq<State>)
    ensures IsRun(run) && Reclaimed(run[|run| - 1], 0)
  {
    run := seq(25, i requires 0 <= i => Example(i));
    forall i {:trigger StepAt(run, i)} | 0 < i < |run| ensures StepAt(run, i) {
      ExampleStep(i - 1);
    }
  }
}
