/** The slab layer over the page layer, and the kernel's allocator on top of both
    (kernel/src/slab.c, kernel/src/pmm.c): `kalloc` and `kfree` behave like an allocator that
    just keeps a set of live blocks. */
module Pmm {
  import opened Words
  import opened PageAllocator
  import opened SlabHeap
  import BuddyTree

  // ---------------------------------------------------------------- size classes

  /** trans_slab_size's class for a request, S_REFUSE if it is larger than any slab block. */
  function SlabClass(size: nat): nat {
    FirstFit(size, S_8B, S_REFUSE)
  }

  /** The class of the block a request gets. */
  function RequestClass(size: nat): nat {
    if SlabClass(size) == S_REFUSE then PageClass(size) else SlabClass(size)
  }

  /** The two layers together pick the smallest class of at least 8 bytes that covers the
      request, and the slab layer serves exactly the requests up to 2K. */
  lemma RequestClassIsFirstFit(size: nat)
    ensures RequestClass(size) == FirstFit(size, S_8B, BuddyTree.P_REFUSE)
    ensures RequestClass(size) >= 12 <==> size > Pow2(11)
  {
    FirstFitSmallest(size, S_8B, S_REFUSE);
    FirstFitSplit(size, S_8B, S_REFUSE, BuddyTree.P_REFUSE);
    if SlabClass(size) < S_REFUSE { Pow2Monotone(SlabClass(size), 11); }
  }

  lemma {:induction false} FirstFitSplit(size: nat, lo: nat, mid: nat, hi: nat)
    requires lo <= mid <= hi
    ensures FirstFit(size, lo, hi) ==
        if FirstFit(size, lo, mid) < mid then FirstFit(size, lo, mid) else FirstFit(size, mid, hi)
    decreases mid - lo
  {
    if lo < mid && size > Pow2(lo) {
      FirstFitSplit(size, lo + 1, mid, hi);
    }
  }

  // ---------------------------------------------------------------- pages of slabs and of callers

  ghost predicate IsSlabPage(headers: map<nat, Slab>, b: Block) {
    b.k == 12 && b.addr in headers
  }

  /** Every slab and every page block of a caller is a handed-out block of the page layer, and
      never both; with the intended guard of page_free there are no others. */
  ghost predicate PagesOk(base: nat, ts: seq<BuddyTree.Entries>, headers: map<nat, Slab>, userPages: set<Block>,
          guard: FreeGuard) {
    && (forall s {:trigger s in headers} :: s in headers ==> IsBlock(base, ts, Block(s, 12)))
    && (forall b {:trigger b in userPages} :: b in userPages ==> IsBlock(base, ts, b) && !IsSlabPage(headers, b))
    && (guard == Intended ==>
          forall b {:trigger IsBlock(base, ts, b)} :: IsBlock(base, ts, b) ==> b in userPages || IsSlabPage(headers, b))
  }

  lemma PagesForSlab(base: nat, ts: seq<BuddyTree.Entries>, ts': seq<BuddyTree.Entries>, s: nat,
                     headers: map<nat, Slab>, headers': map<nat, Slab>, userPages: set<Block>, guard: FreeGuard)
    requires PagesOk(base, ts, headers, userPages, guard) && IsNewBlock(base, ts, ts', Block(s, 12))
    requires headers'.Keys == headers.Keys + {s}
    ensures s !in headers && PagesOk(base, ts', headers', userPages, guard)
  {
    forall b | b in userPages ensures IsBlock(base, ts', b) && !IsSlabPage(headers', b) {
      assert IsBlock(base, ts, b);
    }
  }

  lemma PagesForUser(base: nat, ts: seq<BuddyTree.Entries>, ts': seq<BuddyTree.Entries>, b: Block,
                     headers: map<nat, Slab>, userPages: set<Block>, guard: FreeGuard)
    requires PagesOk(base, ts, headers, userPages, guard) && IsNewBlock(base, ts, ts', b)
    ensures PagesOk(base, ts', headers, userPages + {b}, guard)
    ensures forall l :: Block(b.addr, l) !in userPages
  {
  }

  /** A block leaves the slabs or the callers; the page layer took it back, or, with the guard as
      written, did nothing. */
  lemma PagesGivenUp(base: nat, ts: seq<BuddyTree.Entries>, ts': seq<BuddyTree.Entries>, b: Block,
                     headers: map<nat, Slab>, headers': map<nat, Slab>,
                     userPages: set<Block>, userPages': set<Block>, guard: FreeGuard)
    requires PagesOk(base, ts, headers, userPages, guard)
    requires guard == AsWritten ==> ts' == ts
    requires guard == Intended ==> BlockRemoved(base, ts, ts', b)
    requires headers'.Keys <= headers.Keys && userPages' <= userPages
    requires b !in userPages' && !IsSlabPage(headers', b)
    requires forall x :: x != b ==>
        (x in userPages' <==> x in userPages) && (IsSlabPage(headers', x) <==> IsSlabPage(headers, x))
    ensures PagesOk(base, ts', headers', userPages', guard)
  {
    forall s | s in headers' ensures IsBlock(base, ts', Block(s, 12)) {
      assert IsSlabPage(headers', Block(s, 12));
    }
  }

  /** The page layer took block b back, or, with the guard as written, kept it handed out. */
  ghost predicate GivenUp(base: nat, ts: seq<BuddyTree.Entries>, ts': seq<BuddyTree.Entries>, b: Block,
          guard: FreeGuard) {
    if guard == Intended then BlockRemoved(base, ts, ts', b) else ts' == ts
  }

  /** The list holds one slab, all of its blocks free; or nothing, as none says may be. */
  ghost predicate MadeIn(H: Heap, id: ListId, none: bool) {
    && id in H.lists
    && if H.lists[id] == [] then none
       else
         && |H.lists[id]| == 1 && H.lists[id][0] in H.headers
         && H.headers[H.lists[id][0]].freeBlockNum == H.headers[H.lists[id][0]].blockNum
  }

  lemma EmptyList(H: Heap, id: ListId)
    requires HeapOk(H) && id in H.lists && id in H.heads && H.heads[id] == 0
    ensures H.lists[id] == [] && 0 !in H.headers
  {
    assert ListOk(H, id);
    assert 0 in H.headers ==> SlabOk(H, 0);
  }

  ghost predicate EmptyFrom(heads: map<ListId, nat>, cpu: nat, t: nat) {
    forall id: ListId {:trigger heads[id]} :: id in heads && (id.cpu > cpu || (id.cpu == cpu && id.type_ >= t)) ==>
        heads[id] == 0
  }

  lemma EmptyAfter(heads: map<ListId, nat>, heads': map<ListId, nat>, cpu: nat, t: nat, s: nat)
    requires EmptyFrom(heads, cpu, t) && heads' == if s == 0 then heads else heads[ListId(cpu, t) := s]
    ensures EmptyFrom(heads', cpu, t + 1)
  {
  }

  ghost predicate MadeUpTo(H: Heap, cpuCount: nat, cpu: nat, size: nat, none: bool) {
    forall c: nat, t: nat {:trigger ListId(c, t)} ::
        c < cpuCount && IsSlabType(t) && (c < cpu || (c == cpu && t < size)) ==> MadeIn(H, ListId(c, t), none)
  }

  /** slab_init of one list; s is what it returned. */
  lemma OneMore(H: Heap, H': Heap, cpuCount: nat, cpu: nat, size: nat, s: nat, none: bool, none': bool)
    requires MadeUpTo(H, cpuCount, cpu, size, none) && cpu < cpuCount && IsSlabType(size)
    requires var id := ListId(cpu, size); id in H.lists && H.lists[id] == [] && (s == 0 <==> none) && (s == 0 ==> none')
    requires if s == 0 then H' == H else IsFreshSlab(H, H', s, ListId(cpu, size))
    ensures MadeUpTo(H', cpuCount, cpu, size + 1, none')
  {
    forall c: nat, t: nat {:trigger ListId(c, t)} | c < cpuCount && IsSlabType(t) &&
        (c < cpu || (c == cpu && t < size + 1))
      ensures MadeIn(H', ListId(c, t), none')
    {
      var other := ListId(c, t);
      assert other != ListId(cpu, size) ==> MadeIn(H, other, none);
    }
  }

  /** Slab s, the one behind the i-th of its list, was linked past and is no slab any more. */
  ghost predicate IsUnlink(H: Heap, H': Heap, s: nat, i: nat) {
    s in H.headers &&
    var id := IdOf(H.headers[s]);
    && id in H.lists && i + 1 < |H.lists[id]| && H.lists[id][i] in H.headers && H.lists[id][i + 1] == s
    && H' == Unlinked(H, id, i)
  }

  /** The slab lists of n CPUs. */
  function AllIds(n: nat): set<ListId> {
    set c: nat, t: nat | c < n && S_8B <= t < S_REFUSE :: ListId(c, t)
  }

  /** p is a handed-out block of 2^k bytes of the slab its masked address names. */
  ghost predicate OutAt(headers: map<nat, Slab>, out: set<nat>, p: nat, k: nat) {
    p in out && AlignDown(p, 12) in headers && headers[AlignDown(p, 12)].type_ == k
  }

  /** Every slab of was is still there with its block size. */
  ghost predicate SlabsKept(was: map<nat, Slab>, headers: map<nat, Slab>) {
    forall s {:trigger s in was} :: s in was ==> s in headers && headers[s].type_ == was[s].type_
  }

  /** The bytes [p, p + 2^k) are in a caller's hands. */
  ghost predicate LiveIn(headers: map<nat, Slab>, out: set<nat>, userPages: set<Block>, p: nat, k: nat) {
    OutAt(headers, out, p, k) || Block(p, k) in userPages
  }

  /** The blocks in the callers' hands: blocks of the page layer, and blocks of slabs. */
  ghost function LiveBlocks(headers: map<nat, Slab>, out: set<nat>, userPages: set<Block>): set<Block> {
    userPages + set p | p in out && AlignDown(p, 12) in headers :: Block(p, headers[AlignDown(p, 12)].type_)
  }

  lemma LiveBlocksAre(headers: map<nat, Slab>, out: set<nat>, userPages: set<Block>, p: nat, k: nat)
    ensures Block(p, k) in LiveBlocks(headers, out, userPages) <==> LiveIn(headers, out, userPages, p, k)
  {
  }

  lemma NoneLive(headers: map<nat, Slab>)
    ensures LiveBlocks(headers, {}, {}) == {}
  {
  }

  /** The callers gained the block of 2^k bytes at r and no other, or nothing if r is NULL. */
  ghost predicate Gains(live: set<Block>, live': set<Block>, r: Option<nat>, k: nat) {
    if r == None then live' == live
    else Block(r.value, k) !in live && live' == live + {Block(r.value, k)}
  }

  lemma PageGained(headers: map<nat, Slab>, out: set<nat>, userPages: set<Block>, b: Block)
    requires b.addr !in out && b !in userPages
    ensures Gains(LiveBlocks(headers, out, userPages), LiveBlocks(headers, out, userPages + {b}), Some(b.addr), b.k)
  {
  }

  lemma SlabBlockGained(H: Heap, headers: map<nat, Slab>, out: set<nat>, userPages: set<Block>, a: nat, k: nat)
    requires SlabsOk(H) && SlabsKept(H.headers, headers)
    requires out == H.out + {a} && a !in H.out && OutAt(headers, out, a, k)
    requires Block(a, k) !in userPages
    ensures Gains(LiveBlocks(H.headers, H.out, userPages), LiveBlocks(headers, out, userPages), Some(a), k)
  {
    OutAfterTake(H, headers, out, a, k);
    forall b: Block
      ensures b in LiveBlocks(headers, out, userPages) <==>
              b in LiveBlocks(H.headers, H.out, userPages) || b == Block(a, k)
    {
      LiveBlocksAre(headers, out, userPages, b.addr, b.k);
      LiveBlocksAre(H.headers, H.out, userPages, b.addr, b.k);
    }
  }

  lemma OutAfterTake(H: Heap, headers: map<nat, Slab>, out: set<nat>, a: nat, t: nat)
    requires SlabsOk(H) && SlabsKept(H.headers, headers)
    requires out == H.out + {a} && a !in H.out && OutAt(headers, out, a, t)
    ensures forall p: nat, l: nat :: OutAt(headers, out, p, l) <==> OutAt(H.headers, H.out, p, l) || (p == a && l == t)
  {
    forall p: nat, l: nat ensures OutAt(headers, out, p, l) <==> OutAt(H.headers, H.out, p, l) || (p == a && l == t) {
      assert p in H.out ==> OutOk(H, p);
    }
  }

  /** Every handed-out block lies in a slab. */
  ghost predicate Housed(headers: map<nat, Slab>, out: set<nat>) {
    forall p {:trigger p in out} :: p in out ==> AlignDown(p, 12) in headers
  }

  /** New slabs on the way make no block live. */
  lemma NewSlabsOnTheWay(was: map<nat, Slab>, headers: map<nat, Slab>, out: set<nat>, userPages: set<Block>)
    requires Housed(was, out) && SlabsKept(was, headers)
    ensures LiveBlocks(headers, out, userPages) == LiveBlocks(was, out, userPages)
  {
    forall b: Block ensures b in LiveBlocks(headers, out, userPages) <==> b in LiveBlocks(was, out, userPages) {
      LiveBlocksAre(headers, out, userPages, b.addr, b.k);
      LiveBlocksAre(was, out, userPages, b.addr, b.k);
      assert b.addr in out ==> AlignDown(b.addr, 12) in was;
    }
  }

  /** What a caller may rely on for the block at a that it got for a request: room, alignment to the
      smallest class of at least 8 bytes that covers the request, 4096-alignment exactly above 2K,
      and no byte shared with a block that was live before or with a slab's header. */
  ghost predicate Serves(live: set<Block>, headers: map<nat, Slab>, a: nat, size: nat) {
    var k := RequestClass(size);
    && size <= Pow2(k) && Aligned(a, k) && (Aligned(a, 12) <==> size > Pow2(11))
    && (forall b {:trigger b in live} :: b in live ==> BytesDisjoint(b.addr, Pow2(b.k), a, Pow2(k)))
    && (forall s {:trigger s in headers} :: s in headers ==> BytesDisjoint(a, Pow2(k), s, SLAB_HEADER))
  }

  /** The words in the given blocks are what they were. */
  ghost predicate WordsKeptIn(next: map<nat, nat>, next': map<nat, nat>, blocks: set<Block>) {
    var holds :=
      forall b, x: nat {:trigger b in blocks, SameWord(next, next', x)} ::
          b in blocks && b.addr <= x < b.addr + Pow2(b.k) ==> SameWord(next, next', x);
    holds
  }

  /** Block a is back in slab s, from H to H'. */
  ghost predicate Back(H: Heap, H': Heap, s: nat, a: nat) {
    var holds :=
      && s in H'.headers && H'.headers[s].freeBlockNum <= H'.headers[s].blockNum && H'.headers.Keys == H.headers.Keys
      && (Tidy(H) ==> TidyBut(H', s))
      && (Tidy(H) && H'.headers[s].freeBlockNum < H'.headers[s].blockNum ==> Tidy(H'))
      && H'.out == H.out - {a} && SlabsKept(H'.headers, H.headers) && WordsKept(H.next, H'.next, {a})
      && (LastOfSlab(H, a) <==> H'.headers[s].freeBlockNum == H'.headers[s].blockNum && !IsFirst(H', s));
    holds
  }

  /** The same, and the slab is gone if nothing kept it. */
  ghost predicate BackAndRecovered(H: Heap, H': Heap, s: nat, a: nat, prevFree: bool) {
    var holds :=
      && H'.headers.Keys == H.headers.Keys - (if LastOfSlab(H, a) && prevFree then {s} else {})
      && (Tidy(H) && prevFree ==> Tidy(H'))
      && H'.out == H.out - {a} && SlabsKept(H'.headers, H.headers) && WordsKept(H.next, H'.next, {a});
    holds
  }

  /** What recover_slab leaves of a slab that has all of its blocks back. */
  ghost predicate Recovered(M: Heap, H': Heap, s: nat, prevFree: bool) {
    var holds :=
      && s in M.headers
      && (TidyBut(M, s) && (IsFirst(M, s) || prevFree) ==> Tidy(H'))
      && if IsFirst(M, s) || !prevFree then H' == M else exists i: nat :: IsUnlink(M, H', s, i);
    holds
  }

  lemma BackThenRecovered(H: Heap, M: Heap, H': Heap, s: nat, a: nat, prevFree: bool)
    requires Back(H, M, s, a)
    requires if M.headers[s].freeBlockNum == M.headers[s].blockNum then Recovered(M, H', s, prevFree) else H' == M
    ensures BackAndRecovered(H, H', s, a, prevFree)
  {
    if H' != M {
      var i: nat :| IsUnlink(M, H', s, i);
      assert H'.headers.Keys == M.headers.Keys - {s};
    }
  }

  /** What the callers see of a block's return to its slab. */
  lemma ReturnedShows(H: Heap, s: nat, a: nat)
    requires HeapOk(H) && a in H.out && s == AlignDown(a, 12)
    ensures SlabOk(H, s) && HeapOk(Returned(H, s, a))
    ensures Back(H, Returned(H, s, a), s, a)
  {
    ReturnedOk(H, s, a);
    if Tidy(H) { ReturnedTidy(H, s, a); }
  }

  /** The slab of block a has no other block in use and is not the first of its list. */
  ghost predicate LastOfSlab(H: Heap, a: nat) {
    var s := AlignDown(a, 12);
    s in H.headers && H.headers[s].freeBlockNum + 1 == H.headers[s].blockNum && !IsFirst(H, s)
  }

  /** No block of these has the byte at p. */
  ghost predicate Elsewhere(p: nat, blocks: set<Block>) {
    forall b {:trigger b in blocks} :: b in blocks ==> p < b.addr || b.addr + Pow2(b.k) <= p
  }

  lemma KeptElsewhere(next: map<nat, nat>, next': map<nat, nat>, p: nat, blocks: set<Block>)
    requires WordsKept(next, next', {p}) && Elsewhere(p, blocks)
    ensures WordsKeptIn(next, next', blocks)
  {
  }

  /** Slab s may serve a request for a block of list id: it is the first of the list with a free block;
      or, none having any, it is new and was put before them all. */
  ghost predicate Chosen(H: Heap, H': Heap, id: ListId, s: nat) {
    if NoRoom(H, id) then IsFreshSlab(H, H', s, id) else H' == H && FirstWithRoom(H, id, s)
  }

  /** The block at a was taken from list id: a free block of its first slab that has one; or, none having
      any, of a new slab that now stands before them all. No other slab has changed. */
  ghost predicate FromList(H: Heap, H': Heap, id: ListId, a: nat) {
    var holds :=
      var s := AlignDown(a, 12);
      && id in H.lists && s in H'.headers && IdOf(H'.headers[s]) == id && H'.out == H.out + {a}
      && (if NoRoom(H, id) then
            && s !in H.headers && H'.lists == H.lists[id := [s] + H.lists[id]]
            && H'.headers[s].freeBlockNum + 1 == H'.headers[s].blockNum
          else
            && FirstWithRoom(H, id, s) && H'.lists == H.lists && s in H.free && a in H.free[s]
            && H'.headers[s].freeBlockNum + 1 == H.headers[s].freeBlockNum)
      && forall x {:trigger x in H.headers} :: x in H.headers && x != s ==>
          x in H'.headers && H'.headers[x] == H.headers[x] && x in H.free && x in H'.free && H'.free[x] == H.free[x];
    holds
  }

  lemma ChosenTaken(H: Heap, M: Heap, id: ListId, s: nat)
    requires HeapOk(H) && HeapOk(M) && Chosen(H, M, id, s) && SlabOk(M, s) && HasRoom(M, s)
    ensures FromList(H, Taken(M, s), id, M.headers[s].freeList)
  {
    assert ListOk(M, id);
    assert !NoRoom(H, id) ==> s in H.lists[id];
    TakenSlab(M, s);
    forall x | x in H.headers && x != s
      ensures x in M.headers && M.headers[x] == H.headers[x] && x in H.free && x in M.free && M.free[x] == H.free[x]
    {
      assert SlabOk(H, x);
    }
  }

  lemma PageLost(headers: map<nat, Slab>, out: set<nat>, userPages: set<Block>, b: Block)
    requires b.addr !in out && b in userPages
    ensures LiveBlocks(headers, out, userPages - {b}) == LiveBlocks(headers, out, userPages) - {b}
  {
  }

  lemma SlabBlockLost(H: Heap, headers: map<nat, Slab>, out: set<nat>, userPages: set<Block>, a: nat, k: nat)
    requires SlabsOk(H) && out == H.out - {a} && OutAt(H.headers, H.out, a, k)
    requires SlabsKept(headers, H.headers) && (forall p :: p in out ==> AlignDown(p, 12) in headers)
    requires Block(a, k) !in userPages
    ensures LiveBlocks(headers, out, userPages) == LiveBlocks(H.headers, H.out, userPages) - {Block(a, k)}
  {
    OutAfterReturn(H, headers, out, a);
    forall b: Block
      ensures b in LiveBlocks(headers, out, userPages) <==>
              b in LiveBlocks(H.headers, H.out, userPages) && b != Block(a, k)
    {
      LiveBlocksAre(headers, out, userPages, b.addr, b.k);
      LiveBlocksAre(H.headers, H.out, userPages, b.addr, b.k);
    }
  }

  /** Giving a block back, and possibly its slab with it, touches no other handed-out block. */
  lemma OutAfterReturn(H: Heap, headers: map<nat, Slab>, out: set<nat>, a: nat)
    requires SlabsOk(H) && out == H.out - {a}
    requires SlabsKept(headers, H.headers) && (forall p :: p in out ==> AlignDown(p, 12) in headers)
    ensures forall p: nat, l: nat :: OutAt(headers, out, p, l) <==> OutAt(H.headers, H.out, p, l) && p != a
  {
    forall p: nat, l: nat ensures OutAt(headers, out, p, l) <==> OutAt(H.headers, H.out, p, l) && p != a {
      assert p in H.out ==> OutOk(H, p);
    }
  }

  lemma PartsDisjoint(b: Block, c: Block, p: nat, n: nat, q: nat, m: nat)
    requires BlocksDisjoint(b, c) && n > 0 && m > 0
    requires b.addr <= p && p + n <= b.addr + Pow2(b.k) && c.addr <= q && q + m <= c.addr + Pow2(c.k)
    ensures BytesDisjoint(p, n, q, m) && p != q
  {
  }

  class SlabSystem {
    const pages: PageSystem
    const guard: FreeGuard
    const cpuCount: nat

    var headers: map<nat, Slab>
    var next: map<nat, nat>                 // the first word of every block
    var slabsOfCpu: map<ListId, nat>

    ghost var free: map<nat, seq<nat>>
    ghost var lists: map<ListId, seq<nat>>
    ghost var out: set<nat>                 // slab blocks in the callers' hands
    ghost var userPages: set<Block>         // page blocks in the callers' hands

    ghost function State(): Heap
      reads `headers, `next, `slabsOfCpu, `free, `lists, `out
    {
      Heap(headers, next, slabsOfCpu, free, lists, out)
    }

    ghost predicate IdsOk()
      reads `slabsOfCpu, `lists
    {
      && slabsOfCpu.Keys == lists.Keys
      && (forall c: nat, t: nat {:trigger ListId(c, t)} :: c < cpuCount && IsSlabType(t) ==>
            ListId(c, t) in slabsOfCpu && ListId(c, t) in lists)
    }

    ghost predicate Valid()
      reads this, pages, pages.Repr()
    {
      && pages.Valid() && HeapOk(State()) && IdsOk()
      && PagesOk(pages.beginAllocAddr, pages.Trees(), headers, userPages, guard)
    }

    /** A caller holds the 2^k bytes from p on. */
    ghost predicate LiveAt(p: nat, k: nat)
      reads this
    {
      LiveIn(headers, out, userPages, p, k)
    }

    /** The blocks in the callers' hands. */
    ghost function Live(): set<Block>
      reads `headers, `out, `userPages
    {
      LiveBlocks(headers, out, userPages)
    }

    ghost predicate IsOut(p: nat, k: nat)
      reads this
    {
      OutAt(headers, out, p, k)
    }

    constructor (begin: nat, end: nat, cpuCount: nat, guard: FreeGuard)
      requires Aligned(begin, BuddyTree.P_16M)
      requires end <= begin + PHSICS_UNIT + (MAX_PAGE_NUM + 1) * PHSICS_UNIT
      ensures Valid() && fresh(pages) && fresh(pages.Repr())
      ensures this.cpuCount == cpuCount && this.guard == guard
      ensures out == {} && userPages == {} && headers == map[]
      ensures pages.beginAllocAddr == begin + PHSICS_UNIT && (pages.End() <= end || |pages.pool| == 0)
      ensures end < pages.End() + PHSICS_UNIT
      ensures UntouchedFrom(0, S_8B)
    {
      pages := new PageSystem(begin, end);
      this.guard := guard;
      this.cpuCount := cpuCount;
      headers, next, free, out, userPages := map[], map[], map[], {}, {};
      slabsOfCpu := map id | id in AllIds(cpuCount) :: 0;
      lists := map id | id in AllIds(cpuCount) :: [];
      new;
      forall c: nat, t: nat | c < cpuCount && IsSlabType(t) ensures ListId(c, t) in AllIds(cpuCount) { }
      forall b ensures !IsBlock(pages.beginAllocAddr, pages.Trees(), b) { assert !pages.Handed(b); }
      assert HeapOk(State()) by {
        forall id | id in lists ensures ListOk(State(), id) { }
      }
    }

    // -------------------------------------------------------------- what the invariant says

    lemma SlabBlockFacts(p: nat, k: nat)
      requires Valid() && IsOut(p, k)
      ensures IsSlabType(k) && Aligned(p, k) && !Aligned(p, 12)
      ensures AlignDown(p, 12) + SLAB_HEADER < p && p + Pow2(k) <= AlignDown(p, 12) + SLAB_SPACE
      ensures pages.Handed(Block(AlignDown(p, 12), 12))
      ensures p in Slots(AlignDown(p, 12), k)
    {
      var s := AlignDown(p, 12);
      assert OutOk(State(), p);
      assert SlabOk(State(), s);
      var j: nat :| j < BlockNum(k) && p == Slot(s, k, j);
      SlotFacts(s, k, j);
    }

    lemma PageBlockFacts(b: Block)
      requires Valid() && pages.Handed(b)
      ensures b.k >= 12 && Aligned(b.addr, b.k) && Aligned(b.addr, 12)
      ensures pages.beginAllocAddr <= b.addr && b.addr + Pow2(b.k) <= pages.End()
    {
      var u: nat, n: nat :| IsBlockAt(pages.beginAllocAddr, pages.Trees(), b, u, n);
      NodeInUnit(pages.beginAllocAddr, u, n);
      MulMono(u + 1, |pages.pool|, PHSICS_UNIT);
      AlignedWeaken(b.addr, b.k, 12);
    }

    /** kfree tells the layers apart by 4096-alignment alone: a live pointer is 4096-aligned
        exactly when it came from page_alloc, and otherwise its masked address is its slab. */
    lemma AlignmentTellsLayer(p: nat, k: nat)
      requires Valid() && LiveAt(p, k)
      ensures Aligned(p, 12) ==> k >= 12 && Block(p, k) in userPages && p !in out
      ensures !Aligned(p, 12) ==> k < 12 && IsOut(p, k) && Block(p, k) !in userPages
      ensures Aligned(p, k)
    {
      if Block(p, k) in userPages { PageBlockFacts(Block(p, k)); }
      if p in out {
        assert OutOk(State(), p);
        SlabBlockFacts(p, headers[AlignDown(p, 12)].type_);
      }
    }

    /** The page-layer block around a live block: itself, or its slab's page. */
    ghost function Home(p: nat, k: nat): Block
      reads this
    {
      if Block(p, k) in userPages then Block(p, k) else Block(AlignDown(p, 12), 12)
    }

    lemma HomeFacts(p: nat, k: nat)
      requires Valid() && LiveAt(p, k)
      ensures pages.Handed(Home(p, k))
      ensures IsSlabPage(headers, Home(p, k)) <==> Block(p, k) !in userPages
      ensures Home(p, k).addr <= p && p + Pow2(k) <= Home(p, k).addr + Pow2(Home(p, k).k)
    {
      Pow2Constants();
      if Block(p, k) !in userPages { SlabBlockFacts(p, k); }
    }

    /** No two live blocks share a byte. */
    lemma LiveDisjoint(p: nat, k: nat, q: nat, l: nat)
      requires Valid() && LiveAt(p, k) && LiveAt(q, l) && (p != q || k != l)
      ensures BytesDisjoint(p, Pow2(k), q, Pow2(l)) && p != q
    {
      var b, c := Home(p, k), Home(q, l);
      HomeFacts(p, k);
      HomeFacts(q, l);
      if b != c {
        HomesSeparate(b, c);
        PartsDisjoint(b, c, p, Pow2(k), q, Pow2(l));
      } else if IsSlabPage(headers, b) {
        SameSlab(p, k, q, l);
      }
    }

    lemma HomesSeparate(b: Block, c: Block)
      requires Valid() && pages.Handed(b) && pages.Handed(c) && b != c
      ensures BlocksDisjoint(b, c) && b.addr != c.addr
    {
      BlocksSeparate(pages.beginAllocAddr, pages.Trees(), b, c);
    }

    lemma SameSlab(p: nat, k: nat, q: nat, l: nat)
      requires Valid() && IsOut(p, k) && IsOut(q, l) && AlignDown(p, 12) == AlignDown(q, 12) && (p != q || k != l)
      ensures BytesDisjoint(p, Pow2(k), q, Pow2(l)) && p != q
    {
      SlabBlockFacts(p, k);
      SlabBlockFacts(q, l);
      TwoSlots(AlignDown(p, 12), k, p, q);
    }

    /** No live block reaches into a slab's header. */
    lemma LiveAvoidsHeaders(p: nat, k: nat, s: nat)
      requires Valid() && LiveAt(p, k) && s in headers
      ensures BytesDisjoint(p, Pow2(k), s, SLAB_HEADER)
    {
      HomeFacts(p, k);
      Pow2Constants();
      if Home(p, k) != Block(s, 12) {
        BlocksSeparate(pages.beginAllocAddr, pages.Trees(), Home(p, k), Block(s, 12));
      } else {
        SlabBlockFacts(p, k);
      }
    }

    /** A block that was just gained is good for the request. */
    lemma GainedIsGood(live: set<Block>, a: nat, size: nat)
      requires Valid() && RequestClass(size) != BuddyTree.P_REFUSE
      requires Gains(live, Live(), Some(a), RequestClass(size))
      ensures Serves(live, headers, a, size)
    {
      var k := RequestClass(size);
      LiveBlocksAre(headers, out, userPages, a, k);
      assert LiveAt(a, k);
      RoomForRequest(size);
      AlignmentTellsLayer(a, k);
      forall b: Block | b in live ensures BytesDisjoint(b.addr, Pow2(b.k), a, Pow2(k)) {
        LiveBlocksAre(headers, out, userPages, b.addr, b.k);
        LiveDisjoint(b.addr, b.k, a, k);
      }
      forall s | s in headers ensures BytesDisjoint(a, Pow2(k), s, SLAB_HEADER) {
        LiveAvoidsHeaders(a, k, s);
      }
    }

    /** The page of b belongs to the first slab of a list. */
    ghost predicate IsFirstPage(b: Block)
      reads this
    {
      IsSlabPage(headers, b) && IsFirst(State(), b.addr)
    }

    /** With the intended guard, once every caller has given everything back, every page still
        handed out is the page of a slab in a list; and none but the first slab of each list keeps
        one exactly when no call has left an entirely free slab further back. */
    lemma NothingLeaks()
      requires Valid() && guard == Intended && Live() == {}
      ensures forall b :: pages.Handed(b) ==> IsSlabPage(headers, b) && PlaceOk(State(), b.addr)
      ensures (forall b :: pages.Handed(b) ==> IsFirstPage(b)) <==> Tidy(State())
    {
      forall b: Block | pages.Handed(b) ensures IsSlabPage(headers, b) && PlaceOk(State(), b.addr) {
        LiveBlocksAre(headers, out, userPages, b.addr, b.k);
      }
      forall s | s in headers ensures IsFirstPage(Block(s, 12)) <==> Needed(State(), s) {
        NoneLiveAllFree(s);
      }
      forall s | s in headers ensures pages.Handed(Block(s, 12)) {}
    }

    lemma NoneLiveAllFree(s: nat)
      requires Valid() && Live() == {} && s in headers
      ensures headers[s].freeBlockNum == headers[s].blockNum
    {
      assert SlabOk(State(), s);
      FreeCount(State(), s);
      var t := headers[s].type_;
      forall a | a in Slots(s, t) ensures a !in out {
        SlotOwner(s, t, a);
        LiveBlocksAre(headers, out, userPages, a, t);
      }
    }

    // -------------------------------------------------------------- slab_init

    /** No unit of the page layer can serve a request of class k. */
    ghost predicate NoPageFor(k: nat)
      requires pages.Shape()
      reads this, pages, pages.Repr()
    {
      k == BuddyTree.P_REFUSE || forall u :: 0 <= u < |pages.pool| ==> pages.Trees()[u][1] < k
    }

    /** The middle of slab_init: write the header and thread the blocks of the page onto its free
        list. */
    method CutIntoBlocks(s: nat, cpu: nat, size: nat) returns (ghost cells: seq<nat>)
      requires IsSlabType(size)
      modifies `headers, `next
      ensures s in headers
      ensures headers == old(headers)[s := Slab(cpu, BlockNum(size), size, headers[s].freeList, BlockNum(size), 0)]
      ensures Threaded(old(State()), s, size, next, headers[s].freeList, cells)
    {
      var slabOcupy := Occupy(size);
      Layout(size);
      OccupyValue(size);
      var blockNum := (SLAB_SPACE - slabOcupy) / Pow2(size);
      headers := headers[s := Slab(cpu, blockNum, size, 0, blockNum, 0)];
      var count := blockNum;
      var blockAddr := s + slabOcupy;
      cells := [];
      ghost var j := 0;
      assert blockAddr == Slot(s, size, 0);
      while count > 0
        invariant j + count == blockNum && count >= 0
        invariant blockAddr == Slot(s, size, j)
        invariant s in headers
        invariant headers == old(headers)[s := Slab(cpu, blockNum, size, headers[s].freeList, blockNum, 0)]
        invariant Chain(next, headers[s].freeList, cells) && Distinct(cells) && |cells| == j
        invariant Elems(cells) == FirstSlots(s, size, j)
        invariant WordsKept(old(next), next, Slots(s, size))
        decreases count
      {
        NextBlock(s, size, j, cells);
        ChainPush(next, headers[s].freeList, cells, blockAddr);
        WordWritten(old(next), next, Slots(s, size), blockAddr, headers[s].freeList);
        next := next[blockAddr := headers[s].freeList];
        headers := headers[s := headers[s].(freeList := blockAddr)];
        cells := [blockAddr] + cells;
        blockAddr := blockAddr + Pow2(size);
        count := count - 1;
        j := j + 1;
      }
      assert FirstSlots(s, size, BlockNum(size)) == Slots(s, size);
    }

    /** The end of slab_init: the slab becomes the first of its list. */
    method AddSlab(s: nat, cpu: nat, size: nat)
      requires HeapOk(State()) && IsSlabType(size) && ListId(cpu, size) in slabsOfCpu && ListId(cpu, size) in lists
      requires s !in headers && s != 0 && Aligned(s, 12)
      modifies `headers, `next, `slabsOfCpu, `free, `lists
      ensures HeapOk(State()) && IsFreshSlab(old(State()), State(), s, ListId(cpu, size))
    {
      ghost var H := State();
      ghost var cells := CutIntoBlocks(s, cpu, size);
      var id := ListId(cpu, size);
      ghost var head := headers[s].freeList;
      headers := headers[s := headers[s].(append := slabsOfCpu[id])];
      slabsOfCpu := slabsOfCpu[id := s];
      free := free[s := cells];
      lists := lists[id := [s] + lists[id]];
      Layout(size);
      AddedOk(H, s, id, next, head, cells);
      assert headers == Added(H, s, id, next, head, cells).headers;
      assert State() == Added(H, s, id, next, head, cells);
    }

    /** The beginning of slab_init: a page for a slab, NULL exactly when there is none. */
    method TakePage() returns (s: nat)
      requires Valid()
      modifies pages.Repr()
      ensures pages.Valid() && pages.beginAllocAddr == old(pages.beginAllocAddr)
      ensures s == 0 <==> old(NoPageFor(12))
      ensures s == 0 ==> pages.Trees() == old(pages.Trees())
      ensures s != 0 ==> s !in headers && Aligned(s, 12)
      ensures s != 0 ==>
          forall with: map<nat, Slab> {:trigger PagesOk(pages.beginAllocAddr, pages.Trees(), with, userPages, guard)} ::
          with.Keys == headers.Keys + {s} ==> PagesOk(pages.beginAllocAddr, pages.Trees(), with, userPages, guard)
    {
      ghost var ts := pages.Trees();
      FourKPage();
      var addr := pages.PageAlloc(SLAB_SPACE);
      if addr == None { return 0; }
      s := addr.value;
      ghost var base, ts' := pages.beginAllocAddr, pages.Trees();
      PagesForSlab(base, ts, ts', s, headers, headers[s := Slab(0, 0, 0, 0, 0, 0)], userPages, guard);
      forall with: map<nat, Slab> {:trigger PagesOk(base, ts', with, userPages, guard)}
          | with.Keys == headers.Keys + {s}
        ensures PagesOk(base, ts', with, userPages, guard)
      {
        PagesForSlab(base, ts, ts', s, headers, with, userPages, guard);
      }
    }

    /** slab_init: a page from the page layer is cut into blocks and becomes the first slab of its
        list; NULL, changing nothing, exactly when the page layer has no 4K page to give. */
    method SlabInit(cpu: nat, size: nat) returns (s: nat)
      requires Valid() && cpu < cpuCount && IsSlabType(size)
      modifies `headers, `next, `slabsOfCpu, `free, `lists, pages.Repr()
      ensures Valid()
      ensures s == 0 <==> old(NoPageFor(12))
      ensures s == 0 ==> State() == old(State()) && pages.Trees() == old(pages.Trees())
      ensures s != 0 ==> IsFreshSlab(old(State()), State(), s, ListId(cpu, size))
    {
      ghost var H := State();
      s := TakePage();
      assert State() == H;
      if s == 0 { return; }
      ghost var ts' := pages.Trees();
      if !Aligned(s, 12) { assert false; }
      assert ListId(cpu, size) in slabsOfCpu;
      AddSlab(s, cpu, size);
      assert pages.Trees() == ts';
      assert headers.Keys == H.headers.Keys + {s};
      assert PagesOk(pages.beginAllocAddr, ts', headers, userPages, guard);
    }

    /** The lists of CPU cpu from block size t on, and of the CPUs after it, are empty. */
    ghost predicate UntouchedFrom(cpu: nat, t: nat)
      reads `slabsOfCpu
    {
      EmptyFrom(slabsOfCpu, cpu, t)
    }

    ghost predicate Made(id: ListId)
      requires pages.Shape()
      reads this, pages, pages.Repr()
    {
      MadeIn(State(), id, NoPageFor(12))
    }

    ghost predicate MadeBefore(cpu: nat, size: nat)
      requires pages.Shape()
      reads this, pages, pages.Repr()
    {
      MadeUpTo(State(), cpuCount, cpu, size, NoPageFor(12))
    }

    /** slab_system_init: one slab for each CPU and block size, as long as pages last. */
    method SlabSystemInit()
      requires Valid() && UntouchedFrom(0, S_8B) && Tidy(State())
      modifies `headers, `next, `slabsOfCpu, `free, `lists, pages.Repr()
      ensures Valid() && Tidy(State())
      ensures forall c: nat, t: nat {:trigger ListId(c, t)} :: c < cpuCount && IsSlabType(t) ==> Made(ListId(c, t))
    {
      var cpu := 0;
      while cpu < cpuCount
        invariant 0 <= cpu <= cpuCount && Valid() && UntouchedFrom(cpu, S_8B) && MadeBefore(cpu, S_8B)
        invariant Tidy(State())
      {
        InitCpu(cpu);
        cpu := cpu + 1;
      }
    }

    /** The slabs of one CPU. */
    method InitCpu(cpu: nat)
      requires Valid() && cpu < cpuCount && UntouchedFrom(cpu, S_8B) && MadeBefore(cpu, S_8B) && Tidy(State())
      modifies `headers, `next, `slabsOfCpu, `free, `lists, pages.Repr()
      ensures Valid() && UntouchedFrom(cpu + 1, S_8B) && MadeBefore(cpu + 1, S_8B) && Tidy(State())
    {
      var size := S_8B;
      while size < S_REFUSE
        invariant S_8B <= size <= S_REFUSE && Valid() && UntouchedFrom(cpu, size) && MadeBefore(cpu, size)
        invariant Tidy(State())
      {
        InitOne(cpu, size);
        size := size + 1;
      }
    }

    method InitOne(cpu: nat, size: nat)
      requires Valid() && cpu < cpuCount && IsSlabType(size) && UntouchedFrom(cpu, size) && MadeBefore(cpu, size)
      requires Tidy(State())
      modifies `headers, `next, `slabsOfCpu, `free, `lists, pages.Repr()
      ensures Valid() && UntouchedFrom(cpu, size + 1) && MadeBefore(cpu, size + 1) && Tidy(State())
    {
      ghost var H, none := State(), NoPageFor(12);
      EmptyList(H, ListId(cpu, size));
      var s := SlabInit(cpu, size);
      ghost var none' := NoPageFor(12);
      assert s == 0 ==> none' == none;
      OneMore(H, State(), cpuCount, cpu, size, s, none, none');
      EmptyAfter(H.heads, slabsOfCpu, cpu, size, s);
      if s != 0 { FreshTidy(H, State(), s, ListId(cpu, size)); }
    }

    // -------------------------------------------------------------- slab_alloc

    ghost predicate AllFull(cpu: nat, t: nat)
      reads this
    {
      NoRoom(State(), ListId(cpu, t))
    }

    /** The list walk of slab_alloc: the first slab with a free block, NULL if there is none. */
    method WalkList(cpu: nat, t: nat) returns (s: nat)
      requires HeapOk(State()) && ListId(cpu, t) in slabsOfCpu && ListId(cpu, t) in lists
      ensures s == 0 <==> AllFull(cpu, t)
      ensures s != 0 ==> FirstWithRoom(State(), ListId(cpu, t), s) && IdOf(headers[s]) == ListId(cpu, t)
    {
      ghost var id := ListId(cpu, t);
      ghost var list, links := lists[id], Appends(headers);
      assert ListOk(State(), id);
      s := slabsOfCpu[ListId(cpu, t)];
      if s == 0 { return; }
      ghost var i := 0;
      while true
        invariant 0 <= i < |list| && s == list[i] && s != 0
        invariant FullBefore(State(), id, i)
        decreases |list| - i
      {
        assert list[i] in list;
        ChainAt(links, slabsOfCpu[id], list, i);
        if i + 1 < |list| { ChainAt(links, slabsOfCpu[id], list, i + 1); }
        if headers[s].freeBlockNum > 0 {
          return;
        } else if headers[s].append == 0 {
          s := 0;
          return;
        }
        s := headers[s].append;
        i := i + 1;
      }
    }

    /** alloc_block_from_slab: the first free block, which nobody else holds. */
    method AllocBlockFromSlab(s: nat) returns (addr: nat)
      requires HeapOk(State()) && s in headers && headers[s].freeBlockNum > 0
      modifies `headers, `free, `out
      ensures SlabOk(old(State()), s) && State() == Taken(old(State()), s) && HeapOk(State())
      ensures old(Tidy(State())) ==> Tidy(State())
      ensures addr == old(headers[s].freeList) && addr !in old(out) && out == old(out) + {addr}
      ensures headers.Keys == old(headers).Keys && SlabsKept(old(headers), headers)
      ensures OutAt(headers, out, addr, headers[s].type_) && Aligned(addr, headers[s].type_)
    {
      TakenOk(State(), s);
      TakenSlabOf(s);
      if Tidy(State()) { TakenTidy(State(), s); }
      addr := headers[s].freeList;
      headers := headers[s := headers[s].(freeList := next[addr])];
      headers := headers[s := headers[s].(freeBlockNum := headers[s].freeBlockNum - 1)];
      free := free[s := free[s][1..]];
      out := out + {addr};
    }

    /** trans_slab_size */
    static method TransSlabSize(size: nat) returns (k: nat)
      ensures k == SlabClass(size)
    {
      k := S_8B;
      while k < S_REFUSE
        invariant S_8B <= k <= S_REFUSE
        invariant SlabClass(size) == FirstFit(size, k, S_REFUSE)
      {
        if size <= Pow2(k) { return; }
        k := k + 1;
      }
      return S_REFUSE;
    }

    /** page_alloc on behalf of a caller. */
    method AllocPages(size: nat) returns (r: Option<nat>)
      requires Valid()
      modifies `userPages, pages.Repr()
      ensures Valid()
      ensures r == None <==> old(NoPageFor(PageClass(size)))
      ensures Gains(old(Live()), Live(), r, PageClass(size))
    {
      ghost var ts, H := pages.Trees(), State();
      r := pages.PageAlloc(size);
      assert State() == H;
      if r.Some? {
        ghost var b, ts' := Block(r.value, PageClass(size)), pages.Trees();
        PagesForUser(pages.beginAllocAddr, ts, ts', b, headers, userPages, guard);
        ghost var held := userPages;
        userPages := userPages + {b};
        assert State() == H && pages.Trees() == ts';
        OutNotAPage(b);
        PageGained(headers, out, held, b);
      }
    }

    lemma OutNotAPage(b: Block)
      requires Valid() && b in userPages
      ensures b.addr !in out
    {
      AlignmentTellsLayer(b.addr, b.k);
      PageBlockFacts(b);
    }

    lemma FirstNotFree(cpu: nat, t: nat)
      requires HeapOk(State()) && AllFull(cpu, t) && ListId(cpu, t) in slabsOfCpu
      ensures FirstInUse(State(), ListId(cpu, t))
    {
      var id := ListId(cpu, t);
      var first := slabsOfCpu[id];
      assert ListOk(State(), id);
      if first in headers {
        assert SlabOk(State(), first);
        Layout(headers[first].type_);
        assert lists[id] != [] && first == lists[id][0] && first in lists[id];
      }
    }

    /** No live block lies in the part of an unused slab's page that is cut into blocks. */
    lemma FreshSlabNotLive(s: nat, was: map<nat, nat>)
      requires Valid() && s in headers && headers[s].freeBlockNum == headers[s].blockNum
      requires IsSlabType(headers[s].type_) && WordsKept(was, next, Slots(s, headers[s].type_))
      ensures WordsKeptIn(was, next, Live())
    {
      var t := headers[s].type_;
      assert SlabOk(State(), s);
      FreeCount(State(), s);
      forall b, x: nat {:trigger b in Live(), SameWord(was, next, x)}
          | b in Live() && b.addr <= x < b.addr + Pow2(b.k)
        ensures SameWord(was, next, x)
      {
        LiveBlocksAre(headers, out, userPages, b.addr, b.k);
        SlotNotLive(s, b.addr, b.k, x);
      }
    }

    lemma SlotNotLive(s: nat, p: nat, k: nat, x: nat)
      requires Valid() && LiveAt(p, k) && p <= x < p + Pow2(k)
      requires SlabOk(State(), s) && Slots(s, headers[s].type_) !! out
      ensures x !in Slots(s, headers[s].type_)
    {
      var t := headers[s].type_;
      if x in Slots(s, t) {
        SlotOwner(s, t, x);
        HomeFacts(p, k);
        if Home(p, k) == Block(s, 12) {
          SlabBlockFacts(p, k);
        } else {
          HomesSeparate(Home(p, k), Block(s, 12));
          Pow2Constants();
        }
        assert false;
      }
    }

    /** The part of slab_alloc that puts a new slab before a list of full ones. */
    method MakeSlab(cpu: nat, t: nat) returns (s: nat)
      requires Valid() && cpu < cpuCount && IsSlabType(t) && AllFull(cpu, t)
      modifies `headers, `next, `slabsOfCpu, `free, `lists, pages.Repr()
      ensures Valid() && Live() == old(Live())
      ensures s == 0 <==> old(NoPageFor(12))
      ensures s == 0 ==> State() == old(State())
      ensures s != 0 ==> IsFreshSlab(old(State()), State(), s, ListId(cpu, t))
      ensures WordsKeptIn(old(next), next, old(Live()))
      ensures old(Tidy(State())) ==> Tidy(State())
    {
      ghost var H := State();
      OutHoused();
      FirstNotFree(cpu, t);
      s := SlabInit(cpu, t);
      if s == 0 { return; }
      if headers[s].freeBlockNum <= 0 { assert false; }
      if Tidy(H) { FreshTidy(H, State(), s, ListId(cpu, t)); }
      NewSlabsOnTheWay(H.headers, headers, out, userPages);
      FreshSlabNotLive(s, H.next);
    }

    /** The part of slab_alloc that finds or makes a slab with a free block. */
    method SlabWithRoom(cpu: nat, t: nat) returns (s: nat)
      requires Valid() && cpu < cpuCount && IsSlabType(t)
      modifies `headers, `next, `slabsOfCpu, `free, `lists, pages.Repr()
      ensures Valid() && Live() == old(Live())
      ensures s == 0 <==> old(AllFull(cpu, t) && NoPageFor(12))
      ensures s == 0 ==> State() == old(State())
      ensures s != 0 ==> Chosen(old(State()), State(), ListId(cpu, t), s)
      ensures s != 0 ==> HasRoom(State(), s) && headers[s].type_ == t
      ensures WordsKeptIn(old(next), next, old(Live()))
      ensures old(Tidy(State())) ==> Tidy(State())
    {
      assert ListId(cpu, t) in slabsOfCpu;
      s := WalkList(cpu, t);
      if s == 0 { s := MakeSlab(cpu, t); }
    }

    /** The part of slab_alloc that takes a block of the slab found. */
    method TakeBlock(s: nat) returns (addr: nat)
      requires Valid() && s in headers && headers[s].freeBlockNum > 0
      modifies `headers, `free, `out
      ensures Valid()
      ensures SlabOk(old(State()), s) && State() == Taken(old(State()), s) && addr == old(headers[s].freeList)
      ensures Aligned(addr, old(headers[s].type_))
      ensures Gains(old(Live()), Live(), Some(addr), old(headers[s].type_))
      ensures old(Tidy(State())) ==> Tidy(State())
    {
      ghost var H, ts := State(), pages.Trees();
      addr := AllocBlockFromSlab(s);
      assert pages.Trees() == ts;
      PagesForTaken(pages.beginAllocAddr, ts, H.headers, headers, userPages, guard);
      GainedSlabBlock(H, addr, headers[s].type_);
    }

    /** slab_alloc for a slab-sized request. */
    method AllocSmall(cpu: nat, t: nat) returns (r: Option<nat>)
      requires Valid() && cpu < cpuCount && IsSlabType(t)
      modifies `headers, `next, `slabsOfCpu, `free, `lists, `out, pages.Repr()
      ensures Valid()
      ensures r == None <==> old(AllFull(cpu, t) && NoPageFor(12))
      ensures Gains(old(Live()), Live(), r, t)
      ensures if r == None then State() == old(State())
              else FromList(old(State()), State(), ListId(cpu, t), r.value)
      ensures WordsKeptIn(old(next), next, old(Live()))
      ensures old(Tidy(State())) ==> Tidy(State())
    {
      ghost var H := State();
      var s := SlabWithRoom(cpu, t);
      if s == 0 { return None; }
      ghost var M := State();
      var addr := TakeBlock(s);
      ChosenTaken(H, M, ListId(cpu, t), s);
      if !Aligned(addr, t) { return None; }
      r := Some(addr);
    }

    lemma OutHoused()
      requires Valid()
      ensures Housed(headers, out)
    {
      forall p {:trigger p in out} | p in out ensures AlignDown(p, 12) in headers { assert OutOk(State(), p); }
    }

    lemma GainedSlabBlock(H: Heap, a: nat, k: nat)
      requires Valid() && SlabsOk(H) && SlabsKept(H.headers, headers)
      requires out == H.out + {a} && a !in H.out && OutAt(headers, out, a, k)
      ensures Gains(LiveBlocks(H.headers, H.out, userPages), Live(), Some(a), k)
    {
      NoPageHere(a, k);
      SlabBlockGained(H, headers, out, userPages, a, k);
    }

    lemma NoPageHere(p: nat, k: nat)
      requires Valid() && IsOut(p, k)
      ensures Block(p, k) !in userPages
    {
      if Block(p, k) in userPages { OutNotAPage(Block(p, k)); }
    }

    lemma TakenSlabOf(s: nat)
      requires HeapOk(State()) && s in headers && headers[s].freeBlockNum > 0
      ensures var a := headers[s].freeList;
              a !in out && AlignDown(a, 12) == s && Aligned(a, headers[s].type_)
    {
      assert SlabOk(State(), s);
      TakenSlab(State(), s);
      var a, t := headers[s].freeList, headers[s].type_;
      var j: nat :| j < BlockNum(t) && a == Slot(s, t, j);
      SlotFacts(s, t, j);
    }

    ghost predicate Refused(cpu: nat, k: nat)
      requires pages.Shape()
      reads this, pages, pages.Repr()
    {
      if k < 12 then AllFull(cpu, k) && NoPageFor(12) else NoPageFor(k)
    }

    /** slab_alloc: requests above 2K go to the page layer; others take the first free block of the
        CPU's list, or of a new slab. The caller gains exactly the returned block; NULL exactly when
        every slab of the list is full and the page layer refuses. Its caller holds interrupts off. */
    method SlabAlloc(cpu: nat, size: nat, ghost interrupts: bool) returns (r: Option<nat>)
      requires Valid() && cpu < cpuCount && !interrupts
      modifies this, pages.Repr()
      ensures Valid()
      ensures r == None <==> old(Refused(cpu, RequestClass(size)))
      ensures Gains(old(Live()), Live(), r, RequestClass(size))
      ensures if r == None || RequestClass(size) >= 12 then State() == old(State())
              else FromList(old(State()), State(), ListId(cpu, RequestClass(size)), r.value)
      ensures WordsKeptIn(old(next), next, old(Live()))
      ensures old(Tidy(State())) ==> Tidy(State())
    {
      var reqSize := TransSlabSize(size);
      if reqSize == S_REFUSE {
        r := AllocPages(size);
      } else {
        r := AllocSmall(cpu, reqSize);
      }
    }

    // -------------------------------------------------------------- slab_free

    /** The unlocked list walk of recover_slab: the slab just before s. */
    method FindPrev(s: nat) returns (prev: nat, ghost i: nat)
      requires s in headers && IdOf(headers[s]) in slabsOfCpu && ListOk(State(), IdOf(headers[s]))
      requires s in lists[IdOf(headers[s])] && s != slabsOfCpu[IdOf(headers[s])]
      ensures i + 1 < |lists[IdOf(headers[s])]|
      ensures prev == lists[IdOf(headers[s])][i] && s == lists[IdOf(headers[s])][i + 1]
      ensures prev in headers && headers[prev].append == s
    {
      ghost var id := IdOf(headers[s]);
      ghost var list, links := lists[id], Appends(headers);
      prev := slabsOfCpu[IdOf(headers[s])];
      i := 0;
      assert list != [];
      assert list[0] in list;
      ChainAt(links, slabsOfCpu[id], list, 0);
      if 1 < |list| { ChainAt(links, slabsOfCpu[id], list, 1); }
      var toRecover := headers[prev].append;
      while toRecover != 0
        invariant i < |list| && prev == list[i] && prev in headers && toRecover == headers[prev].append
        invariant toRecover == if i + 1 < |list| then list[i + 1] else 0
        invariant i + 1 < |list| ==> list[i + 1] != 0
        invariant forall j :: 0 <= j <= i ==> list[j] != s
        decreases |list| - i
      {
        if toRecover == s { break; }
        prev := toRecover;
        i := i + 1;
        assert list[i] in list;
        ChainAt(links, slabsOfCpu[id], list, i);
        if i + 1 < |list| { ChainAt(links, slabsOfCpu[id], list, i + 1); }
        toRecover := headers[prev].append;
      }
      if toRecover == 0 { assert false; }
    }

    /** The unlinking half of recover_slab: prev is locked, unless another CPU holds it. */
    method UnlinkSlab(s: nat, prevFree: bool)
      requires HeapOk(State()) && s in headers && slabsOfCpu.Keys == lists.Keys
      requires headers[s].freeBlockNum == headers[s].blockNum && !IsFirst(State(), s)
      modifies `headers, `free, `lists
      ensures HeapOk(State()) && slabsOfCpu.Keys == lists.Keys
      ensures !prevFree ==> State() == old(State())
      ensures prevFree ==> headers.Keys == old(headers).Keys - {s} && SlabsKept(headers, old(headers))
      ensures prevFree ==> exists i: nat :: IsUnlink(old(State()), State(), s, i)
      ensures prevFree && old(TidyBut(State(), s)) ==> Tidy(State())
    {
      ghost var H, id := State(), IdOf(headers[s]);
      assert PlaceOk(H, s);
      assert ListOk(H, id);
      var prev, i := FindPrev(s);
      if !prevFree { return; }
      assert lists[id][i] in lists[id];
      UnlinkedOk(H, id, i);
      if TidyBut(H, s) { UnlinkedTidy(H, id, i); }
      headers := headers[prev := headers[prev].(append := headers[s].append)];
      headers := headers - {s};
      free := free - {s};
      lists := lists[id := lists[id][..i + 1] + lists[id][i + 2..]];
      assert State() == Unlinked(H, id, i);
      assert IsUnlink(H, State(), s, i);
    }

    /** recover_slab: a slab none of whose blocks is in use leaves its list and gives its page back,
        unless it is the first of the list or the try-lock of the slab before it fails; prevFree is
        the outcome of that try-lock, which other CPUs decide. */
    method RecoverSlab(s: nat, prevFree: bool)
      requires Valid() && s in headers && headers[s].freeBlockNum == headers[s].blockNum
      modifies `headers, `free, `lists, pages.Repr()
      ensures Valid()
      ensures SlabsKept(headers, old(headers))
      ensures old(IsFirst(State(), s)) || !prevFree ==> State() == old(State()) && pages.Trees() == old(pages.Trees())
      ensures !old(IsFirst(State(), s)) && prevFree ==> exists i: nat :: IsUnlink(old(State()), State(), s, i)
      ensures !old(IsFirst(State(), s)) && prevFree ==>
                GivenUp(pages.beginAllocAddr, old(pages.Trees()), pages.Trees(), Block(s, 12), guard)
      ensures old(TidyBut(State(), s)) && (old(IsFirst(State(), s)) || prevFree) ==> Tidy(State())
    {
      assert PlaceOk(State(), s);
      if slabsOfCpu[IdOf(headers[s])] == s { return; }
      ghost var hs, ts := headers, pages.Trees();
      UnlinkSlab(s, prevFree);
      ghost var H := State();
      assert pages.Trees() == ts;
      if prevFree {
        GiveSlabPage(s, hs);
        assert State() == H;
      }
    }

    /** The page of a slab that is gone returns to the page layer. */
    method GiveSlabPage(s: nat, ghost hs: map<nat, Slab>)
      requires pages.Valid() && PagesOk(pages.beginAllocAddr, pages.Trees(), hs, userPages, guard)
      requires s in hs && headers.Keys == hs.Keys - {s}
      modifies pages.Repr()
      ensures pages.Valid() && unchanged(pages)
      ensures PagesOk(pages.beginAllocAddr, pages.Trees(), headers, userPages, guard)
      ensures GivenUp(pages.beginAllocAddr, old(pages.Trees()), pages.Trees(), Block(s, 12), guard)
    {
      ghost var ts := pages.Trees();
      assert IsSlabPage(hs, Block(s, 12));
      pages.PageFree(s, guard, Block(s, 12));
      PagesGivenUp(pages.beginAllocAddr, ts, pages.Trees(), Block(s, 12), hs, headers, userPages, userPages, guard);
    }

    /** The first half of slab_free: the block returns to its slab's free list. */
    method ReturnBlock(ptr: nat, slabAddr: nat)
      requires HeapOk(State()) && ptr in out && slabAddr == AlignDown(ptr, 12)
      modifies `headers, `next, `free, `out
      ensures SlabOk(old(State()), slabAddr) && State() == Returned(old(State()), slabAddr, ptr)
    {
      ghost var H := State();
      ReturnedOk(H, slabAddr, ptr);
      next := next[ptr := headers[slabAddr].freeList];
      headers := headers[slabAddr := headers[slabAddr].(freeList := ptr)];
      headers := headers[slabAddr := headers[slabAddr].(freeBlockNum := headers[slabAddr].freeBlockNum + 1)];
      free := free[slabAddr := [ptr] + free[slabAddr]];
      out := out - {ptr};
      assert State() == Returned(H, slabAddr, ptr);
    }

    /** slab_free: the block returns to the slab its masked address names, and a slab that is then
        entirely free is reclaimed. */
    method SlabFree(ptr: nat, ghost k: nat, prevFree: bool, ghost interrupts: bool)
      requires Valid() && IsOut(ptr, k) && !interrupts
      modifies `headers, `next, `free, `lists, `out, pages.Repr()
      ensures Valid()
      ensures old(Tidy(State())) && prevFree ==> Tidy(State())
      ensures Live() == old(Live()) - {Block(ptr, k)}
      ensures WordsKeptIn(old(next), next, Live())
      ensures headers.Keys ==
          old(headers).Keys - if old(LastOfSlab(State(), ptr)) && prevFree then {AlignDown(ptr, 12)} else {}
    {
      var slabAddr := AlignDown(ptr, 12);
      if !Aligned(slabAddr, 12) { assert false; }
      ghost var H, rest := State(), Live() - {Block(ptr, k)};
      NoPageHere(ptr, k);
      OthersElsewhere(ptr, k);
      ReturnAndRecover(ptr, slabAddr, prevFree);
      LostSlabBlock(H, ptr, k);
      KeptElsewhere(H.next, next, ptr, rest);
    }

    /** No other live block has the first word of this one. */
    lemma OthersElsewhere(ptr: nat, k: nat)
      requires Valid() && LiveAt(ptr, k)
      ensures Elsewhere(ptr, Live() - {Block(ptr, k)})
    {
      forall b | b in Live() - {Block(ptr, k)} ensures ptr < b.addr || b.addr + Pow2(b.k) <= ptr {
        LiveBlocksAre(headers, out, userPages, b.addr, b.k);
        LiveDisjoint(b.addr, b.k, ptr, k);
      }
    }

    lemma LostSlabBlock(H: Heap, ptr: nat, k: nat)
      requires Valid() && SlabsOk(H) && out == H.out - {ptr} && OutAt(H.headers, H.out, ptr, k)
      requires SlabsKept(headers, H.headers) && Block(ptr, k) !in userPages
      ensures Live() == LiveBlocks(H.headers, H.out, userPages) - {Block(ptr, k)}
    {
      forall p | p in out ensures AlignDown(p, 12) in headers { assert OutOk(State(), p); }
      SlabBlockLost(H, headers, out, userPages, ptr, k);
    }

    method PutBack(ptr: nat, slabAddr: nat)
      requires Valid() && ptr in out && slabAddr == AlignDown(ptr, 12)
      modifies `headers, `next, `free, `out
      ensures Valid() && Back(old(State()), State(), slabAddr, ptr)
    {
      ghost var H, ts := State(), pages.Trees();
      ReturnedShows(H, slabAddr, ptr);
      ReturnBlock(ptr, slabAddr);
      assert pages.Trees() == ts && State() == Returned(H, slabAddr, ptr);
      PagesForTaken(pages.beginAllocAddr, ts, H.headers, headers, userPages, guard);
    }

    method ReturnAndRecover(ptr: nat, slabAddr: nat, prevFree: bool)
      requires Valid() && ptr in out && slabAddr == AlignDown(ptr, 12)
      modifies `headers, `next, `free, `lists, `out, pages.Repr()
      ensures Valid() && BackAndRecovered(old(State()), State(), slabAddr, ptr, prevFree)
    {
      ghost var H := State();
      PutBack(ptr, slabAddr);
      ghost var M := State();
      if headers[slabAddr].freeBlockNum == headers[slabAddr].blockNum {
        RecoverSlab(slabAddr, prevFree);
        assert Recovered(M, State(), slabAddr, prevFree);
      }
      BackThenRecovered(H, M, State(), slabAddr, ptr, prevFree);
    }

    /** page_free on behalf of a caller. */
    method FreePages(ptr: nat, ghost k: nat, ghost interrupts: bool)
      requires Valid() && Block(ptr, k) in userPages && !interrupts
      modifies `userPages, pages.Repr()
      ensures Valid()
      ensures Live() == old(Live()) - {Block(ptr, k)} && State() == old(State())
    {
      OutNotAPage(Block(ptr, k));
      PageLost(headers, out, userPages, Block(ptr, k));
      ghost var ts, H, b := pages.Trees(), State(), Block(ptr, k);
      pages.PageFree(ptr, guard, b);
      ghost var ts' := pages.Trees();
      PagesGivenUp(pages.beginAllocAddr, ts, ts', b, headers, headers, userPages, userPages - {b}, guard);
      userPages := userPages - {b};
      assert State() == H && pages.Trees() == ts';
    }

    /** A caller writing to a block it holds disturbs no free list: the links live in free blocks
        only. */
    method WriteBlock(p: nat, v: nat)
      requires Valid() && p in out
      modifies `next
      ensures Valid() && next == old(next)[p := v]
    {
      WrittenOk(State(), p, v);
      ghost var H, ts := State(), pages.Trees();
      next := next[p := v];
      assert State() == H.(next := H.next[p := v]);
      assert pages.Trees() == ts;
    }
  }

  lemma PagesForTaken(base: nat, ts: seq<BuddyTree.Entries>, headers: map<nat, Slab>, headers': map<nat, Slab>,
                      userPages: set<Block>, guard: FreeGuard)
    requires PagesOk(base, ts, headers, userPages, guard) && headers'.Keys == headers.Keys
    ensures PagesOk(base, ts, headers', userPages, guard)
  {
    forall s {:trigger s in headers'} | s in headers' ensures IsBlock(base, ts, Block(s, 12)) { assert s in headers; }
    forall b ensures IsSlabPage(headers', b) <==> IsSlabPage(headers, b) {}
  }

  /** The kernel's allocator: kalloc and kfree with interrupts held off. */
  class Allocator {
    const slabs: SlabSystem
    var ienabled: bool

    ghost predicate Valid()
      reads slabs, slabs.pages, slabs.pages.Repr()
    {
      slabs.Valid()
    }

    /** pmm_init: the heap start is rounded up to 16M, the units are set up, and each CPU gets one
        slab of each block size as long as pages last. */
    constructor (heapStart: nat, heapEnd: nat, cpuCount: nat, guard: FreeGuard)
      requires heapEnd <= heapStart + (MAX_PAGE_NUM + 2) * PHSICS_UNIT
      ensures Valid() && slabs.cpuCount == cpuCount && slabs.guard == guard
      ensures heapStart + PHSICS_UNIT <= slabs.pages.beginAllocAddr < heapStart + 2 * PHSICS_UNIT
      ensures slabs.pages.beginAllocAddr == AlignPtr(heapStart, BuddyTree.P_16M) + PHSICS_UNIT
      ensures Aligned(AlignPtr(heapStart, BuddyTree.P_16M), BuddyTree.P_16M)
      ensures slabs.pages.End() <= heapEnd || |slabs.pages.pool| == 0
      ensures heapEnd < slabs.pages.End() + PHSICS_UNIT
      ensures slabs.Live() == {} && Tidy(slabs.State())
      ensures forall c: nat, t: nat {:trigger ListId(c, t)} ::
          c < cpuCount && IsSlabType(t) ==> slabs.Made(ListId(c, t))
    {
      AlignUp(heapStart);
      var begin := AlignPtr(heapStart, BuddyTree.P_16M);
      slabs := new SlabSystem(begin, heapEnd, cpuCount, guard);
      ienabled := false;
      new;
      assert slabs.pages as object !in slabs.pages.Repr();
      slabs.SlabSystemInit();
      NoneLive(slabs.headers);
    }

    /** iset: interrupts have no bearing on what is allocated. */
    method Iset(on: bool)
      requires Valid()
      modifies `ienabled
      ensures Valid() && ienabled == on && this as object !in slabs.pages.Repr()
      ensures slabs.State() == old(slabs.State()) && slabs.Live() == old(slabs.Live())
      ensures forall cpu: nat, k: nat :: slabs.Refused(cpu, k) <==> old(slabs.Refused(cpu, k))
    {
      ghost var H, ts := slabs.State(), slabs.pages.Trees();
      assert this as object !in slabs.pages.Repr();
      ienabled := on;
      assert slabs.State() == H && slabs.pages.Trees() == ts && slabs.pages.Valid();
    }

    /** kalloc: the callers gain exactly the returned block, which serves the request; NULL exactly
        when neither layer has room. No entirely free slab is left behind the first of its list. */
    method KAlloc(cpu: nat, size: nat) returns (r: Option<nat>)
      requires Valid() && cpu < slabs.cpuCount
      modifies `ienabled, slabs, slabs.pages.Repr()
      ensures Valid() && ienabled == old(ienabled)
      ensures r == None <==> old(slabs.Refused(cpu, RequestClass(size)))
      ensures Gains(old(slabs.Live()), slabs.Live(), r, RequestClass(size))
      ensures r.Some? ==> Serves(old(slabs.Live()), slabs.headers, r.value, size)
      ensures if r == None || size > Pow2(11) then slabs.State() == old(slabs.State())
              else FromList(old(slabs.State()), slabs.State(), ListId(cpu, RequestClass(size)), r.value)
      ensures WordsKeptIn(old(slabs.next), slabs.next, old(slabs.Live()))
      ensures old(Tidy(slabs.State())) ==> Tidy(slabs.State())
    {
      ghost var H, live := slabs.State(), slabs.Live();
      var itrptAble := ienabled;
      Iset(false);
      r := slabs.SlabAlloc(cpu, size, ienabled);
      ghost var H' := slabs.State();
      assert WordsKeptIn(H.next, H'.next, live);
      if itrptAble { Iset(true); }
      assert slabs.State() == H';
      RequestClassIsFirstFit(size);
      if r.Some? { slabs.GainedIsGood(live, r.value, size); }
    }

    /** kfree of a live block: exactly that block is live no longer. prevFree is the outcome of the
        try-lock that recover_slab may need; only a failed one leaves an entirely free slab behind
        the first of its list. */
    method KFree(ptr: nat, ghost k: nat, prevFree: bool)
      requires Valid() && Block(ptr, k) in slabs.Live()
      modifies `ienabled, slabs, slabs.pages.Repr()
      ensures Valid() && ienabled == old(ienabled)
      ensures slabs.Live() == old(slabs.Live()) - {Block(ptr, k)}
      ensures WordsKeptIn(old(slabs.next), slabs.next, slabs.Live())
      ensures slabs.headers.Keys == old(slabs.headers).Keys -
          if k < 12 && prevFree && old(LastOfSlab(slabs.State(), ptr)) then {AlignDown(ptr, 12)} else {}
      ensures old(Tidy(slabs.State())) && prevFree ==> Tidy(slabs.State())
    {
      ghost var H, live := slabs.State(), slabs.Live();
      var itrptAble := ienabled;
      Iset(false);
      LiveBlocksAre(slabs.headers, slabs.out, slabs.userPages, ptr, k);
      slabs.AlignmentTellsLayer(ptr, k);
      if Aligned(ptr, 12) {
        slabs.FreePages(ptr, k, ienabled);
      } else {
        slabs.SlabFree(ptr, k, prevFree, ienabled);
      }
      ghost var H' := slabs.State();
      assert slabs.Live() == live - {Block(ptr, k)} && WordsKeptIn(H.next, H'.next, slabs.Live());
      if itrptAble { Iset(true); }
      assert slabs.State() == H';
    }
  }

  lemma AlignUp(p: nat)
    ensures Aligned(AlignPtr(p, BuddyTree.P_16M), BuddyTree.P_16M)
    ensures p <= AlignPtr(p, BuddyTree.P_16M) < p + PHSICS_UNIT
  {
    Pow2Constants();
    if p % Pow2(24) != 0 {
      MulMod(1, Pow2(24));
      AlignedAdd(AlignDown(p, 24), Pow2(24), 24);
    }
  }

  /** A class that is not refused has room for the request. */
  lemma RoomForRequest(size: nat)
    requires RequestClass(size) != BuddyTree.P_REFUSE
    ensures size <= Pow2(RequestClass(size))
    ensures RequestClass(size) >= 12 <==> size > Pow2(11)
  {
    RequestClassIsFirstFit(size);
    FirstFitSmallest(size, S_8B, BuddyTree.P_REFUSE);
  }

  /** What slab_init adds: a slab of the given list, first in it, all of its blocks free. */
  ghost predicate IsFreshSlab(H: Heap, H': Heap, s: nat, id: ListId) {
    var holds :=
      && s !in H.headers && id in H.heads && IsSlabType(id.type_) && id in H.lists
      && s in H'.headers && s in H'.free && H'.headers[s].freeBlockNum == H'.headers[s].blockNum >= 1
      && WordsKept(H.next, H'.next, Slots(s, id.type_))
      && H' == Added(H, s, id, H'.next, H'.headers[s].freeList, H'.free[s]);
    holds
  }

  /** A new slab before one that has a block in use leaves no entirely free slab behind the first. */
  lemma FreshTidy(H: Heap, H': Heap, s: nat, id: ListId)
    requires Tidy(H) && FirstInUse(H, id) && IsFreshSlab(H, H', s, id)
    ensures Tidy(H')
  {
    AddedTidy(H, s, id, H'.next, H'.headers[s].freeList, H'.free[s]);
  }

  lemma FourKPage()
    ensures PageClass(SLAB_SPACE) == 12
  {
    Pow2Constants();
  }

  ghost function FirstSlots(s: nat, t: nat, n: nat): set<nat> {
    set i: nat | i < n :: Slot(s, t, i)
  }

  lemma NextBlock(s: nat, t: nat, j: nat, cells: seq<nat>)
    requires IsSlabType(t) && j < BlockNum(t) && Elems(cells) == FirstSlots(s, t, j)
    ensures Slot(s, t, j) in Slots(s, t) && Slot(s, t, j) !in cells && Slot(s, t, j) != 0
    ensures Elems([Slot(s, t, j)] + cells) == FirstSlots(s, t, j + 1)
    ensures Slot(s, t, j + 1) == Slot(s, t, j) + Pow2(t)
  {
    var a := Slot(s, t, j);
    if a in cells {
      assert a in Elems(cells);
      var i: nat :| i < j && a == Slot(s, t, i);
      SlotsDisjoint(s, t, i, j);
    }
    ElemsPush(a, cells);
    assert FirstSlots(s, t, j + 1) == {a} + FirstSlots(s, t, j);
    assert (j + 1) * Pow2(t) == j * Pow2(t) + Pow2(t);
    OccupyValue(t);
  }

  lemma WordWritten(was: map<nat, nat>, next: map<nat, nat>, touched: set<nat>, a: nat, v: nat)
    requires WordsKept(was, next, touched) && a in touched
    ensures WordsKept(was, next[a := v], touched)
  {
    forall x | x !in touched ensures SameWord(was, next[a := v], x) { assert SameWord(was, next, x); }
  }

  lemma TwoSlots(s: nat, t: nat, a: nat, b: nat)
    requires IsSlabType(t) && a in Slots(s, t) && b in Slots(s, t) && a != b
    ensures BytesDisjoint(a, Pow2(t), b, Pow2(t))
  {
    var i: nat :| i < BlockNum(t) && a == Slot(s, t, i);
    var j: nat :| j < BlockNum(t) && b == Slot(s, t, j);
    SlotsDisjoint(s, t, i, j);
  }
}
