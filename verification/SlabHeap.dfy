/** What lies in the pages cut into slabs (kernel/src/slab.c): headers, free lists threaded
    through the free blocks, and one linked list of slabs for each CPU and block size.
    Addresses are numbers, 0 is NULL. */
module SlabHeap {
  import opened Words

  const SLAB_SPACE := 4096
  const SLAB_HEADER := 40    // sizeof(Slab)
  const S_8B := 3
  const S_64B := 6
  const S_2K := 11
  const S_REFUSE := 12

  datatype Slab = Slab(cpuId: nat, blockNum: nat, type_: nat, freeList: nat, freeBlockNum: nat, append: nat)

  /** The slabs of one CPU and one block size form one list. */
  datatype ListId = ListId(cpu: nat, type_: nat)

  /** Memory as the slab layer sees it, with the contents of the free lists and slab lists, and
      the blocks now in the callers' hands. */
  datatype Heap = Heap(
    headers: map<nat, Slab>,
    next: map<nat, nat>,
    heads: map<ListId, nat>,
    free: map<nat, seq<nat>>,
    lists: map<ListId, seq<nat>>,
    out: set<nat>)

  // ---------------------------------------------------------------- geometry

  /** align_ptr */
  function AlignPtr(p: nat, k: nat): nat {
    if p % Pow2(k) == 0 then p else AlignDown(p, k) + Pow2(k)
  }

  predicate IsSlabType(t: nat) {
    S_8B <= t <= S_2K
  }

  /** Bytes at the start of a slab's page that hold its header. */
  function Occupy(t: nat): nat {
    AlignPtr(SLAB_HEADER, if t >= S_64B then t else S_64B)
  }

  function BlockNum(t: nat): nat
    requires IsSlabType(t)
  {
    OccupyValue(t);
    (SLAB_SPACE - Occupy(t)) / Pow2(t)
  }

  lemma OccupyValue(t: nat)
    requires IsSlabType(t)
    ensures Occupy(t) == (if t <= S_64B then 64 else Pow2(t)) && SLAB_HEADER < Occupy(t) <= SLAB_SPACE / 2
    ensures 8 <= Pow2(t) <= SLAB_SPACE / 2
  {
    Pow2Monotone(3, t);
    Pow2Monotone(t, 11);
    Pow2Constants();
    var k := if t >= S_64B then t else S_64B;
    Pow2Monotone(6, k);
    DivModUnique(SLAB_HEADER, Pow2(k), 0, SLAB_HEADER);
  }

  /** Header and blocks exactly fill the page, and every block size divides the header's. */
  lemma Layout(t: nat)
    requires IsSlabType(t)
    ensures BlockNum(t) >= 1 && Occupy(t) + Times(BlockNum(t), Pow2(t)) == SLAB_SPACE
    ensures Occupy(t) % Pow2(t) == 0 && SLAB_HEADER < Occupy(t)
  {
    OccupyValue(t);
    var c := if t <= S_64B then Pow2(S_64B - t) else 1;
    assert Occupy(t) == c * Pow2(t) by {
      Pow2Constants();
      if t <= S_64B { Pow2Add(S_64B - t, t); }
    }
    MulMod(c, Pow2(t));
    Pow2Constants();
    Pow2Add(12 - t, t);
    LayoutQuotient(Pow2(12 - t), c, Pow2(t), SLAB_SPACE, Occupy(t));
  }

  lemma LayoutQuotient(n: nat, c: nat, m: nat, space: nat, occupy: nat)
    requires m >= 1 && space == n * m && occupy == c * m && occupy <= space / 2 && space > 0
    ensures (space - occupy) / m >= 1 && occupy + Times((space - occupy) / m, m) == space
  {
    assert space - occupy == (n - c) * m;
    if n <= c { MulMono(n, c, m); }
    MulMod(n - c, m);
  }

  /** The j-th block of the slab at address s. */
  function Slot(s: nat, t: nat, j: nat): nat {
    s + Occupy(t) + Times(j, Pow2(t))
  }

  /** The addresses of all blocks of the slab at s. */
  ghost function Slots(s: nat, t: nat): set<nat>
    requires IsSlabType(t)
  {
    set j: nat | j < BlockNum(t) :: Slot(s, t, j)
  }

  lemma SlotFacts(s: nat, t: nat, j: nat)
    requires IsSlabType(t) && j < BlockNum(t) && Aligned(s, 12)
    ensures s + SLAB_HEADER < Slot(s, t, j) && Slot(s, t, j) + Pow2(t) <= s + SLAB_SPACE
    ensures AlignDown(Slot(s, t, j), 12) == s
    ensures Aligned(Slot(s, t, j), t) && !Aligned(Slot(s, t, j), 12)
  {
    Layout(t);
    OccupyValue(t);
    Pow2Constants();
    var a := Slot(s, t, j);
    NextSlot(j, BlockNum(t), Pow2(t));
    DivModUnique(a, SLAB_SPACE, s / SLAB_SPACE, a - s);
    AlignedWeaken(s, 12, t);
    MulMod(j, Pow2(t));
    AlignedAdd(s, Occupy(t), t);
    AlignedAdd(s + Occupy(t), Times(j, Pow2(t)), t);
  }

  lemma NextSlot(j: nat, l: nat, m: nat)
    requires j < l
    ensures Times(j, m) + m <= Times(l, m)
  {
    MulMono(j + 1, l, m);
  }

  lemma SlotsDisjoint(s: nat, t: nat, j: nat, l: nat)
    requires j != l
    ensures Slot(s, t, j) + Pow2(t) <= Slot(s, t, l) || Slot(s, t, l) + Pow2(t) <= Slot(s, t, j)
  {
    if j < l { NextSlot(j, l, Pow2(t)); } else { NextSlot(l, j, Pow2(t)); }
  }

  // ---------------------------------------------------------------- linked lists

  /** cells is the list starting at head and linked by next. */
  ghost predicate Chain(next: map<nat, nat>, head: nat, cells: seq<nat>)
    decreases |cells|
  {
    if cells == [] then head == 0
    else head == cells[0] && head != 0 && head in next && Chain(next, next[head], cells[1..])
  }

  ghost predicate Distinct(cells: seq<nat>) {
    forall i, j :: 0 <= i < j < |cells| ==> cells[i] != cells[j]
  }

  lemma {:induction false} ChainFrame(next: map<nat, nat>, next': map<nat, nat>, head: nat, cells: seq<nat>)
    requires Chain(next, head, cells)
    requires forall a :: a in cells && a in next ==> a in next' && next'[a] == next[a]
    ensures Chain(next', head, cells)
    decreases |cells|
  {
    if cells != [] {
      assert cells[0] in cells;
      ChainFrame(next, next', next[head], cells[1..]);
    }
  }

  lemma ChainPush(next: map<nat, nat>, head: nat, cells: seq<nat>, a: nat)
    requires Chain(next, head, cells) && a !in cells && a != 0
    ensures Chain(next[a := head], a, [a] + cells)
  {
    ChainFrame(next, next[a := head], head, cells);
    assert ([a] + cells)[1..] == cells;
  }

  /** The link out of the i-th cell leads to the next one, or to NULL from the last. */
  lemma {:induction false} ChainAt(next: map<nat, nat>, head: nat, cells: seq<nat>, i: nat)
    requires Chain(next, head, cells) && i < |cells|
    ensures cells[i] != 0 && cells[i] in next
    ensures next[cells[i]] == if i + 1 < |cells| then cells[i + 1] else 0
    decreases i
  {
    if i > 0 {
      ChainAt(next, next[head], cells[1..], i - 1);
    } else if |cells| > 1 {
      assert cells[1] == cells[1..][0];
    }
  }

  /** Redirecting the link of the i-th cell past the one behind it removes that one. */
  lemma {:induction false} ChainUnlink(next: map<nat, nat>, head: nat, cells: seq<nat>, i: nat)
    requires Chain(next, head, cells) && Distinct(cells) && i + 1 < |cells|
    ensures cells[i + 1] in next
    ensures Chain(next[cells[i] := next[cells[i + 1]]], head, cells[..i + 1] + cells[i + 2..])
    decreases i
  {
    var rest := cells[1..];
    var cells' := cells[..i + 1] + cells[i + 2..];
    ChainAt(next, head, cells, i + 1);
    var next' := next[cells[i] := next[cells[i + 1]]];
    if i == 0 {
      assert cells'[1..] == rest[1..];
      assert forall a :: a in rest[1..] ==> a != cells[0];
      ChainFrame(next, next', next[rest[0]], rest[1..]);
    } else {
      ChainUnlink(next, next[head], rest, i - 1);
      assert cells'[1..] == rest[..i] + rest[i + 1..];
      assert cells[i] == rest[i - 1];
    }
  }

  /** The links between slabs. */
  function Appends(headers: map<nat, Slab>): map<nat, nat> {
    map s | s in headers :: headers[s].append
  }

  // ---------------------------------------------------------------- finite sets

  ghost function Elems(cells: seq<nat>): set<nat> {
    set x | x in cells
  }

  lemma ElemsPush(a: nat, cells: seq<nat>)
    ensures Elems([a] + cells) == {a} + Elems(cells)
  {
  }

  lemma ElemsPop(cells: seq<nat>)
    requires cells != [] && Distinct(cells)
    ensures Elems(cells[1..]) == Elems(cells) - {cells[0]} && Distinct(cells[1..])
    ensures cells[0] in Elems(cells)
  {
    assert cells == [cells[0]] + cells[1..];
    ElemsPush(cells[0], cells[1..]);
    assert cells[0] !in cells[1..];
  }

  lemma {:induction false} DistinctCount(cells: seq<nat>)
    requires Distinct(cells)
    ensures |Elems(cells)| == |cells|
  {
    if cells == [] {
      assert Elems(cells) == {};
    } else {
      ElemsPop(cells);
      DistinctCount(cells[1..]);
      assert Elems(cells) == Elems(cells[1..]) + {cells[0]};
    }
  }

  lemma {:induction false} SlotCount(s: nat, t: nat, n: nat)
    ensures |set j: nat | j < n :: Slot(s, t, j)| == n
  {
    var all := set j: nat | j < n :: Slot(s, t, j);
    if n == 0 {
      assert all == {};
    } else {
      SlotCount(s, t, n - 1);
      var less := set j: nat | j < n - 1 :: Slot(s, t, j);
      forall j: nat | j < n - 1 ensures Slot(s, t, j) != Slot(s, t, n - 1) { SlotsDisjoint(s, t, j, n - 1); }
      assert all == less + {Slot(s, t, n - 1)};
    }
  }

  /** A part is no larger than the whole, and as large only when it is the whole. */
  lemma PartCount(part: set<nat>, whole: set<nat>)
    requires part <= whole
    ensures |part| <= |whole| && (|part| == |whole| ==> part == whole)
  {
    assert whole == part + (whole - part);
    assert |whole| == |part| + |whole - part|;
  }

  // ---------------------------------------------------------------- the invariant

  ghost predicate HeaderOk(s: nat, h: Slab) {
    && s != 0 && Aligned(s, 12) && IsSlabType(h.type_) && h.blockNum == BlockNum(h.type_)
  }

  /** The free list of slab s is a chain of exactly freeBlockNum distinct blocks of s, which with
      the handed-out ones make up all its blocks. */
  ghost predicate SlabOk(H: Heap, s: nat) {
    var holds :=
      && s in H.headers && s in H.free
      && HeaderOk(s, H.headers[s])
      && Chain(H.next, H.headers[s].freeList, H.free[s]) && Distinct(H.free[s])
      && |H.free[s]| == H.headers[s].freeBlockNum
      && Elems(H.free[s]) == Slots(s, H.headers[s].type_) - H.out;
    holds
  }

  /** A handed-out block belongs to the slab its masked address names. */
  ghost predicate OutOk(H: Heap, a: nat) {
    && AlignDown(a, 12) in H.headers && IsSlabType(H.headers[AlignDown(a, 12)].type_)
    && a in Slots(AlignDown(a, 12), H.headers[AlignDown(a, 12)].type_)
  }

  ghost predicate SlabsOk(H: Heap) {
    var holds :=
      && (forall s {:trigger SlabOk(H, s)} :: s in H.headers ==> SlabOk(H, s))
      && (forall a {:trigger OutOk(H, a)} :: a in H.out ==> OutOk(H, a));
    holds
  }

  function IdOf(h: Slab): ListId {
    ListId(h.cpuId, h.type_)
  }

  /** Slab s stands in the list of its CPU and block size. */
  ghost predicate PlaceOk(H: Heap, s: nat) {
    && s in H.headers && IdOf(H.headers[s]) in H.lists && s in H.lists[IdOf(H.headers[s])]
    && IdOf(H.headers[s]) in H.heads
  }

  ghost predicate ListOk(H: Heap, id: ListId) {
    var holds :=
      && id in H.lists && id in H.heads
      && Chain(Appends(H.headers), H.heads[id], H.lists[id]) && Distinct(H.lists[id])
      && (forall s {:trigger s in H.lists[id]} :: s in H.lists[id] ==> s in H.headers && IdOf(H.headers[s]) == id);
    holds
  }

  ghost predicate ListsOk(H: Heap) {
    var holds :=
      && (forall s {:trigger PlaceOk(H, s)} :: s in H.headers ==> PlaceOk(H, s))
      && (forall id {:trigger ListOk(H, id)} :: id in H.lists ==> ListOk(H, id));
    holds
  }

  /** Bound to a name so that a proof of it is one goal. */
  ghost predicate HeapOk(H: Heap) {
    var holds := SlabsOk(H) && ListsOk(H);
    holds
  }

  ghost predicate IsFirst(H: Heap, s: nat) {
    s in H.headers && IdOf(H.headers[s]) in H.heads && H.heads[IdOf(H.headers[s])] == s
  }

  /** Slab s keeps its page for a reason: one of its blocks is in use, or it is the first of its
      list. */
  ghost predicate Needed(H: Heap, s: nat) {
    s in H.headers && (IsFirst(H, s) || H.headers[s].freeBlockNum < H.headers[s].blockNum)
  }

  /** No slab behind the first of a list is entirely free. */
  ghost predicate Tidy(H: Heap) {
    forall s {:trigger Needed(H, s)} :: s in H.headers ==> Needed(H, s)
  }

  /** The same, but for slab a. */
  ghost predicate TidyBut(H: Heap, a: nat) {
    forall s {:trigger Needed(H, s)} :: s in H.headers && s != a ==> Needed(H, s)
  }

  ghost predicate HasRoom(H: Heap, s: nat) {
    s in H.headers && H.headers[s].freeBlockNum > 0
  }

  /** Every slab of the list is full. */
  ghost predicate NoRoom(H: Heap, id: ListId) {
    id in H.lists && forall s {:trigger s in H.lists[id]} :: s in H.lists[id] ==> !HasRoom(H, s)
  }

  /** Slab s is the first of the list with a free block. */
  ghost predicate FirstWithRoom(H: Heap, id: ListId, s: nat) {
    && id in H.lists && HasRoom(H, s)
    && exists i {:trigger H.lists[id][i]} :: 0 <= i < |H.lists[id]| && H.lists[id][i] == s && FullBefore(H, id, i)
  }

  ghost predicate FullBefore(H: Heap, id: ListId, i: int) {
    id in H.lists && forall j {:trigger H.lists[id][j]} ::
        0 <= j < i && j < |H.lists[id]| ==> !HasRoom(H, H.lists[id][j])
  }

  /** The first slab of the list, if there is one, has a block in use. */
  ghost predicate FirstInUse(H: Heap, id: ListId) {
    && id in H.heads
    && (H.heads[id] in H.headers ==>
          H.headers[H.heads[id]].freeBlockNum < H.headers[H.heads[id]].blockNum)
  }

  lemma SlotOwner(s: nat, t: nat, a: nat)
    requires IsSlabType(t) && Aligned(s, 12) && a in Slots(s, t)
    ensures AlignDown(a, 12) == s && a > s && a != 0
  {
    var j: nat :| j < BlockNum(t) && a == Slot(s, t, j);
    SlotFacts(s, t, j);
  }

  /** No slab has more free blocks than blocks; it has as many exactly when none is in use. */
  lemma FreeCount(H: Heap, s: nat)
    requires SlabOk(H, s)
    ensures H.headers[s].freeBlockNum <= H.headers[s].blockNum
    ensures H.headers[s].freeBlockNum == H.headers[s].blockNum <==> Slots(s, H.headers[s].type_) !! H.out
  {
    var t := H.headers[s].type_;
    SlotCount(s, t, BlockNum(t));
    DistinctCount(H.free[s]);
    PartCount(Elems(H.free[s]), Slots(s, t));
    if Slots(s, t) !! H.out { assert Elems(H.free[s]) == Slots(s, t); }
  }

  // ---------------------------------------------------------------- taking and returning a block

  /** A slab keeps its free list when a block of another slab moves. */
  lemma OtherSlab(H: Heap, H': Heap, s: nat, a: nat)
    requires SlabOk(H, s) && s in H'.headers && s in H'.free && H'.free[s] == H.free[s]
    requires H'.headers[s] == H.headers[s] && AlignDown(a, 12) != s
    requires forall x :: x != a && x in H.next ==> x in H'.next && H'.next[x] == H.next[x]
    requires forall x :: x != a ==> (x in H'.out <==> x in H.out)
    ensures SlabOk(H', s)
  {
    var t := H.headers[s].type_;
    if a in Slots(s, t) { SlotOwner(s, t, a); }
    assert forall x :: x in H.free[s] ==> x in Elems(H.free[s]);
    ChainFrame(H.next, H'.next, H.headers[s].freeList, H.free[s]);
    assert Slots(s, t) - H'.out == Slots(s, t) - H.out;
  }

  /** Changing a slab's free list leaves the lists of slabs as they are. */
  lemma ListsKept(H: Heap, H': Heap, s: nat)
    requires ListsOk(H) && s in H.headers && H'.heads == H.heads && H'.lists == H.lists
    requires s in H'.headers && H'.headers == H.headers[s := H'.headers[s]] && IdOf(H.headers[s]) in H.heads
    requires H'.headers[s].append == H.headers[s].append && IdOf(H'.headers[s]) == IdOf(H.headers[s])
    ensures ListsOk(H')
  {
    assert Appends(H'.headers) == Appends(H.headers);
    forall id | id in H'.lists ensures ListOk(H', id) { assert ListOk(H, id); }
    forall x | x in H'.headers ensures PlaceOk(H', x) { assert PlaceOk(H, x); }
  }

  /** alloc_block_from_slab: the head of the free list goes to the caller. */
  ghost function Taken(H: Heap, s: nat): Heap
    requires SlabOk(H, s) && H.headers[s].freeBlockNum > 0
  {
    var h := H.headers[s];
    H.(headers := H.headers[s := h.(freeList := H.next[h.freeList], freeBlockNum := h.freeBlockNum - 1)],
       free := H.free[s := H.free[s][1..]],
       out := H.out + {h.freeList})
  }

  lemma TakenSlab(H: Heap, s: nat)
    requires SlabOk(H, s) && H.headers[s].freeBlockNum > 0
    ensures var a := H.headers[s].freeList;
            a !in H.out && a in Slots(s, H.headers[s].type_) && AlignDown(a, 12) == s
    ensures SlabOk(Taken(H, s), s)
  {
    var h, cells := H.headers[s], H.free[s];
    ElemsPop(cells);
    SlotOwner(s, h.type_, h.freeList);
    assert Slots(s, h.type_) - (H.out + {h.freeList}) == (Slots(s, h.type_) - H.out) - {h.freeList};
  }

  lemma TakenOk(H: Heap, s: nat)
    requires HeapOk(H) && s in H.headers && H.headers[s].freeBlockNum > 0
    ensures SlabOk(H, s) && HeapOk(Taken(H, s))
  {
    assert SlabOk(H, s);
    var H' := Taken(H, s);
    var a := H.headers[s].freeList;
    TakenSlab(H, s);
    forall x | x in H'.headers ensures SlabOk(H', x) {
      assert SlabOk(H, x);
      if x != s { OtherSlab(H, H', x, a); }
    }
    forall x | x in H'.out ensures OutOk(H', x) {
      if x != a { assert OutOk(H, x); }
    }
    assert PlaceOk(H, s);
    ListsKept(H, H', s);
  }

  lemma TakenTidy(H: Heap, s: nat)
    requires SlabOk(H, s) && H.headers[s].freeBlockNum > 0 && Tidy(H)
    ensures Tidy(Taken(H, s))
  {
    FreeCount(H, s);
    forall x | x in Taken(H, s).headers ensures Needed(Taken(H, s), x) { assert Needed(H, x); }
  }

  /** slab_free: the block goes to the front of its slab's free list. */
  ghost function Returned(H: Heap, s: nat, a: nat): Heap
    requires s in H.headers && s in H.free
  {
    var h := H.headers[s];
    H.(headers := H.headers[s := h.(freeList := a, freeBlockNum := h.freeBlockNum + 1)],
       next := H.next[a := h.freeList],
       free := H.free[s := [a] + H.free[s]],
       out := H.out - {a})
  }

  lemma ReturnedSlab(H: Heap, s: nat, a: nat)
    requires SlabOk(H, s) && a in H.out && a in Slots(s, H.headers[s].type_)
    ensures AlignDown(a, 12) == s && SlabOk(Returned(H, s, a), s)
  {
    var h, cells := H.headers[s], H.free[s];
    SlotOwner(s, h.type_, a);
    assert a !in Elems(cells);
    ElemsPush(a, cells);
    ChainPush(H.next, h.freeList, cells, a);
    assert Slots(s, h.type_) - (H.out - {a}) == {a} + (Slots(s, h.type_) - H.out);
  }

  lemma ReturnedOk(H: Heap, s: nat, a: nat)
    requires HeapOk(H) && a in H.out && s == AlignDown(a, 12)
    ensures SlabOk(H, s) && HeapOk(Returned(H, s, a))
    ensures Returned(H, s, a).headers[s].freeBlockNum <= Returned(H, s, a).headers[s].blockNum
  {
    assert OutOk(H, a);
    assert SlabOk(H, s);
    assert PlaceOk(H, s);
    var H' := Returned(H, s, a);
    ReturnedSlab(H, s, a);
    forall x | x in H'.headers ensures SlabOk(H', x) {
      assert SlabOk(H, x);
      if x != s { OtherSlab(H, H', x, a); }
    }
    forall x | x in H'.out ensures OutOk(H', x) { assert OutOk(H, x); }
    FreeCount(H', s);
    ListsKept(H, H', s);
  }

  lemma ReturnedTidy(H: Heap, s: nat, a: nat)
    requires SlabOk(H, s) && Tidy(H)
    ensures TidyBut(Returned(H, s, a), s)
    ensures Needed(Returned(H, s, a), s) ==> Tidy(Returned(H, s, a))
  {
    var H' := Returned(H, s, a);
    forall x | x in H'.headers && x != s ensures Needed(H', x) { assert Needed(H, x); }
  }

  /** A caller writing to a block it holds disturbs no list: links live in free blocks only. */
  lemma WrittenOk(H: Heap, p: nat, v: nat)
    requires HeapOk(H) && p in H.out
    ensures HeapOk(H.(next := H.next[p := v]))
  {
    var H' := H.(next := H.next[p := v]);
    forall x | x in H'.headers ensures SlabOk(H', x) {
      assert SlabOk(H, x);
      WrittenSlab(H, x, p, v);
    }
    forall a | a in H'.out ensures OutOk(H', a) { assert OutOk(H, a); }
    OnlyMemoryChanged(H, H');
  }

  lemma WrittenSlab(H: Heap, x: nat, p: nat, v: nat)
    requires SlabOk(H, x) && p in H.out
    ensures SlabOk(H.(next := H.next[p := v]), x)
  {
    assert forall a :: a in H.free[x] ==> a in Elems(H.free[x]);
    ChainFrame(H.next, H.next[p := v], H.headers[x].freeList, H.free[x]);
  }

  lemma OnlyMemoryChanged(H: Heap, H': Heap)
    requires ListsOk(H) && H' == H.(next := H'.next)
    ensures ListsOk(H')
  {
    forall id | id in H'.lists ensures ListOk(H', id) { assert ListOk(H, id); }
    forall x | x in H'.headers ensures PlaceOk(H', x) { assert PlaceOk(H, x); }
  }

  // ---------------------------------------------------------------- adding and removing a slab

  /** slab_init: a page cut into blocks, all free, becomes the first slab of its list. next' is
      memory after the blocks were threaded together. */
  ghost function Added(H: Heap, s: nat, id: ListId, next': map<nat, nat>, head: nat, cells: seq<nat>): Heap
    requires IsSlabType(id.type_) && id in H.heads && id in H.lists
  {
    var n := BlockNum(id.type_);
    H.(headers := H.headers[s := Slab(id.cpu, n, id.type_, head, n, H.heads[id])],
       next := next',
       heads := H.heads[id := s],
       free := H.free[s := cells],
       lists := H.lists[id := [s] + H.lists[id]])
  }

  ghost predicate SameWord(next: map<nat, nat>, next': map<nat, nat>, x: nat) {
    (x in next' <==> x in next) && (x in next ==> next'[x] == next[x])
  }

  /** Memory is as it was but at the touched addresses. */
  ghost predicate WordsKept(next: map<nat, nat>, next': map<nat, nat>, touched: set<nat>) {
    forall x {:trigger SameWord(next, next', x)} :: x !in touched ==> SameWord(next, next', x)
  }

  ghost predicate Threaded(H: Heap, s: nat, t: nat, next': map<nat, nat>, head: nat, cells: seq<nat>)
    requires IsSlabType(t)
  {
    && Chain(next', head, cells) && Distinct(cells) && |cells| == BlockNum(t) && Elems(cells) == Slots(s, t)
    && WordsKept(H.next, next', Slots(s, t))
  }

  /** A slab in another page keeps its free list. */
  lemma SlabInOtherPage(H: Heap, H': Heap, s: nat, s': nat, t': nat)
    requires SlabOk(H, s') && IsSlabType(t') && s != s' && Aligned(s, 12)
    requires s' in H'.headers && s' in H'.free && H'.free[s'] == H.free[s'] && H'.out == H.out
    requires H'.headers[s'].(append := 0) == H.headers[s'].(append := 0)
    requires WordsKept(H.next, H'.next, Slots(s, t'))
    ensures SlabOk(H', s')
  {
    forall x | x in H.free[s'] && x in H.next ensures x in H'.next && H'.next[x] == H.next[x] {
      assert x in Elems(H.free[s']);
      SlotOwner(s', H.headers[s'].type_, x);
      if x in Slots(s, t') { SlotOwner(s, t', x); }
      assert SameWord(H.next, H'.next, x);
    }
    ChainFrame(H.next, H'.next, H.headers[s'].freeList, H.free[s']);
  }

  lemma AddedSlabs(H: Heap, s: nat, id: ListId, next': map<nat, nat>, head: nat, cells: seq<nat>)
    requires HeapOk(H) && s !in H.headers && s != 0 && Aligned(s, 12)
    requires IsSlabType(id.type_) && id in H.heads && id in H.lists
    requires Threaded(H, s, id.type_, next', head, cells)
    ensures SlabsOk(Added(H, s, id, next', head, cells))
  {
    var H' := Added(H, s, id, next', head, cells);
    forall x | x in Slots(s, id.type_) ensures x !in H.out {
      SlotOwner(s, id.type_, x);
      assert x in H.out ==> OutOk(H, x);
    }
    assert Slots(s, id.type_) - H'.out == Slots(s, id.type_);
    forall x | x in H'.headers ensures SlabOk(H', x) {
      if x != s {
        assert SlabOk(H, x);
        SlabInOtherPage(H, H', s, x, id.type_);
      }
    }
    forall a | a in H'.out ensures OutOk(H', a) { assert OutOk(H, a); }
  }

  lemma AddedList(H: Heap, s: nat, id: ListId, next': map<nat, nat>, head: nat, cells: seq<nat>)
    requires HeapOk(H) && s !in H.headers && s != 0 && Aligned(s, 12)
    requires IsSlabType(id.type_) && id in H.heads && id in H.lists
    requires Threaded(H, s, id.type_, next', head, cells)
    ensures forall l :: l in H.lists ==> ListOk(Added(H, s, id, next', head, cells), l)
  {
    var H' := Added(H, s, id, next', head, cells);
    forall l | l in H.lists ensures ListOk(H', l) {
      assert ListOk(H, l);
      assert s !in H.lists[l];
      ChainFrame(Appends(H.headers), Appends(H'.headers), H.heads[l], H.lists[l]);
      if l == id { assert ([s] + H.lists[id])[1..] == H.lists[id]; }
    }
  }

  lemma AddedOk(H: Heap, s: nat, id: ListId, next': map<nat, nat>, head: nat, cells: seq<nat>)
    requires HeapOk(H) && s !in H.headers && s != 0 && Aligned(s, 12)
    requires IsSlabType(id.type_) && id in H.heads && id in H.lists
    requires Threaded(H, s, id.type_, next', head, cells)
    ensures HeapOk(Added(H, s, id, next', head, cells))
  {
    var H' := Added(H, s, id, next', head, cells);
    AddedSlabs(H, s, id, next', head, cells);
    AddedList(H, s, id, next', head, cells);
    forall x | x in H'.headers ensures PlaceOk(H', x) {
      if x != s { assert PlaceOk(H, x); }
    }
  }

  lemma AddedTidy(H: Heap, s: nat, id: ListId, next': map<nat, nat>, head: nat, cells: seq<nat>)
    requires Tidy(H) && s !in H.headers && FirstInUse(H, id) && IsSlabType(id.type_) && id in H.lists
    ensures Tidy(Added(H, s, id, next', head, cells))
  {
    var H' := Added(H, s, id, next', head, cells);
    forall x | x in H'.headers ensures Needed(H', x) {
      if x != s { assert Needed(H, x); }
    }
  }

  /** recover_slab: the i-th slab of the list is linked past the one behind it, whose page is
      given up. */
  ghost function Unlinked(H: Heap, id: ListId, i: nat): Heap
    requires id in H.lists && i + 1 < |H.lists[id]|
    requires H.lists[id][i] in H.headers && H.lists[id][i + 1] in H.headers
  {
    var l := H.lists[id];
    var prev, s := l[i], l[i + 1];
    H.(headers := H.headers[prev := H.headers[prev].(append := H.headers[s].append)] - {s},
       free := H.free - {s},
       lists := H.lists[id := l[..i + 1] + l[i + 2..]])
  }

  lemma UnlinkedSlabs(H: Heap, id: ListId, i: nat)
    requires SlabsOk(H) && id in H.lists && ListOk(H, id) && i + 1 < |H.lists[id]|
    requires H.lists[id][i] in H.headers && H.lists[id][i + 1] in H.headers
    requires H.headers[H.lists[id][i + 1]].freeBlockNum == H.headers[H.lists[id][i + 1]].blockNum
    ensures SlabsOk(Unlinked(H, id, i))
  {
    var s := H.lists[id][i + 1];
    var H' := Unlinked(H, id, i);
    assert SlabOk(H, s);
    FreeCount(H, s);
    forall x | x in H'.headers ensures SlabOk(H', x) { assert SlabOk(H, x); }
    forall a | a in H'.out ensures OutOk(H', a) { assert OutOk(H, a); }
  }

  lemma UnlinkedOtherLists(H: Heap, id: ListId, i: nat, m: ListId)
    requires id in H.lists && ListOk(H, id) && i + 1 < |H.lists[id]|
    requires H.lists[id][i] in H.headers && H.lists[id][i + 1] in H.headers
    requires m != id && m in H.lists && ListOk(H, m)
    ensures ListOk(Unlinked(H, id, i), m)
  {
    var l := H.lists[id];
    assert l[i] in l && l[i + 1] in l;
    assert l[i] !in H.lists[m] && l[i + 1] !in H.lists[m];
    ChainFrame(Appends(H.headers), Appends(Unlinked(H, id, i).headers), H.heads[m], H.lists[m]);
  }

  lemma UnlinkedOk(H: Heap, id: ListId, i: nat)
    requires HeapOk(H) && id in H.lists && ListOk(H, id) && i + 1 < |H.lists[id]|
    requires H.lists[id][i] in H.headers && H.lists[id][i + 1] in H.headers
    requires H.headers[H.lists[id][i + 1]].freeBlockNum == H.headers[H.lists[id][i + 1]].blockNum
    ensures HeapOk(Unlinked(H, id, i))
  {
    var l := H.lists[id];
    var s := l[i + 1];
    var H' := Unlinked(H, id, i);
    UnlinkedSlabs(H, id, i);
    UnlinkedList(H, id, i);
    forall m | m in H'.lists ensures ListOk(H', m) {
      assert ListOk(H, m);
      if m != id { UnlinkedOtherLists(H, id, i, m); }
    }
    forall x | x in H'.headers ensures PlaceOk(H', x) {
      assert PlaceOk(H, x);
      if IdOf(H.headers[x]) == id { Without(l, i, x); }
    }
  }

  lemma UnlinkedTidy(H: Heap, id: ListId, i: nat)
    requires id in H.lists && i + 1 < |H.lists[id]| && H.lists[id][i] in H.headers
    requires H.lists[id][i + 1] in H.headers && TidyBut(H, H.lists[id][i + 1])
    ensures Tidy(Unlinked(H, id, i))
  {
    forall x | x in Unlinked(H, id, i).headers ensures Needed(Unlinked(H, id, i), x) { assert Needed(H, x); }
  }

  /** Removing one element of a list without repetitions removes just that element. */
  lemma Without(l: seq<nat>, i: nat, x: nat)
    requires Distinct(l) && i + 1 < |l|
    ensures x in l[..i + 1] + l[i + 2..] <==> x in l && x != l[i + 1]
    ensures Distinct(l[..i + 1] + l[i + 2..])
  {
    var l' := l[..i + 1] + l[i + 2..];
    if x in l && x != l[i + 1] {
      var j :| 0 <= j < |l| && l[j] == x;
      assert l'[if j <= i then j else j - 1] == x;
    }
  }

  lemma UnlinkedList(H: Heap, id: ListId, i: nat)
    requires id in H.lists && ListOk(H, id) && i + 1 < |H.lists[id]|
    requires H.lists[id][i] in H.headers && H.lists[id][i + 1] in H.headers
    ensures ListOk(Unlinked(H, id, i), id)
  {
    var l := H.lists[id];
    var prev, s := l[i], l[i + 1];
    var H' := Unlinked(H, id, i);
    var links := Appends(H.headers);
    var l' := H'.lists[id];
    ChainUnlink(links, H.heads[id], l, i);
    forall x ensures x in l' <==> x in l && x != s { Without(l, i, x); }
    Without(l, i, s);
    ChainFrame(links[prev := links[s]], Appends(H'.headers), H.heads[id], l');
  }
}
