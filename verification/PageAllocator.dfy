/** The page layer (kernel/src/page.c): 16M units, each described by one buddy tree kept in an
    array, `page_alloc` and `page_free`. */
module PageAllocator {
  import opened Words
  import opened BuddyTree

  const PHSICS_UNIT := 0x100_0000
  const MAX_PAGE_SIZE := 8192
  const MAX_PAGE_NUM := 255

  /** One handed-out block: 2^k bytes from addr on. */
  datatype Block = Block(addr: nat, k: nat)

  /** A `Page` pointer together with the 8192 entries it points to. */
  datatype Page = Page(addr: nat, nodes: array<int>)

  /** The guard of `free_space_in_page`. As written it returns when the block reaches past ptr,
      which at the root is true of every pointer of the unit; the intended guard returns when ptr
      is at or past the end of the block. */
  datatype FreeGuard = AsWritten | Intended

  // ---------------------------------------------------------------- handed-out blocks

  ghost predicate AllInv(trees: seq<Entries>) {
    forall u :: 0 <= u < |trees| ==> Inv(trees[u])
  }

  function NodeAddr(base: nat, u: nat, n: nat): nat
    requires IsNode(n)
  {
    base + u * PHSICS_UNIT + Offset(n)
  }

  ghost predicate IsBlockAt(base: nat, trees: seq<Entries>, b: Block, u: nat, n: nat) {
    u < |trees| && Live(trees[u], n) && b.addr == NodeAddr(base, u, n) && b.k == Class(n)
  }

  ghost predicate IsBlock(base: nat, trees: seq<Entries>, b: Block) {
    exists u: nat, n: nat :: IsBlockAt(base, trees, b, u, n)
  }

  ghost predicate BytesDisjoint(a: nat, aLen: nat, b: nat, bLen: nat) {
    a + aLen <= b || b + bLen <= a
  }

  ghost predicate BlocksDisjoint(a: Block, b: Block) {
    BytesDisjoint(a.addr, Pow2(a.k), b.addr, Pow2(b.k))
  }

  /** The bytes of a node lie inside its unit and start at a multiple of the node's size. */
  lemma NodeInUnit(base: nat, u: nat, n: nat)
    requires IsNode(n) && Aligned(base, P_16M)
    ensures P_4K <= Class(n) <= P_16M && Aligned(NodeAddr(base, u, n), Class(n))
    ensures base + u * PHSICS_UNIT <= NodeAddr(base, u, n)
    ensures NodeAddr(base, u, n) + Pow2(Class(n)) <= base + (u + 1) * PHSICS_UNIT
    ensures AlignDown(NodeAddr(base, u, n), P_16M) == base + u * PHSICS_UNIT
  {
    OffsetInUnit(n);
    NodeAligned(base, u, n);
    UnitAligned(base, u);
    DownToUnit(base + u * PHSICS_UNIT, Offset(n));
  }

  lemma OffsetInUnit(n: nat)
    requires IsNode(n)
    ensures Class(n) >= 0 && Offset(n) + Pow2(Class(n)) <= PHSICS_UNIT
    ensures Offset(n) < PHSICS_UNIT
  {
    ClassBounds(n);
    RootAbove(n);
    UnderClass(1, n);
    Pow2Constants();
  }

  lemma NodeAligned(base: nat, u: nat, n: nat)
    requires IsNode(n) && Aligned(base, P_16M)
    ensures P_4K <= Class(n) <= P_16M && Aligned(NodeAddr(base, u, n), Class(n))
  {
    ClassBounds(n);
    UnitAligned(base, u);
    OffsetAligned(n);
    AlignedWeaken(base + u * PHSICS_UNIT, P_16M, Class(n));
    AlignedAdd(base + u * PHSICS_UNIT, Offset(n), Class(n));
  }

  lemma UnitAligned(base: nat, u: nat)
    requires Aligned(base, P_16M)
    ensures Aligned(base + u * PHSICS_UNIT, P_16M)
  {
    Pow2Constants();
    MulMod(u, PHSICS_UNIT);
    AlignedAdd(base, u * PHSICS_UNIT, P_16M);
  }

  lemma OffsetAligned(n: nat)
    requires IsNode(n)
    ensures Class(n) >= 0 && Aligned(Offset(n), Class(n))
  {
    OffsetClosedForm(n);
    var q, m := n - Pow2(P_16M - Class(n)), Pow2(Class(n));
    assert Times(m, q) == q * m;
    MulMod(q, m);
  }

  lemma DownToUnit(unit: nat, o: nat)
    requires Aligned(unit, P_16M) && o < PHSICS_UNIT
    ensures AlignDown(unit + o, P_16M) == unit
  {
    Pow2Constants();
    DivModUnique(unit + o, PHSICS_UNIT, unit / PHSICS_UNIT, o);
  }

  /** Handed-out blocks of all units: aligned to their own size and pairwise byte-disjoint; a
      block is determined by any node holding it. */
  lemma DistinctBlocksDisjoint(base: nat, trees: seq<Entries>, a: Block, ua: nat, na: nat, b: Block, ub: nat, nb: nat)
    requires AllInv(trees) && Aligned(base, P_16M)
    requires IsBlockAt(base, trees, a, ua, na) && IsBlockAt(base, trees, b, ub, nb)
    requires ua != ub || na != nb
    ensures BlocksDisjoint(a, b) && a.addr != b.addr
  {
    NodeInUnit(base, ua, na);
    NodeInUnit(base, ub, nb);
    if ua < ub {
      MulMono(ua + 1, ub, PHSICS_UNIT);
    } else if ub < ua {
      MulMono(ub + 1, ua, PHSICS_UNIT);
    } else {
      LiveDisjoint(trees[ua], na, nb);
    }
  }

  lemma BlocksSeparate(base: nat, trees: seq<Entries>, a: Block, b: Block)
    requires AllInv(trees) && Aligned(base, P_16M)
    requires IsBlock(base, trees, a) && IsBlock(base, trees, b) && a != b
    ensures BlocksDisjoint(a, b) && a.addr != b.addr
  {
    var ua: nat, na: nat :| IsBlockAt(base, trees, a, ua, na);
    var ub: nat, nb: nat :| IsBlockAt(base, trees, b, ub, nb);
    DistinctBlocksDisjoint(base, trees, a, ua, na, b, ub, nb);
  }

  /** Handing out a node of unit u adds exactly one block, disjoint from all the others. */
  lemma AllocBlocks(base: nat, trees: seq<Entries>, u: nat, t': Entries, req: nat)
    requires AllInv(trees) && Aligned(base, P_16M) && u < |trees|
    requires CanServe(trees[u], 1, req)
    requires Allocated(trees[u], t', 1, Descent(trees[u], 1, req), req)
    ensures AllInv(trees[u := t'])
    ensures var b := Block(NodeAddr(base, u, Descent(trees[u], 1, req)), req);
            && !IsBlock(base, trees, b)
            && (forall x :: IsBlock(base, trees[u := t'], x) <==> IsBlock(base, trees, x) || x == b)
            && (forall x :: IsBlock(base, trees, x) ==> BlocksDisjoint(x, b) && x.addr != b.addr)
  {
    var n := Descent(trees[u], 1, req);
    var b := Block(NodeAddr(base, u, n), req);
    var trees' := trees[u := t'];
    AllocKeepsInv(trees[u], t', req);
    assert IsBlockAt(base, trees', b, u, n);
    forall x ensures IsBlock(base, trees', x) <==> IsBlock(base, trees, x) || x == b {
      if IsBlock(base, trees, x) {
        var v: nat, m: nat :| IsBlockAt(base, trees, x, v, m);
        assert IsBlockAt(base, trees', x, v, m);
      }
      if IsBlock(base, trees', x) {
        var v: nat, m: nat :| IsBlockAt(base, trees', x, v, m);
        if v != u || m != n { assert IsBlockAt(base, trees, x, v, m); }
      }
    }
    forall x | IsBlock(base, trees, x) ensures BlocksDisjoint(x, b) && x.addr != b.addr {
      var v: nat, m: nat :| IsBlockAt(base, trees, x, v, m);
      assert IsBlockAt(base, trees', x, v, m);
      DistinctBlocksDisjoint(base, trees', x, v, m, b, u, n);
    }
  }

  /** The whole effect of a successful page_alloc: the first unit whose root covers the request
      hands out the node the descent reaches there. */
  ghost predicate Served(base: nat, ts: seq<Entries>, ts': seq<Entries>, a: nat, req: nat, u: nat) {
    && AllInv(ts) && u < |ts| == |ts'|
    && (forall v :: 0 <= v < u ==> ts[v][1] < req)
    && CanServe(ts[u], 1, req)
    && Allocated(ts[u], ts'[u], 1, Descent(ts[u], 1, req), req)
    && (forall v :: 0 <= v < |ts| && v != u ==> ts'[v] == ts[v])
    && a == NodeAddr(base, u, Descent(ts[u], 1, req))
  }

  /** a is the lowest address at which a block of 2^k bytes is on offer, in the first unit whose root covers
      the class: no entry on the way down to the block refuses it. */
  ghost predicate LowestOffered(base: nat, ts: seq<Entries>, a: nat, k: int) {
    exists u: nat {:trigger ts[u]} :: u < |ts| && ts[u][1] >= k && (forall v :: 0 <= v < u ==> ts[v][1] < k) &&
        (exists n: nat :: Offered(ts[u], 1, n, k) && a == NodeAddr(base, u, n)) &&
        (forall j: nat :: Offered(ts[u], 1, j, k) ==> a <= NodeAddr(base, u, j))
  }

  lemma ServedIsLowest(base: nat, ts: seq<Entries>, ts': seq<Entries>, a: nat, req: nat, u: nat)
    requires Served(base, ts, ts', a, req, u)
    ensures LowestOffered(base, ts, a, req)
  {
    var n := Descent(ts[u], 1, req);
    DescentIsLowest(ts[u], 1, req, n);
    forall j: nat | Offered(ts[u], 1, j, req) ensures a <= NodeAddr(base, u, j) {
      DescentIsLowest(ts[u], 1, req, j);
    }
  }

  /** b was added to the handed-out blocks: it is new, disjoint from the others, aligned to its
      own size and inside the heap. */
  ghost predicate IsNewBlock(base: nat, ts: seq<Entries>, ts': seq<Entries>, b: Block) {
    var holds :=
      && !IsBlock(base, ts, b)
      && (forall x :: IsBlock(base, ts', x) <==> IsBlock(base, ts, x) || x == b)
      && (forall x :: IsBlock(base, ts, x) ==> BlocksDisjoint(x, b) && x.addr != b.addr)
      && Aligned(b.addr, b.k) && base <= b.addr && b.addr + Pow2(b.k) <= base + |ts| * PHSICS_UNIT;
    holds
  }

  /** b is no longer handed out; every other block is as before. */
  ghost predicate BlockRemoved(base: nat, ts: seq<Entries>, ts': seq<Entries>, b: Block) {
    forall x :: IsBlock(base, ts', x) <==> IsBlock(base, ts, x) && x != b
  }

  lemma ServedIsNewBlock(base: nat, ts: seq<Entries>, ts': seq<Entries>, a: nat, req: nat, u: nat)
    requires Served(base, ts, ts', a, req, u) && Aligned(base, P_16M)
    ensures AllInv(ts') && IsNewBlock(base, ts, ts', Block(a, req))
  {
    assert ts' == ts[u := ts'[u]];
    AllocBlocks(base, ts, u, ts'[u], req);
    NodeInUnit(base, u, Descent(ts[u], 1, req));
    MulMono(u + 1, |ts|, PHSICS_UNIT);
  }

  /** Taking back node n of unit u removes exactly its block. */
  lemma FreeBlocks(base: nat, trees: seq<Entries>, u: nat, t': Entries, n: nat)
    requires AllInv(trees) && Aligned(base, P_16M) && u < |trees|
    requires Live(trees[u], n) && Freed(trees[u], t', 1, n)
    ensures AllInv(trees[u := t'])
    ensures Class(n) >= 0
    ensures var b := Block(NodeAddr(base, u, n), Class(n));
            forall x :: IsBlock(base, trees[u := t'], x) <==> IsBlock(base, trees, x) && x != b
  {
    ClassBounds(n);
    var b := Block(NodeAddr(base, u, n), Class(n));
    var trees' := trees[u := t'];
    FreeKeepsInv(trees[u], t', n);
    forall x ensures IsBlock(base, trees', x) <==> IsBlock(base, trees, x) && x != b {
      if IsBlock(base, trees, x) {
        var v: nat, m: nat :| IsBlockAt(base, trees, x, v, m);
        if v == u && m == n {
          assert x == b;
        } else {
          assert IsBlockAt(base, trees', x, v, m);
        }
      }
      if IsBlock(base, trees', x) {
        var v: nat, m: nat :| IsBlockAt(base, trees', x, v, m);
        assert IsBlockAt(base, trees, x, v, m);
        DistinctBlocksDisjoint(base, trees, x, v, m, b, u, n);
      }
    }
  }

  /** When no block is handed out any more, every entry of every unit is as page_init left it. */
  lemma NoBlocksMeansInitial(base: nat, trees: seq<Entries>)
    requires AllInv(trees) && forall x :: !IsBlock(base, trees, x)
    ensures forall u :: 0 <= u < |trees| ==> IsInitial(trees[u])
  {
    forall u | 0 <= u < |trees| ensures IsInitial(trees[u]) {
      forall n ensures !Live(trees[u], n) {
        if Live(trees[u], n) {
          ClassBounds(n);
          var b := Block(NodeAddr(base, u, n), Class(n));
          assert IsBlockAt(base, trees, b, u, n);
          assert IsBlock(base, trees, b);
        }
      }
      AllFreeIsInitial(trees[u]);
    }
  }

  // ---------------------------------------------------------------- trans_page_size

  /** Units as page_init leaves them keep the invariant and have nothing handed out. */
  lemma NothingHanded(base: nat, ts: seq<Entries>)
    requires forall u :: 0 <= u < |ts| ==> IsInitial(ts[u])
    ensures AllInv(ts) && forall b {:trigger IsBlock(base, ts, b)} :: !IsBlock(base, ts, b)
  {
    forall u | 0 <= u < |ts| ensures Inv(ts[u]) && forall n :: !Live(ts[u], n) {
      InitialInv(ts[u]);
    }
  }

  /** The smallest of the 13 classes with room for size bytes, or P_REFUSE. */
  function PageClass(size: nat): (r: nat) {
    FirstFit(size, P_4K, P_REFUSE)
  }

  method TransPageSize(size: nat) returns (k: nat)
    ensures k == PageClass(size)
  {
    k := P_4K;
    while k < P_REFUSE
      invariant P_4K <= k <= P_REFUSE
      invariant PageClass(size) == FirstFit(size, k, P_REFUSE)
    {
      if size <= Pow2(k) { return; }
      k := k + 1;
    }
    return P_REFUSE;
  }

  // ---------------------------------------------------------------- the page system

  /** The trees of units u and v are different arrays. */
  ghost predicate Differ(pool: seq<Page>, u: nat, v: nat) {
    u < |pool| && v < |pool| && pool[u].nodes != pool[v].nodes
  }

  class PageSystem {
    var pool: seq<Page>         // page_pool
    var realPageNum: nat        // real_page_num
    var beginPageAddr: nat      // begin_page_addr
    var beginAllocAddr: nat     // begin_alloc_addr

    ghost function Repr(): set<object>
      reads this
    {
      set u | 0 <= u < |pool| :: pool[u].nodes as object
    }

    /** The entries of every unit. */
    ghost function Trees(): (ts: seq<Entries>)
      requires forall u :: 0 <= u < |pool| ==> pool[u].nodes.Length == PAGE_NODE_NUM
      reads this, Repr()
      ensures |ts| == |pool| && forall u :: 0 <= u < |pool| ==> ts[u] == pool[u].nodes[..]
    {
      seq(|pool|, u requires 0 <= u < |pool| && pool[u].nodes.Length == PAGE_NODE_NUM reads this, Repr() =>
        pool[u].nodes[..])
    }

    ghost predicate Shape()
      reads this
    {
      && realPageNum == |pool| <= MAX_PAGE_NUM + 1
      && beginAllocAddr == beginPageAddr + PHSICS_UNIT && Aligned(beginAllocAddr, P_16M)
      && (forall u :: 0 <= u < |pool| ==>
            pool[u].nodes.Length == PAGE_NODE_NUM && pool[u].addr == beginPageAddr + u * MAX_PAGE_SIZE)
      && (forall u, v {:trigger Differ(pool, u, v)} :: 0 <= u < v < |pool| ==> Differ(pool, u, v))
    }

    /** Writing to the tree of unit u leaves the trees of the others alone. */
    lemma OthersApart(u: nat)
      requires Shape() && u < |pool|
      ensures forall v :: 0 <= v < |pool| && v != u ==> pool[v].nodes != pool[u].nodes
    {
      forall v | 0 <= v < |pool| && v != u ensures pool[v].nodes != pool[u].nodes {
        assert if u < v then Differ(pool, u, v) else Differ(pool, v, u);
      }
    }

    ghost predicate Valid()
      reads this, Repr()
    {
      Shape() && AllInv(Trees())
    }

    ghost predicate Handed(b: Block)
      requires Shape()
      reads this, Repr()
    {
      IsBlock(beginAllocAddr, Trees(), b)
    }

    /** One past the last byte the page layer may hand out. */
    ghost function End(): nat
      reads this
    {
      beginAllocAddr + |pool| * PHSICS_UNIT
    }

    /** page_system_init: as many whole units as fit between the tables and the end of the heap,
        all of them untouched. */
    constructor (begin: nat, end: nat)
      requires Aligned(begin, P_16M)
      requires end <= begin + PHSICS_UNIT + (MAX_PAGE_NUM + 1) * PHSICS_UNIT
      ensures Valid() && fresh(Repr())
      ensures beginPageAddr == begin
      ensures End() <= end || |pool| == 0
      ensures end < End() + PHSICS_UNIT
      ensures forall u :: 0 <= u < |pool| ==> IsInitial(Trees()[u])
      ensures forall b :: !Handed(b)
    {
      beginPageAddr := begin;
      beginAllocAddr := begin + PHSICS_UNIT;
      pool := [];
      realPageNum := 0;
      new;
      MulMod(1, PHSICS_UNIT);
      Pow2Constants();
      AlignedAdd(begin, PHSICS_UNIT, P_16M);
      var allocAddr, pageAddr, index := beginAllocAddr, beginPageAddr, 0;
      while allocAddr + PHSICS_UNIT <= end
        invariant index == |pool| <= MAX_PAGE_NUM + 1
        invariant beginPageAddr == begin && beginAllocAddr == begin + PHSICS_UNIT
        invariant allocAddr == beginAllocAddr + index * PHSICS_UNIT
        invariant index > 0 ==> allocAddr <= end
        invariant pageAddr == beginPageAddr + index * MAX_PAGE_SIZE
        invariant forall u :: 0 <= u < |pool| ==> fresh(pool[u].nodes)
        invariant forall u :: 0 <= u < |pool| ==>
            pool[u].nodes.Length == PAGE_NODE_NUM && pool[u].addr == beginPageAddr + u * MAX_PAGE_SIZE
        invariant forall u, v {:trigger Differ(pool, u, v)} :: 0 <= u < v < |pool| ==> Differ(pool, u, v)
        invariant forall u :: 0 <= u < |pool| ==> IsInitial(pool[u].nodes[..])
        decreases end - allocAddr
      {
        var nodes := new int[PAGE_NODE_NUM];
        PageInit(nodes);
        ghost var before := pool;
        pool := pool + [Page(pageAddr, nodes)];
        assert forall u :: 0 <= u < |before| ==> pool[u] == before[u];
        forall u, v {:trigger Differ(pool, u, v)} | 0 <= u < v < |pool| ensures Differ(pool, u, v) {
          assert v < |before| ==> Differ(before, u, v);
        }
        allocAddr := allocAddr + PHSICS_UNIT;
        pageAddr := pageAddr + MAX_PAGE_SIZE;
        index := index + 1;
      }
      realPageNum := index;
      NothingHanded(beginAllocAddr, Trees());
    }

    /** page_init: level by level, every entry becomes its own class. */
    static method PageInit(nodes: array<int>)
      requires nodes.Length == PAGE_NODE_NUM
      modifies nodes
      ensures IsInitial(nodes[..])
    {
      var index, size := 1, P_16M;
      Pow2Constants();
      while size >= P_4K
        invariant P_4K - 1 <= size <= P_16M
        invariant index == Pow2(P_16M - size)
        invariant Filled(nodes[..], index)
        decreases size
      {
        var i := Pow2(P_16M - size);
        ghost var width := i;
        Pow2Monotone(P_16M - size, 12);
        while i > 0
          invariant 0 <= i <= width && index == 2 * width - i
          invariant Filled(nodes[..], index)
        {
          FillStep(nodes[..], index, size);
          nodes[index] := size;
          index := index + 1;
          i := i - 1;
        }
        size := size - 1;
      }
    }

    /** convert_page_to_phsics. */
    function ConvertPageToPhsics(pagePtr: nat, index: nat, baseSize: nat): nat
      requires pagePtr >= beginPageAddr && baseSize <= P_16M && index >= Pow2(P_16M - baseSize)
      reads this
    {
      var pageGapNum: nat := (pagePtr - beginPageAddr) / MAX_PAGE_SIZE;
      var phsicsBeginAddr: nat := beginAllocAddr + pageGapNum * PHSICS_UNIT;
      var nodeGapNum: nat := index - Pow2(P_16M - baseSize);
      phsicsBeginAddr + Times(Pow2(baseSize), nodeGapNum)
    }

    lemma ConvertIsNodeAddr(u: nat, index: nat)
      requires Shape() && u < |pool| && IsNode(index)
      ensures 0 <= Class(index) <= P_16M && index >= Pow2(P_16M - Class(index))
      ensures ConvertPageToPhsics(pool[u].addr, index, Class(index)) == NodeAddr(beginAllocAddr, u, index)
    {
      OffsetClosedForm(index);
      MulMod(u, MAX_PAGE_SIZE);
    }

    /** The end of the descent: the node itself is handed out. */
    method TakeNode(page: Page, ghost u: nat, index: nat, baseSize: nat) returns (addr: Option<nat>)
      requires Shape() && u < |pool| && page == pool[u] && IsNode(index) && baseSize == Class(index)
      requires Inv(page.nodes[..]) && page.nodes[index] == baseSize
      modifies page.nodes
      ensures Allocated(old(page.nodes[..]), page.nodes[..], index, index, baseSize)
      ensures addr == Some(NodeAddr(beginAllocAddr, u, index))
    {
      ghost var t := page.nodes[..];
      ConvertIsNodeAddr(u, index);
      addr := Some(ConvertPageToPhsics(page.addr, index, baseSize));
      page.nodes[index] := FULL_USED;
      LeafAllocated(t, page.nodes[..], index, baseSize);
    }

    /** The end of get_space_in_page: the entry above the node handed out. */
    method Rewrite(page: Page, index: nat, reqSize: nat)
      requires page.nodes.Length == PAGE_NODE_NUM && 1 <= index < PAGE_NODE_NUM / 2
      modifies page.nodes
      ensures page.nodes[..] == old(page.nodes[..])[index :=
          if old(page.nodes[index]) == reqSize then HAVE_BUBBLE
          else Max(old(page.nodes[2 * index]), old(page.nodes[2 * index + 1]))]
    {
      var left, right := 2 * index, 2 * index + 1;
      if page.nodes[index] == reqSize {
        page.nodes[index] := HAVE_BUBBLE;
      } else {
        page.nodes[index] := if page.nodes[left] > page.nodes[right] then page.nodes[left] else page.nodes[right];
      }
    }

    /** get_space_in_page: in a tree that keeps the invariant and covers the request, the
        left-first descent hands out one untouched node and rewrites exactly the path to it. */
    method GetSpaceInPage(page: Page, ghost u: nat, index: nat, reqSize: nat, baseSize: nat) returns (addr: Option<nat>)
      requires Shape() && u < |pool| && page == pool[u] && IsNode(index) && baseSize == Class(index)
      requires Inv(page.nodes[..]) && CanServe(page.nodes[..], index, reqSize)
      modifies page.nodes
      ensures Allocated(old(page.nodes[..]), page.nodes[..], index, Descent(old(page.nodes[..]), index, reqSize),
          reqSize)
      ensures addr == Some(NodeAddr(beginAllocAddr, u, Descent(old(page.nodes[..]), index, reqSize)))
      decreases baseSize
    {
      ghost var t := page.nodes[..];
      if reqSize > baseSize || index >= PAGE_NODE_NUM { return None; }
      addr := None;
      ghost var n, c := DescentStep(t, index, reqSize);
      if baseSize <= reqSize {
        if page.nodes[index] == reqSize {
          addr := TakeNode(page, u, index, baseSize);
          return;
        } else {
          return None;
        }
      }
      var left, right := 2 * index, 2 * index + 1;
      if page.nodes[left] >= reqSize {
        addr := GetSpaceInPage(page, u, left, reqSize, baseSize - 1);
      } else {
        addr := GetSpaceInPage(page, u, right, reqSize, baseSize - 1);
      }
      ghost var t1 := page.nodes[..];
      assert Allocated(t, t1, c, n, reqSize);
      if addr != None {
        Rewrite(page, index, reqSize);
        InnerAllocated(t, t1, page.nodes[..], index, c, n, reqSize);
      }
    }

    /** The scan of page_alloc: the first unit whose root entry covers the request. */
    method FindUnit(reqSize: int) returns (index: int)
      requires Shape()
      ensures -1 <= index < |pool|
      ensures forall u :: 0 <= u < (if index == -1 then |pool| else index) ==> Trees()[u][1] < reqSize
      ensures index != -1 ==> Trees()[index][1] >= reqSize
    {
      index := -1;
      var i := 0;
      while i < realPageNum
        invariant 0 <= i <= realPageNum && index == -1
        invariant forall u :: 0 <= u < i ==> Trees()[u][1] < reqSize
      {
        if pool[i].nodes[1] >= reqSize {
          index := i;
          break;
        }
        i := i + 1;
      }
    }

    /** page_alloc: the first unit whose root entry covers the request serves it; NULL exactly when
        there is none or the request exceeds 16M. */
    method PageAlloc(size: nat) returns (addr: Option<nat>)
      requires Valid()
      modifies Repr()
      ensures Valid() && unchanged(this)
      ensures addr == None <==>
          PageClass(size) == P_REFUSE || forall u :: 0 <= u < |pool| ==> old(Trees()[u][1]) < PageClass(size)
      ensures addr == None ==> Trees() == old(Trees())
      ensures addr.Some? ==> exists u: nat ::
          Served(beginAllocAddr, old(Trees()), Trees(), addr.value, PageClass(size), u)
      ensures addr.Some? ==> IsNewBlock(beginAllocAddr, old(Trees()), Trees(), Block(addr.value, PageClass(size)))
      ensures addr.Some? ==> LowestOffered(beginAllocAddr, old(Trees()), addr.value, PageClass(size))
    {
      ghost var ts := Trees();
      var reqSize := TransPageSize(size);
      if reqSize == P_REFUSE { return None; }
      if reqSize > P_16M || reqSize < P_4K { return None; }
      var index := FindUnit(reqSize);
      if index == -1 { return None; }
      if index >= realPageNum { return None; }
      var page := pool[index];
      OthersApart(index);
      addr := AllocSpaceFromPage(page, index, reqSize);
      assert Trees()[index] == page.nodes[..];
      assert Served(beginAllocAddr, ts, Trees(), addr.value, reqSize, index);
      ServedIsNewBlock(beginAllocAddr, ts, Trees(), addr.value, reqSize, index);
      ServedIsLowest(beginAllocAddr, ts, Trees(), addr.value, reqSize, index);
    }

    /** alloc_space_from_page: the alignment re-check never rejects. */
    method AllocSpaceFromPage(page: Page, ghost u: nat, reqSize: nat) returns (addr: Option<nat>)
      requires Shape() && u < |pool| && page == pool[u]
      requires Inv(page.nodes[..]) && CanServe(page.nodes[..], 1, reqSize)
      modifies page.nodes
      ensures Allocated(old(page.nodes[..]), page.nodes[..], 1, Descent(old(page.nodes[..]), 1, reqSize), reqSize)
      ensures addr == Some(NodeAddr(beginAllocAddr, u, Descent(old(page.nodes[..]), 1, reqSize)))
    {
      NodeInUnit(beginAllocAddr, u, Descent(page.nodes[..], 1, reqSize));
      addr := GetSpaceInPage(page, u, 1, reqSize, P_16M);
      if !Aligned(addr.value, reqSize) { return None; }
    }

    /** The end of free_space_in_page: an entry over two untouched halves becomes its own class. */
    method Coalesce(page: Page, index: nat, baseSize: nat)
      requires page.nodes.Length == PAGE_NODE_NUM && 1 <= index < PAGE_NODE_NUM / 2 && baseSize == Class(index)
      modifies page.nodes
      ensures page.nodes[..] == old(page.nodes[..])[index :=
          if BothClean(old(page.nodes[..]), index) then Class(index)
          else Max(old(page.nodes[2 * index]), old(page.nodes[2 * index + 1]))]
    {
      var left, right := 2 * index, 2 * index + 1;
      if page.nodes[left] == baseSize - 1 && page.nodes[right] == baseSize - 1 {
        page.nodes[index] := baseSize;
      } else {
        page.nodes[index] := if page.nodes[left] > page.nodes[right] then page.nodes[left] else page.nodes[right];
      }
    }

    /** free_space_in_page, for a pointer to the start of the handed-out node n below index. */
    method FreeSpaceInPage(ptr: nat, page: Page, index: nat, baseSize: nat, guard: FreeGuard, ghost u: nat,
            ghost n: nat)
      requires Shape() && u < |pool| && page == pool[u] && IsNode(index) && baseSize == Class(index)
      requires Inv(page.nodes[..]) && Live(page.nodes[..], n) && Under(index, n)
      requires ptr == NodeAddr(beginAllocAddr, u, n)
      modifies page.nodes
      ensures guard == AsWritten ==> page.nodes[..] == old(page.nodes[..])
      ensures guard == Intended ==> Freed(old(page.nodes[..]), page.nodes[..], index, n)
      decreases baseSize
    {
      ghost var t := page.nodes[..];
      ClassBounds(index);
      ClassBounds(n);
      if index >= PAGE_NODE_NUM || baseSize < P_4K || baseSize == P_REFUSE { return; }
      ConvertIsNodeAddr(u, index);
      UnderClass(index, n);
      var phsicsAddr := ConvertPageToPhsics(page.addr, index, baseSize);
      match guard {
        case AsWritten => if phsicsAddr + Pow2(baseSize) > ptr { return; }
        case Intended => if phsicsAddr + Pow2(baseSize) <= ptr { return; }
      }
      var left, right := 2 * index, 2 * index + 1;
      if phsicsAddr == ptr {
        if page.nodes[index] == FULL_USED {
          if n != index { CleanBelow(t, index, n); }
          page.nodes[index] := baseSize;
          LeafFreed(t, page.nodes[..], index);
          return;
        } else {
          Route(index, n);
          FreeSpaceInPage(ptr, page, left, baseSize - 1, guard, u, n);
        }
      } else if phsicsAddr + Pow2(baseSize - 1) > ptr {
        Route(index, n);
        FreeSpaceInPage(ptr, page, left, baseSize - 1, guard, u, n);
      } else {
        Route(index, n);
        FreeSpaceInPage(ptr, page, right, baseSize - 1, guard, u, n);
      }
      ghost var t1 := page.nodes[..];
      ghost var c := if Under(left, n) then left else right;
      PathStep(index, c, n);
      Coalesce(page, index, baseSize);
      InnerFreed(t, t1, page.nodes[..], index, c, n);
    }

    /** page_free of a handed-out block. As written it changes nothing; with the intended guard it
        takes back exactly that block. */
    method PageFree(ptr: nat, guard: FreeGuard, ghost b: Block)
      requires Valid() && Handed(b) && b.addr == ptr
      modifies Repr()
      ensures Valid() && unchanged(this)
      ensures guard == AsWritten ==> Trees() == old(Trees())
      ensures guard == Intended ==> BlockRemoved(beginAllocAddr, old(Trees()), Trees(), b)
      ensures guard == Intended ==> exists u: nat, n: nat ::
          && IsBlockAt(beginAllocAddr, old(Trees()), b, u, n)
          && Freed(old(Trees())[u], Trees()[u], 1, n)
          && Trees() == old(Trees())[u := Trees()[u]]
    {
      ghost var ts := Trees();
      ghost var u: nat, n: nat :| IsBlockAt(beginAllocAddr, ts, b, u, n);
      NodeInUnit(beginAllocAddr, u, n);
      RootAbove(n);
      MulMod(u, PHSICS_UNIT);
      var phsicsBeginAddr := AlignDown(ptr, P_16M);
      var pageNum := (phsicsBeginAddr - beginAllocAddr) / PHSICS_UNIT;
      assert pageNum == u;
      if pageNum >= realPageNum { return; }
      var page := pool[pageNum];
      OthersApart(u);
      FreeSpaceInPage(ptr, page, 1, P_16M, guard, u, n);
      assert Trees() == ts[u := page.nodes[..]];
      if guard == Intended {
        FreeBlocks(beginAllocAddr, ts, u, page.nodes[..], n);
        assert IsBlockAt(beginAllocAddr, ts, b, u, n);
      } else {
        assert Trees() == ts;
      }
    }
  }

  /** One step of the descent. */
  lemma DescentStep(t: Entries, i: nat, req: int) returns (n: nat, c: nat)
    requires Inv(t) && CanServe(t, i, req)
    ensures n == Descent(t, i, req)
    ensures Class(i) == req ==> n == i && t[i] == req
    ensures Class(i) > req ==>
      && i < PAGE_NODE_NUM / 2 && n != i
      && c == (if t[2 * i] >= req then 2 * i else 2 * i + 1)
      && Class(c) == Class(i) - 1 && CanServe(t, c, req) && n == Descent(t, c, req) && Under(c, n)
  {
    n := Descent(t, i, req);
    ClassBounds(i);
    assert Local(t, i);
    c := 1;
    if Class(i) > req {
      c := if t[2 * i] >= req then 2 * i else 2 * i + 1;
    }
  }

  lemma LeafAllocated(t: Entries, t': Entries, i: nat, req: int)
    requires IsNode(i) && t' == t[i := FULL_USED]
    ensures Allocated(t, t', i, i, req)
  {
    assert OnPath(i, i, i);
    forall j: nat | OnPath(i, j, i) ensures j == i { UnderTrans(i, j, i); }
  }

  /** One more entry written on the way up: outside the longer path nothing changed. */
  lemma ElsewhereStep(t: Entries, t1: Entries, i: nat, c: nat, n: nat, v: int)
    requires IsNode(i) && i < PAGE_NODE_NUM / 2 && (c == 2 * i || c == 2 * i + 1) && n >= 1 && Under(c, n)
    requires SameElsewhere(t, t1, c, n)
    ensures SameElsewhere(t, t1[i := v], i, n) && t1[i] == t[i]
  {
    PathStep(i, c, n);
    assert OnPath(i, i, n);
    forall j | 0 <= j < PAGE_NODE_NUM && !OnPath(i, j, n) ensures t1[i := v][j] == t[j] {
      assert j >= 1 ==> !OnPath(c, j, n);
    }
  }

  /** From the child's effect and the write to the entry of i, the effect below i. */
  lemma InnerAllocated(t: Entries, t1: Entries, t2: Entries, i: nat, c: nat, n: nat, req: int)
    requires IsNode(i) && i < PAGE_NODE_NUM / 2 && (c == 2 * i || c == 2 * i + 1) && n >= 1 && Under(c, n)
    requires Allocated(t, t1, c, n, req) && n != i
    requires t2 == t1[i := if t1[i] == req then HAVE_BUBBLE else Max(t1[2 * i], t1[2 * i + 1])]
    ensures Allocated(t, t2, i, n, req)
  {
    PathStep(i, c, n);
    ElsewhereStep(t, t1, i, c, n, t2[i]);
    forall j | IsNode(j) && OnPath(i, j, n) && j != n
      ensures 2 * j + 1 < PAGE_NODE_NUM
      ensures t2[j] == if t[j] == req then HAVE_BUBBLE else Max(t2[2 * j], t2[2 * j + 1])
    {
      if j != i { ChildEntriesKept(t1, t2, i, c, j, n); }
    }
  }

  lemma LeafFreed(t: Entries, t': Entries, n: nat)
    requires IsNode(n) && t' == t[n := Class(n)]
    ensures Freed(t, t', n, n)
  {
    assert OnPath(n, n, n);
    forall j: nat | OnPath(n, j, n) ensures j == n { UnderTrans(n, j, n); }
  }

  lemma InnerFreed(t: Entries, t1: Entries, t2: Entries, i: nat, c: nat, n: nat)
    requires IsNode(i) && i < PAGE_NODE_NUM / 2 && (c == 2 * i || c == 2 * i + 1) && n >= 1 && Under(c, n)
    requires Freed(t, t1, c, n) && n != i
    requires t2 == t1[i := if BothClean(t1, i) then Class(i) else Max(t1[2 * i], t1[2 * i + 1])]
    ensures Freed(t, t2, i, n)
  {
    PathStep(i, c, n);
    ElsewhereStep(t, t1, i, c, n, t2[i]);
    FreePathStep(t1, t2, i, c, n);
  }

  lemma FreePathStep(t1: Entries, t2: Entries, i: nat, c: nat, n: nat)
    requires IsNode(i) && i < PAGE_NODE_NUM / 2 && (c == 2 * i || c == 2 * i + 1) && FreePath(t1, c, n) && n != i
    requires forall j: nat {:trigger OnPath(i, j, n)} :: OnPath(i, j, n) <==> j == i || OnPath(c, j, n)
    requires t2 == t1[i := t2[i]]
    requires t2[i] == if BothClean(t1, i) then Class(i) else Max(t1[2 * i], t1[2 * i + 1])
    ensures FreePath(t2, i, n)
  {
    forall j | IsNode(j) && OnPath(i, j, n) && j != n
      ensures 2 * j + 1 < PAGE_NODE_NUM
      ensures t2[j] == if BothClean(t2, j) then Class(j) else Max(t2[2 * j], t2[2 * j + 1])
    {
      if j != i { ChildEntriesKept(t1, t2, i, c, j, n); }
    }
  }

  lemma ChildEntriesKept(t1: Entries, t2: Entries, i: nat, c: nat, j: nat, n: nat)
    requires i >= 1 && c > i && OnPath(c, j, n) && IsNode(2 * j + 1)
    requires i < PAGE_NODE_NUM && t2 == t1[i := t2[i]]
    ensures t2[j] == t1[j] && t2[2 * j] == t1[2 * j] && t2[2 * j + 1] == t1[2 * j + 1]
    ensures BothClean(t2, j) == BothClean(t1, j)
  {
    UnderTrans(c, j, n);
  }

  /** Node i has two halves of the class below. */
  ghost predicate Splits(i: nat) {
    var holds := 1 <= i < PAGE_NODE_NUM / 2 && Class(i) > P_4K && Class(2 * i) == Class(2 * i + 1) == Class(i) - 1;
    holds
  }

  /** The half of a node's block that holds the start of a node strictly below it. */
  lemma Route(i: nat, n: nat)
    requires IsNode(i) && IsNode(n) && Under(i, n) && n != i
    ensures Splits(i)
    ensures Under(2 * i, n) ==> !Under(2 * i + 1, n) && Offset(n) < Offset(i) + Pow2(Class(i) - 1)
    ensures !Under(2 * i, n) ==> Under(2 * i + 1, n) && Offset(n) >= Offset(i) + Pow2(Class(i) - 1)
  {
    UnderSplit(i, n);
    UnderBelow(i, n);
    if Under(2 * i, n) { UnderTrans(2 * i, n, n); } else { UnderTrans(2 * i + 1, n, n); }
    Halving(i);
    if Under(2 * i, n) { UnderClass(2 * i, n); } else { UnderClass(2 * i + 1, n); }
  }
}
