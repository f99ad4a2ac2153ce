/** The entries of one 16M unit as a heap-ordered tree, and what every allocation and every
    release does to them (kernel/src/page.c). Node 1 is the whole unit; the children of node i
    are 2i and 2i+1. A node is handed out exactly when its entry is FULL_USED. */
module BuddyTree {
  import opened Words

  const P_4K := 12
  const P_16M := 24
  const P_REFUSE := 25
  const HAVE_BUBBLE := 1
  const FULL_USED := 0
  const PAGE_NODE_NUM := 8192

  type Entries = s: seq<int> | |s| == PAGE_NODE_NUM witness seq(PAGE_NODE_NUM, i => 0)

  predicate IsNode(i: int) {
    1 <= i < PAGE_NODE_NUM
  }

  /** The size class of a node: log2 of the bytes it stands for. */
  function Class(i: nat): (k: int)
    requires IsNode(i)
    decreases i
  {
    if i == 1 then P_16M else Class(i / 2) - 1
  }

  /** Byte offset of a node's first byte within its unit. */
  function Offset(i: nat): (o: nat)
    requires IsNode(i)
    decreases i
  {
    if i == 1 then 0
    else
      ClassBounds(i);
      Offset(i / 2) + (if i % 2 == 0 then 0 else Pow2(Class(i)))
  }

  /** Node j lies in the subtree of node i. */
  predicate Under(i: nat, j: nat)
    requires i >= 1
    decreases j
  {
    var holds :=
      j == i || (j > i && Under(i, j / 2));
    holds
  }

  lemma {:induction false} ClassBounds(i: nat)
    requires IsNode(i)
    ensures P_4K <= Class(i) <= P_16M
    ensures Pow2(P_16M - Class(i)) <= i < 2 * Pow2(P_16M - Class(i))
    ensures Class(i) == P_4K <==> i >= PAGE_NODE_NUM / 2
    decreases i
  {
    if i > 1 {
      ClassBounds(i / 2);
      var d := P_16M - Class(i / 2);
      Pow2Monotone(d + 1, 12);
      assert Pow2(12) == 4096;
      if d + 1 < 12 { Pow2Monotone(d + 2, 12); }
    }
  }

  /** The class is the position of the node's top bit. */
  lemma ClassUnique(i: nat, k: int)
    requires IsNode(i) && P_4K <= k <= P_16M
    requires Pow2(P_16M - k) <= i < 2 * Pow2(P_16M - k)
    ensures Class(i) == k
  {
    ClassBounds(i);
    if Class(i) < k { Pow2Strict(P_16M - k, P_16M - Class(i)); }
    if Class(i) > k { Pow2Strict(P_16M - Class(i), P_16M - k); }
  }

  /** The children of an inner node halve it. */
  lemma Halving(i: nat)
    requires IsNode(i) && i < PAGE_NODE_NUM / 2
    ensures IsNode(2 * i) && IsNode(2 * i + 1) && P_4K < Class(i) <= P_16M
    ensures Class(2 * i) == Class(2 * i + 1) == Class(i) - 1
    ensures Offset(2 * i) == Offset(i) && Offset(2 * i + 1) == Offset(i) + Pow2(Class(i) - 1)
    ensures Pow2(Class(i)) == 2 * Pow2(Class(i) - 1)
    ensures Under(i, 2 * i) && Under(i, 2 * i + 1) && Under(i, i)
  {
    ClassBounds(i);
    assert (2 * i) / 2 == i && (2 * i + 1) / 2 == i;
  }

  lemma Parent(j: nat) returns (p: nat)
    requires IsNode(j) && j > 1
    ensures p == j / 2 && IsNode(p) && p < PAGE_NODE_NUM / 2 && (j == 2 * p || j == 2 * p + 1)
  {
    p := j / 2;
  }

  /** `convert_page_to_phsics` computes the offset directly from the index. */
  lemma {:induction false} OffsetClosedForm(i: nat)
    requires IsNode(i)
    ensures P_4K <= Class(i) <= P_16M
    ensures i >= Pow2(P_16M - Class(i))
    ensures Offset(i) == Times(Pow2(Class(i)), i - Pow2(P_16M - Class(i)))
    decreases i
  {
    ClassBounds(i);
    var m, d := Pow2(Class(i)), Pow2(P_16M - Class(i));
    if i == 1 {
      assert i - d == 0;
      TimesZero(m);
    } else {
      var h := Parent(i);
      OffsetClosedForm(h);
      Halving(h);
      ClosedFormStep(Pow2(Class(h)), Pow2(P_16M - Class(h)), h, Offset(h), m, d, i, Offset(i));
      assert Offset(i) == Times(m, i - d);
    }
  }

  lemma TimesZero(m: nat)
    ensures Times(m, 0) == 0
  {
  }

  lemma ClosedFormStep(m: nat, d: nat, h: nat, o: nat, m': nat, d': nat, h': nat, o': nat)
    requires m == 2 * m' && d' == 2 * d && h >= d && o == Times(m, h - d)
    requires (h' == 2 * h && o' == o) || (h' == 2 * h + 1 && o' == o + m')
    ensures o' == Times(m', h' - d')
  {
    var x := h - d;
    assert (2 * m') * x == m' * (2 * x);
    assert m' * (2 * x + 1) == m' * (2 * x) + m';
  }

  // ---------------------------------------------------------------- subtrees

  lemma {:induction false} UnderBelow(i: nat, j: nat)
    requires i >= 1 && j != i && (Under(2 * i, j) || Under(2 * i + 1, j))
    ensures j > i && Under(i, j)
    decreases j
  {
    if j != 2 * i && j != 2 * i + 1 {
      UnderBelow(i, j / 2);
    }
  }

  lemma {:induction false} UnderSplit(i: nat, j: nat)
    requires i >= 1 && Under(i, j) && j != i
    ensures Under(2 * i, j) || Under(2 * i + 1, j)
    ensures !(Under(2 * i, j) && Under(2 * i + 1, j))
    decreases j
  {
    if j / 2 == i {
    } else {
      UnderSplit(i, j / 2);
    }
  }

  lemma {:induction false} UnderTrans(i: nat, j: nat, n: nat)
    requires i >= 1 && j >= 1 && Under(i, j) && Under(j, n)
    ensures Under(i, n) && i <= j <= n
    decreases n
  {
    if n != j {
      UnderTrans(i, j, n / 2);
    }
  }

  lemma {:induction false} RootAbove(j: nat)
    requires j >= 1
    ensures Under(1, j)
    decreases j
  {
    if j > 1 { RootAbove(j / 2); }
  }

  /** Ancestors of one node are themselves on one line. */
  lemma {:induction false} AncestorsLine(i: nat, j: nat, n: nat)
    requires i >= 1 && j >= 1 && i <= j && Under(i, n) && Under(j, n)
    ensures Under(i, j)
    decreases n
  {
    if n != j {
      AncestorsLine(i, j, n / 2);
    }
  }

  /** The block of j is smaller than that of i and lies inside it, or they are the same node. */
  ghost predicate Within(i: nat, j: nat) {
    var holds := IsNode(i) && IsNode(j)
      && P_4K <= Class(j) <= Class(i) && (j != i ==> Class(j) < Class(i))
      && Offset(i) <= Offset(j) && Offset(j) + Pow2(Class(j)) <= Offset(i) + Pow2(Class(i));
    holds
  }

  lemma {:induction false} UnderClass(i: nat, j: nat)
    requires IsNode(i) && IsNode(j) && Under(i, j)
    ensures Within(i, j)
    decreases j
  {
    ClassBounds(j);
    if j != i {
      var p := Parent(j);
      UnderClass(i, p);
      Halving(p);
    }
  }

  ghost predicate Disjoint(i: nat, j: nat)
    requires IsNode(i) && IsNode(j)
  {
    var holds :=
      && Class(i) >= 0 && Class(j) >= 0
      && (Offset(i) + Pow2(Class(i)) <= Offset(j) || Offset(j) + Pow2(Class(j)) <= Offset(i));
    holds
  }

  /** Two nodes neither of which lies under the other stand for disjoint bytes. */
  lemma {:induction false} UnrelatedDisjoint(i: nat, j: nat)
    requires IsNode(i) && IsNode(j) && !Under(i, j) && !Under(j, i)
    ensures Disjoint(i, j)
    decreases i + j, i > j
  {
    ClassBounds(i);
    ClassBounds(j);
    if i > j {
      UnrelatedDisjoint(j, i);
    } else {
      RootAbove(j);
      var p := Parent(j);
      Halving(p);
      UnderClass(p, j);
      if Under(p, i) {
        UnderSplit(p, i);
      } else {
        UnrelatedDisjoint(i, p);
      }
    }
  }

  // ---------------------------------------------------------------- the invariant

  predicate BothClean(t: Entries, i: nat)
    requires IsNode(2 * i) && IsNode(i)
  {
    t[2 * i] == Class(i) - 1 && t[2 * i + 1] == Class(i) - 1
  }

  /** What the entry e of an inner node of class k may be, given its children's entries l and r. */
  predicate InnerEntry(e: int, l: int, r: int, k: int) {
    if e == k || e == FULL_USED then l == k - 1 && r == k - 1
    else
      && !(l == k - 1 && r == k - 1)
      && (e == HAVE_BUBBLE || (P_4K <= e < k && e == Max(l, r)))
  }

  predicate Local(t: Entries, i: nat)
    requires IsNode(i)
  {
    if i >= PAGE_NODE_NUM / 2 then t[i] == P_4K || t[i] == FULL_USED
    else InnerEntry(t[i], t[2 * i], t[2 * i + 1], Class(i))
  }

  lemma EntryBound(t: Entries, i: nat)
    requires IsNode(i) && Local(t, i)
    ensures 0 <= t[i] <= Class(i)
  {
    ClassBounds(i);
  }

  ghost predicate Inv(t: Entries) {
    forall i {:trigger Local(t, i)} :: IsNode(i) ==> Local(t, i)
  }

  predicate Live(t: Entries, i: nat) {
    var holds :=
      IsNode(i) && t[i] == FULL_USED;
    holds
  }

  /** Nothing in the node's block is handed out, and all of it is free for the taking. */
  ghost predicate Untouched(t: Entries, i: nat)
    requires IsNode(i)
  {
    forall j :: IsNode(j) && Under(i, j) ==> t[j] == Class(j)
  }

  ghost predicate IsInitial(t: Entries) {
    forall i :: IsNode(i) ==> t[i] == Class(i)
  }

  /** The entries below upTo hold their initial values. */
  ghost predicate Filled(t: seq<int>, upTo: int) {
    |t| == PAGE_NODE_NUM && forall j {:trigger t[j]} :: 1 <= j < upTo && IsNode(j) ==> t[j] == Class(j)
  }

  lemma FillStep(t: seq<int>, i: nat, k: int)
    requires Filled(t, i) && IsNode(i) && P_4K <= k <= P_16M
    requires Pow2(P_16M - k) <= i < 2 * Pow2(P_16M - k)
    ensures Filled(t[i := k], i + 1)
  {
    ClassUnique(i, k);
  }

  lemma InitialInv(t: Entries)
    requires IsInitial(t)
    ensures Inv(t)
    ensures forall i :: !Live(t, i)
  {
    forall i | IsNode(i) ensures Local(t, i) && t[i] != FULL_USED {
      ClassBounds(i);
    }
  }

  /** Below an entry that is its own class or FULL_USED, every entry is its own class. */
  lemma {:induction false} CleanBelow(t: Entries, i: nat, j: nat)
    requires Inv(t) && IsNode(i) && IsNode(j) && Under(i, j) && j != i
    requires t[i] == Class(i) || t[i] == FULL_USED
    ensures t[j] == Class(j) && t[j] >= P_4K
    decreases j
  {
    ClassBounds(j);
    var p := j / 2;
    assert Local(t, p);
    if p != i {
      CleanBelow(t, i, p);
    }
  }

  lemma CleanUntouched(t: Entries, i: nat)
    requires Inv(t) && IsNode(i) && t[i] == Class(i)
    ensures Untouched(t, i)
  {
    forall j | IsNode(j) && Under(i, j) ensures t[j] == Class(j) {
      if j != i { CleanBelow(t, i, j); }
    }
  }

  /** Live blocks never overlap. */
  lemma LiveDisjoint(t: Entries, i: nat, j: nat)
    requires Inv(t) && Live(t, i) && Live(t, j) && i != j
    ensures Disjoint(i, j)
  {
    if Under(i, j) { CleanBelow(t, i, j); }
    if Under(j, i) { CleanBelow(t, j, i); }
    UnrelatedDisjoint(i, j);
  }

  /** No entry over-promises: an entry v >= P_4K of a node that is not inside a handed-out block
      is witnessed by a block of class v below it no byte of which is handed out. */
  lemma {:induction false} NeverOverPromises(t: Entries, i: nat) returns (w: nat)
    requires Inv(t) && IsNode(i) && t[i] >= P_4K
    requires forall j :: Live(t, j) ==> !Under(j, i)
    ensures IsNode(w) && Under(i, w) && Class(w) == t[i] && Untouched(t, w)
    ensures forall j :: Live(t, j) ==> Disjoint(w, j)
    decreases PAGE_NODE_NUM - i
  {
    ClassBounds(i);
    assert Local(t, i);
    if t[i] == Class(i) {
      w := i;
      CleanUntouched(t, i);
      forall j | Live(t, j) ensures Disjoint(w, j) {
        ClassBounds(j);
        assert !Under(w, j);
        UnrelatedDisjoint(w, j);
      }
    } else {
      var c := if t[2 * i] >= t[2 * i + 1] then 2 * i else 2 * i + 1;
      w := NeverOverPromises(t, c);
      assert Under(i, c) by { assert c / 2 == i; }
      UnderTrans(i, c, w);
    }
  }

  /** A node that is not its own class has a handed-out block at or below it. */
  lemma {:induction false} DirtyHasLive(t: Entries, i: nat) returns (j: nat)
    requires Inv(t) && IsNode(i) && t[i] != Class(i)
    ensures Live(t, j) && Under(i, j)
    decreases PAGE_NODE_NUM - i
  {
    ClassBounds(i);
    assert Local(t, i);
    if t[i] == FULL_USED {
      j := i;
    } else {
      var c := if t[2 * i] != Class(i) - 1 then 2 * i else 2 * i + 1;
      j := DirtyHasLive(t, c);
      assert Under(i, c) by { assert c / 2 == i; }
      UnderTrans(i, c, j);
    }
  }

  /** Once nothing is handed out, every entry is back at its initial value, whatever bubbles
      earlier allocations left behind. */
  lemma AllFreeIsInitial(t: Entries)
    requires Inv(t) && forall j :: !Live(t, j)
    ensures IsInitial(t)
  {
    forall i | IsNode(i) ensures t[i] == Class(i) {
      if t[i] != Class(i) {
        var j := DirtyHasLive(t, i);
        assert false;
      }
    }
  }

  // ---------------------------------------------------------------- allocation

  predicate CanServe(t: Entries, i: nat, req: int) {
    var holds :=
      IsNode(i) && P_4K <= req <= Class(i) && t[i] >= req;
    holds
  }

  /** The node the left-first descent of `get_space_in_page` ends at: never a dead end. */
  function Descent(t: Entries, i: nat, req: int): (n: nat)
    requires Inv(t) && CanServe(t, i, req)
    ensures IsNode(n) && Under(i, n) && Class(n) == req && t[n] == req
    decreases PAGE_NODE_NUM - i
  {
    ClassBounds(i);
    assert Local(t, i);
    if Class(i) == req then i
    else
      var c := if t[2 * i] >= req then 2 * i else 2 * i + 1;
      assert Under(i, c) by { assert c / 2 == i; }
      var n := Descent(t, c, req);
      UnderTrans(i, c, n);
      n
  }

  predicate OnPath(i: nat, j: nat, n: nat) {
    i >= 1 && j >= 1 && Under(i, j) && Under(j, n)
  }

  /** Nothing at or below i changed except on the path from i to n. */
  ghost predicate SameBelow(t: Entries, t': Entries, i: nat, n: nat)
    requires i >= 1
  {
    forall j {:trigger t'[j]} :: IsNode(j) && Under(i, j) && !OnPath(i, j, n) ==> t'[j] == t[j]
  }

  ghost predicate SameElsewhere(t: Entries, t': Entries, i: nat, n: nat) {
    forall j {:trigger t'[j]} :: 0 <= j < PAGE_NODE_NUM && !OnPath(i, j, n) ==> t'[j] == t[j]
  }

  /** The entries on the path from i to the handed-out node n after a request of class req. */
  ghost predicate AllocPath(t: Entries, t': Entries, i: nat, n: nat, req: int) {
    && IsNode(n) && t'[n] == FULL_USED
    && (forall j {:trigger OnPath(i, j, n)} :: IsNode(j) && OnPath(i, j, n) && j != n ==>
          2 * j + 1 < PAGE_NODE_NUM &&
          t'[j] == if t[j] == req then HAVE_BUBBLE else Max(t'[2 * j], t'[2 * j + 1]))
  }

  /** t' is t after node n, found below i, was handed out for a request of class req. */
  ghost predicate Allocated(t: Entries, t': Entries, i: nat, n: nat, req: int) {
    var holds :=
      AllocPath(t, t', i, n, req) && SameElsewhere(t, t', i, n);
    holds
  }

  ghost predicate LocalBelow(t: Entries, i: nat)
    requires i >= 1
  {
    var holds :=
      forall j {:trigger Local(t, j)} :: IsNode(j) && Under(i, j) ==> Local(t, j);
    holds
  }

  /** A sibling subtree that the path avoids keeps every entry. */
  lemma OffPathLocal(t: Entries, t': Entries, i: nat, o: nat, n: nat)
    requires i >= 1 && n >= 1 && o >= 1 && Under(i, o) && !Under(o, n)
    requires Inv(t) && SameBelow(t, t', i, n)
    ensures LocalBelow(t', o)
    ensures IsNode(o) ==> t'[o] == t[o]
  {
    forall m: nat | IsNode(m) && Under(o, m) ensures t'[m] == t[m] {
      UnderTrans(i, o, m);
      if Under(m, n) { UnderTrans(o, m, n); }
    }
    forall j | IsNode(j) && Under(o, j) ensures Local(t', j) {
      assert Local(t, j);
      if j < PAGE_NODE_NUM / 2 {
        assert Under(j, 2 * j) && Under(j, 2 * j + 1) by { assert (2 * j) / 2 == j && (2 * j + 1) / 2 == j; }
        UnderTrans(o, j, 2 * j);
        UnderTrans(o, j, 2 * j + 1);
      }
    }
  }

  lemma LocalJoin(t: Entries, i: nat, l: nat, r: nat)
    requires IsNode(i) && Local(t, i) && l == 2 * i && r == 2 * i + 1
    requires i < PAGE_NODE_NUM / 2 ==> LocalBelow(t, l) && LocalBelow(t, r)
    ensures LocalBelow(t, i)
  {
    forall j | IsNode(j) && Under(i, j) ensures Local(t, j) {
      if j != i {
        UnderSplit(i, j);
        UnderBelow(i, j);
      }
    }
  }

  /** Below the block itself nothing changes. */
  lemma BelowBlock(t: Entries, t': Entries, n: nat)
    requires Inv(t) && IsNode(n) && SameBelow(t, t', n, n)
    requires t[n] == Class(n) || t[n] == FULL_USED
    requires t'[n] == Class(n) || t'[n] == FULL_USED
    ensures LocalBelow(t', n)
    ensures forall j: nat {:trigger OnPath(n, j, n)} :: OnPath(n, j, n) ==> j == n
  {
    forall j: nat | OnPath(n, j, n) ensures j == n { UnderTrans(n, j, n); }
    ClassBounds(n);
    assert Local(t, n);
    if n < PAGE_NODE_NUM / 2 {
      assert Under(n, 2 * n) && Under(n, 2 * n + 1) by { assert (2 * n) / 2 == n && (2 * n + 1) / 2 == n; }
      OffPathLocal(t, t', n, 2 * n, n);
      OffPathLocal(t, t', n, 2 * n + 1, n);
    }
    LocalJoin(t', n, 2 * n, 2 * n + 1);
  }

  /** The subtree of a path node splits into the child on the path and the untouched sibling. */
  lemma Siblings(t: Entries, t': Entries, i: nat, c: nat, o: nat, n: nat)
    requires IsNode(i) && i < PAGE_NODE_NUM / 2 && n >= 1
    requires (c == 2 * i && o == 2 * i + 1) || (c == 2 * i + 1 && o == 2 * i)
    requires Inv(t) && Under(c, n) && SameBelow(t, t', i, n)
    ensures SameBelow(t, t', c, n) && OnPath(i, i, n)
    ensures forall j: nat {:trigger OnPath(c, j, n)} {:trigger OnPath(i, j, n)} ::
        OnPath(i, j, n) <==> j == i || OnPath(c, j, n)
    ensures LocalBelow(t', o) && t'[o] == t[o]
  {
    assert Under(i, c) && Under(i, o) by { assert c / 2 == i && o / 2 == i; }
    UnderTrans(i, c, n);
    UnderBelow(i, n);
    UnderSplit(i, n);
    PathStep(i, c, n);
    OffPathLocal(t, t', i, o, n);
    forall j | IsNode(j) && Under(c, j) && !OnPath(c, j, n) ensures t'[j] == t[j] {
      UnderTrans(i, c, j);
    }
  }

  /** What one allocation makes of the entry it started from: it never rises, it still covers req
      when it was larger, and the node is no longer its own class. */
  predicate AllocEntry(before: int, after: int, class_: int, req: int) {
    var holds :=
      && (before == req ==> FULL_USED <= after <= HAVE_BUBBLE)
      && (before > req ==> req <= after <= before)
      && after < class_;
    holds
  }

  /** No path node was handed out before, and only the block itself is afterwards. */
  ghost predicate AllocMarks(t: Entries, t': Entries, i: nat, n: nat, req: int) {
    forall j {:trigger OnPath(i, j, n)} :: IsNode(j) && OnPath(i, j, n) ==>
        t[j] >= req && (j != n ==> t'[j] != FULL_USED)
  }

  lemma {:induction false} AllocKeepsLocal(t: Entries, t': Entries, i: nat, n: nat, req: int)
    requires Inv(t) && CanServe(t, i, req) && n == Descent(t, i, req)
    requires AllocPath(t, t', i, n, req) && SameBelow(t, t', i, n)
    ensures LocalBelow(t', i)
    ensures AllocMarks(t, t', i, n, req)
    ensures AllocEntry(t[i], t'[i], Class(i), req)
    decreases PAGE_NODE_NUM - i
  {
    ClassBounds(i);
    assert Local(t, i);
    if i == n {
      BelowBlock(t, t', n);
    } else {
      var c := if t[2 * i] >= req then 2 * i else 2 * i + 1;
      var o := if t[2 * i] >= req then 2 * i + 1 else 2 * i;
      assert n == Descent(t, c, req);
      Siblings(t, t', i, c, o, n);
      assert AllocPath(t, t', c, n, req);
      AllocKeepsLocal(t, t', c, n, req);
      AllocInner(t, t', i, 2 * i, 2 * i + 1, c, n, req);
    }
  }

  lemma HalvesBelow(t: Entries, i: nat)
    requires Inv(t) && IsNode(i) && i < PAGE_NODE_NUM / 2
    ensures IsNode(2 * i) && IsNode(2 * i + 1) && Class(2 * i) == Class(2 * i + 1) == Class(i) - 1
    ensures InnerEntry(t[i], t[2 * i], t[2 * i + 1], Class(i)) && t[2 * i] < Class(i) && t[2 * i + 1] < Class(i)
  {
    Halving(i);
    EntryBound(t, 2 * i);
    EntryBound(t, 2 * i + 1);
    assert Local(t, i);
  }

  lemma AllocInner(t: Entries, t': Entries, i: nat, l: nat, r: nat, c: nat, n: nat, req: int)
    requires Inv(t) && IsNode(i) && i < PAGE_NODE_NUM / 2 && t[i] >= req >= P_4K && req < Class(i) && n != i
    requires l == 2 * i && r == 2 * i + 1 && c == if t[l] >= req then l else r
    requires forall j: nat {:trigger OnPath(i, j, n)} :: OnPath(i, j, n) <==> j == i || OnPath(c, j, n)
    requires LocalBelow(t', l) && LocalBelow(t', r)
    requires if c == l then t'[r] == t[r] else t'[l] == t[l]
    requires AllocPath(t, t', i, n, req)
    requires AllocMarks(t, t', c, n, req) && AllocEntry(t[c], t'[c], Class(c), req)
    ensures LocalBelow(t', i) && AllocMarks(t, t', i, n, req) && AllocEntry(t[i], t'[i], Class(i), req)
  {
    HalvesBelow(t, i);
    assert OnPath(i, i, n);
    AllocMerge(t, t', i, l, r, c, n, req);
  }

  lemma AllocMerge(t: Entries, t': Entries, i: nat, l: nat, r: nat, c: nat, n: nat, req: int)
    requires IsNode(i) && i < PAGE_NODE_NUM / 2 && t[i] >= req >= P_4K && req < Class(i)
    requires l == 2 * i && r == 2 * i + 1 && c == if t[l] >= req then l else r
    requires forall j: nat {:trigger OnPath(i, j, n)} :: OnPath(i, j, n) <==> j == i || OnPath(c, j, n)
    requires LocalBelow(t', l) && LocalBelow(t', r)
    requires if c == l then t'[r] == t[r] else t'[l] == t[l]
    requires InnerEntry(t[i], t[l], t[r], Class(i)) && t[l] < Class(i) && t[r] < Class(i)
    requires t'[i] == if t[i] == req then HAVE_BUBBLE else Max(t'[l], t'[r])
    requires AllocMarks(t, t', c, n, req) && AllocEntry(t[c], t'[c], Class(i) - 1, req)
    ensures LocalBelow(t', i) && AllocMarks(t, t', i, n, req) && AllocEntry(t[i], t'[i], Class(i), req)
  {
    AllocStep(t[i], t[l], t[r], t'[i], t'[l], t'[r], Class(i), req);
    assert Local(t', i);
    LocalJoin(t', i, l, r);
  }

  /** The entry of an inner path node, from its children's: e, l, r before and e', l', r' after. */
  lemma AllocStep(e: int, l: int, r: int, e': int, l': int, r': int, k: int, req: int)
    requires k > req >= P_4K && e >= req && InnerEntry(e, l, r, k) && l < k && r < k
    requires l >= req ==> r' == r && AllocEntry(l, l', k - 1, req)
    requires l < req ==> l' == l && AllocEntry(r, r', k - 1, req)
    requires e' == if e == req then HAVE_BUBBLE else Max(l', r')
    ensures InnerEntry(e', l', r', k) && AllocEntry(e, e', k, req) && e' != FULL_USED
  {
  }

  /** The path below i is i followed by the path below its child on the way to n. */
  lemma PathStep(i: nat, c: nat, n: nat)
    requires i >= 1 && n >= 1 && (c == 2 * i || c == 2 * i + 1) && Under(c, n)
    ensures forall j: nat :: OnPath(i, j, n) <==> j == i || OnPath(c, j, n)
    ensures !OnPath(c, i, n)
  {
    assert Under(i, c) by { assert c / 2 == i; }
    UnderTrans(i, c, n);
    forall j: nat ensures OnPath(i, j, n) <==> j == i || OnPath(c, j, n) {
      if OnPath(i, j, n) && j != i {
        UnderTrans(i, j, n);
        assert j > i by { UnderSplit(i, j); UnderBelow(i, j); }
        if j < c {
          AncestorsLine(j, c, n);
          UnderTrans(j, c, c);
          assert c / 2 == i;
          assert Under(j, i);
          UnderTrans(j, i, i);
        }
        AncestorsLine(c, j, n);
      }
      if OnPath(c, j, n) { UnderTrans(i, c, j); }
    }
    if OnPath(c, i, n) { UnderTrans(c, i, n); }
  }

  // ---------------------------------------------------------------- which block is handed out

  /** Node j is of class k, and no entry on the way down to it from i refuses that class. */
  ghost predicate Offered(t: Entries, i: nat, j: nat, k: int) {
    var holds :=
      && IsNode(j) && Class(j) == k && i >= 1 && Under(i, j)
      && forall a: nat {:trigger OnPath(i, a, j)} :: IsNode(a) && OnPath(i, a, j) ==> t[a] >= k;
    holds
  }

  lemma OfferedBelow(t: Entries, i: nat, c: nat, j: nat, k: int)
    requires IsNode(i) && IsNode(j) && (c == 2 * i || c == 2 * i + 1) && Under(c, j) && t[i] >= k
    ensures Offered(t, i, j, k) <==> Offered(t, c, j, k)
    ensures Offered(t, i, j, k) ==> t[c] >= k
  {
    PathStep(i, c, j);
    assert c / 2 == i && Under(i, c) && OnPath(c, c, j);
    UnderTrans(i, c, j);
  }

  /** Of the nodes on offer the descent hands out the one at the lowest address. */
  lemma {:induction false} DescentIsLowest(t: Entries, i: nat, req: int, j: nat)
    requires Inv(t) && CanServe(t, i, req)
    ensures Offered(t, i, Descent(t, i, req), req)
    ensures Offered(t, i, j, req) ==> Offset(Descent(t, i, req)) <= Offset(j)
    decreases PAGE_NODE_NUM - i
  {
    ClassBounds(i);
    assert Local(t, i);
    var n := Descent(t, i, req);
    if Class(i) == req {
      forall a: nat | OnPath(i, a, n) ensures a == i { UnderTrans(i, a, n); }
      if Offered(t, i, j, req) { UnderClass(i, j); }
    } else {
      Halving(i);
      var c := if t[2 * i] >= req then 2 * i else 2 * i + 1;
      DescentIsLowest(t, c, req, j);
      OfferedBelow(t, i, c, n, req);
      if Offered(t, i, j, req) {
        UnderSplit(i, j);
        OfferedBelow(t, i, if Under(2 * i, j) then 2 * i else 2 * i + 1, j, req);
        if !Under(c, j) {
          UnderClass(2 * i, n);
          UnderClass(2 * i + 1, j);
        }
      }
    }
  }

  /** An allocation at the root keeps the invariant and adds exactly its own block to the
      handed-out ones. */
  lemma AllocKeepsInv(t: Entries, t': Entries, req: int)
    requires Inv(t) && CanServe(t, 1, req)
    requires Allocated(t, t', 1, Descent(t, 1, req), req)
    ensures Inv(t')
    ensures forall j :: Live(t', j) <==> Live(t, j) || j == Descent(t, 1, req)
    ensures !Live(t, Descent(t, 1, req))
    ensures forall j :: Live(t, j) ==> Disjoint(j, Descent(t, 1, req))
  {
    var n := Descent(t, 1, req);
    AllocKeepsLocal(t, t', 1, n, req);
    forall j | IsNode(j) ensures Local(t', j) && (Live(t', j) <==> Live(t, j) || j == n) {
      RootAbove(j);
    }
    assert !Live(t, n) && Live(t', n);
    forall j | Live(t, j) ensures Disjoint(j, n) {
      LiveDisjoint(t', j, n);
    }
  }

  // ---------------------------------------------------------------- release

  /** The entries on the path from i to node n after n was given back. */
  ghost predicate FreePath(t': Entries, i: nat, n: nat) {
    && IsNode(n) && t'[n] == Class(n)
    && (forall j {:trigger OnPath(i, j, n)} :: IsNode(j) && OnPath(i, j, n) && j != n ==>
          2 * j + 1 < PAGE_NODE_NUM &&
          t'[j] == if BothClean(t', j) then Class(j) else Max(t'[2 * j], t'[2 * j + 1]))
  }

  /** t' is t after the handed-out node n below i was given back. */
  ghost predicate Freed(t: Entries, t': Entries, i: nat, n: nat) {
    FreePath(t', i, n) && SameElsewhere(t, t', i, n)
  }

  /** Only the block itself was handed out on the path, and nothing on it is afterwards. */
  ghost predicate FreeMarks(t: Entries, t': Entries, i: nat, n: nat) {
    forall j {:trigger OnPath(i, j, n)} :: IsNode(j) && OnPath(i, j, n) ==>
        t'[j] != FULL_USED && (j != n ==> t[j] != FULL_USED)
  }

  lemma {:induction false} FreeKeepsLocal(t: Entries, t': Entries, i: nat, n: nat)
    requires Inv(t) && IsNode(i) && Live(t, n) && Under(i, n)
    requires FreePath(t', i, n) && SameBelow(t, t', i, n)
    ensures LocalBelow(t', i)
    ensures FreeMarks(t, t', i, n)
    ensures Class(n) <= t'[i] <= Class(i)
    decreases PAGE_NODE_NUM - i
  {
    ClassBounds(i);
    ClassBounds(n);
    if i == n {
      BelowBlock(t, t', n);
    } else {
      UnderSplit(i, n);
      var c := if Under(2 * i, n) then 2 * i else 2 * i + 1;
      var o := if Under(2 * i, n) then 2 * i + 1 else 2 * i;
      UnderTrans(c, n, n);
      Siblings(t, t', i, c, o, n);
      assert FreePath(t', c, n);
      FreeKeepsLocal(t, t', c, n);
      assert OnPath(i, i, n);
      HalvesBelow(t, i);
      AboveLive(t, i, n);
      FreeInner(t, t', i, 2 * i, 2 * i + 1, c, n);
    }
  }

  lemma AboveLive(t: Entries, i: nat, n: nat)
    requires Inv(t) && IsNode(i) && Live(t, n) && Under(i, n) && n != i
    ensures t[i] != FULL_USED
  {
    if t[i] == FULL_USED { CleanBelow(t, i, n); }
  }

  lemma FreeInner(t: Entries, t': Entries, i: nat, l: nat, r: nat, c: nat, n: nat)
    requires IsNode(i) && i < PAGE_NODE_NUM / 2 && IsNode(n) && n != i && t[i] != FULL_USED
    requires l == 2 * i && r == 2 * i + 1 && (c == l || c == r)
    requires forall j: nat {:trigger OnPath(i, j, n)} :: OnPath(i, j, n) <==> j == i || OnPath(c, j, n)
    requires LocalBelow(t', l) && LocalBelow(t', r) && t'[l] < Class(i) && t'[r] < Class(i)
    requires t'[i] == if BothClean(t', i) then Class(i) else Max(t'[l], t'[r])
    requires FreeMarks(t, t', c, n) && P_4K <= Class(n) <= t'[c]
    ensures LocalBelow(t', i) && FreeMarks(t, t', i, n) && Class(n) <= t'[i] <= Class(i)
  {
    FreeStep(t'[i], t'[l], t'[r], Class(i), t'[c]);
    assert Local(t', i);
    LocalJoin(t', i, l, r);
  }

  lemma FreeStep(e: int, l: int, r: int, k: int, c: int)
    requires l < k && r < k && P_4K <= c && (c == l || c == r)
    requires e == if l == k - 1 && r == k - 1 then k else Max(l, r)
    ensures InnerEntry(e, l, r, k) && c <= e <= k
  {
  }

  /** Giving back a handed-out block keeps the invariant, removes exactly that block, and leaves
      the unit able to serve a request of that class again. */
  lemma FreeKeepsInv(t: Entries, t': Entries, n: nat)
    requires Inv(t) && Live(t, n) && Freed(t, t', 1, n)
    ensures Inv(t')
    ensures forall j :: Live(t', j) <==> Live(t, j) && j != n
    ensures CanServe(t', 1, Class(n))
  {
    RootAbove(n);
    ClassBounds(n);
    FreeKeepsLocal(t, t', 1, n);
    forall j | IsNode(j) ensures Local(t', j) && (Live(t', j) <==> Live(t, j) && j != n) {
      RootAbove(j);
    }
    assert !Live(t', n);
  }

  // ---------------------------------------------------------------- bubbles hide free memory

  /** Handing out 4M and then 8M of a fresh unit leaves its root marked HAVE_BUBBLE although a
      whole 4M block is untouched: the unit then refuses every request. */
  lemma BubbleHidesFreeBlock(t0: Entries, t1: Entries, t2: Entries)
    requires IsInitial(t0)
    requires Inv(t0) && CanServe(t0, 1, 22) && Allocated(t0, t1, 1, Descent(t0, 1, 22), 22)
    requires Inv(t1) && CanServe(t1, 1, 23) && Allocated(t1, t2, 1, Descent(t1, 1, 23), 23)
    ensures t2[1] == HAVE_BUBBLE && Untouched(t2, 5) && Class(5) == 22
    ensures forall req :: !CanServe(t2, 1, req)
  {
    assert Class(1) == 24 && Class(2) == 23 && Class(3) == 23 && Class(4) == 22 && Class(5) == 22;
    assert Descent(t0, 2, 22) == 4;
    assert Descent(t0, 1, 22) == 4;
    assert OnPath(1, 1, 4) && OnPath(1, 2, 4) && OnPath(1, 4, 4);
    assert !OnPath(1, 3, 4) && !OnPath(1, 5, 4);
    assert t1[1] == 23 && t1[2] == 22 && t1[5] == 22;
    assert Descent(t1, 1, 23) == 3;
    assert OnPath(1, 1, 3) && !OnPath(1, 2, 3) && !OnPath(1, 5, 3);
    AllocKeepsInv(t1, t2, 23);
    CleanUntouched(t2, 5);
  }
}
