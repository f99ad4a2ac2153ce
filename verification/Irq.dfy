/** The list of interrupt handlers and the trap entry that runs them (kernel/src/os.c). */
module Irq {
  import opened Words

  const SEQ_MIN := -0x8000_0000
  const SEQ_MAX := 0x7fff_ffff
  const EVENT_NULL := 0

  class Request {
    const seq_: int
    const event: int
    const handler: nat
    var next: Request?

    constructor (seq_: int, event: int, handler: nat)
      ensures this.seq_ == seq_ && this.event == event && this.handler == handler && next == null
    {
      this.seq_ := seq_; this.event := event; this.handler := handler; next := null;
    }
  }

  ghost predicate Sorted(l: seq<Request>) {
    forall i, j :: 0 <= i < j < |l| ==> l[i].seq_ <= l[j].seq_
  }

  /** x goes behind every request of the same or a smaller seq and before the rest. */
  ghost predicate InsertedAt(l: seq<Request>, l': seq<Request>, x: Request, k: nat) {
    && k <= |l| && l' == l[..k] + [x] + l[k..]
    && (forall i :: 0 <= i < k ==> l[i].seq_ <= x.seq_) && (forall i :: k <= i < |l| ==> x.seq_ < l[i].seq_)
  }

  /** The requests a trap with this event serves, in list order. */
  ghost function Served(l: seq<Request>, event: int): seq<Request> {
    if l == [] then []
    else
      var last := l[|l| - 1];
      Served(l[..|l| - 1], event) + (if last.event == EVENT_NULL || last.event == event then [last] else [])
  }

  /** The last context a served handler returned. */
  ghost function LastContext(served: seq<Request>, ret: map<nat, nat>): Option<nat> {
    if served == [] then None
    else if served[|served| - 1].handler in ret then Some(ret[served[|served| - 1].handler])
    else LastContext(served[..|served| - 1], ret)
  }

  predicate Serves(x: Request, event: int) {
    x.event == EVENT_NULL || x.event == event
  }

  /** The requests served are those of the list for this event or for every event, each once, in the
      order of the list. */
  ghost predicate ServesExactly(l: seq<Request>, event: int, served: seq<Request>) {
    var holds :=
      && (forall x {:trigger x in served} :: x in served ==> x in l && Serves(x, event))
      && (forall x {:trigger x in l} :: x in l && Serves(x, event) ==> x in served)
      && Distinct(served) && SameOrder(l, served);
    holds
  }

  ghost predicate SameOrder(l: seq<Request>, s: seq<Request>) {
    forall a, b, i, j {:trigger s[a], s[b], l[i], l[j]} ::
        0 <= a < |s| && 0 <= b < |s| && 0 <= i < j < |l| && s[a] == l[i] && s[b] == l[j] ==> a < b
  }

  /** Of the served handlers, the k-th is the last that gives a context. */
  ghost predicate LastGiver(served: seq<Request>, ret: map<nat, nat>, k: int) {
    && 0 <= k < |served| && served[k].handler in ret
    && forall m :: k < m < |served| ==> served[m].handler !in ret
  }

  /** The context is that of the last served handler that gives one, and there is one exactly when some
      served handler gives one. */
  ghost predicate GivesLast(served: seq<Request>, ret: map<nat, nat>, ctx: Option<nat>) {
    var holds :=
      if ctx == None then forall x {:trigger x in served} :: x in served ==> x.handler !in ret
      else exists k :: LastGiver(served, ret, k) && ctx == Some(ret[served[k].handler]);
    holds
  }

  lemma {:induction false} ServedMembers(l: seq<Request>, event: int, x: Request)
    ensures x in Served(l, event) <==> x in l && Serves(x, event)
  {
    if l != [] {
      var l0, last := l[..|l| - 1], l[|l| - 1];
      ServedMembers(l0, event, x);
      assert x in l <==> x in l0 || x == last by { assert l == l0 + [last]; }
    }
  }

  lemma {:induction false} ServedInOrder(l: seq<Request>, event: int)
    requires Distinct(l)
    ensures Distinct(Served(l, event)) && SameOrder(l, Served(l, event))
  {
    if l != [] {
      var l0, last := l[..|l| - 1], l[|l| - 1];
      var s0 := Served(l0, event);
      ServedInOrder(l0, event);
      forall x | x in s0 ensures x in l0 { ServedMembers(l0, event, x); }
      OneMoreInOrder(l0, s0, last, l);
      assert Served(l, event) == s0 || Served(l, event) == s0 + [last];
    }
  }

  lemma OneMoreInOrder(l: seq<Request>, s: seq<Request>, x: Request, l': seq<Request>)
    requires Distinct(s) && SameOrder(l, s) && x !in l && forall y {:trigger y in s} :: y in s ==> y in l
    requires l' == l + [x]
    ensures Distinct(s + [x]) && SameOrder(l', s + [x]) && SameOrder(l', s)
  {
    var s' := s + [x];
    forall a | 0 <= a < |s| ensures s[a] != x { assert s[a] in s; }
    forall a, b, i, j | 0 <= a < |s'| && 0 <= b < |s'| && 0 <= i < j < |l'| && s'[a] == l'[i] && s'[b] == l'[j]
      ensures a < b
    {
      assert i < |l| && l'[i] == l[i] && l[i] in l;
      if j < |l| { assert l'[j] == l[j] && l[j] in l; }
    }
    forall a, b, i, j | 0 <= a < |s| && 0 <= b < |s| && 0 <= i < j < |l'| && s[a] == l'[i] && s[b] == l'[j]
      ensures a < b
    {
      assert s[b] in s;
    }
  }

  lemma ServedExactly(l: seq<Request>, event: int)
    requires Distinct(l)
    ensures ServesExactly(l, event, Served(l, event))
  {
    ServedInOrder(l, event);
    forall x | x in Served(l, event) ensures x in l && Serves(x, event) { ServedMembers(l, event, x); }
    forall x | x in l && Serves(x, event) ensures x in Served(l, event) { ServedMembers(l, event, x); }
  }

  lemma {:induction false} LastGiven(served: seq<Request>, ret: map<nat, nat>)
    ensures GivesLast(served, ret, LastContext(served, ret))
  {
    if served != [] {
      var s0, n := served[..|served| - 1], |served| - 1;
      LastGiven(s0, ret);
      if served[n].handler in ret {
        assert LastGiver(served, ret, n);
      } else if LastContext(served, ret) == None {
        forall x | x in served ensures x.handler !in ret { assert x in s0 || x == served[n]; }
      } else {
        var k :| LastGiver(s0, ret, k) && LastContext(s0, ret) == Some(ret[s0[k].handler]);
        forall m | k < m < |served| ensures served[m].handler !in ret { assert m < n ==> served[m] == s0[m]; }
        assert LastGiver(served, ret, k);
      }
    }
  }

  ghost function Links(l: seq<Request>): (n: seq<Request?>)
    reads l
    ensures |n| == |l| && forall i {:trigger n[i]} :: 0 <= i < |l| ==> n[i] == l[i].next
  {
    seq(|l|, i requires 0 <= i < |l| reads l => l[i].next)
  }

  /** The requests of l are linked in order, the last to null. */
  ghost predicate Linked(l: seq<Request>, n: seq<Request?>) {
    |n| == |l| && forall i {:trigger n[i]} :: 0 <= i < |l| ==> n[i] == if i + 1 < |l| then l[i + 1] else null
  }

  lemma NewLinks(l: seq<Request>, n: seq<Request?>, x: Request, k: nat, l': seq<Request>)
    requires |n| == |l| && k < |l| && l' == l[..k + 1] + [x] + l[k + 1..]
    requires forall j {:trigger l[j]} :: 0 <= j < |l| && j != k ==> l[j].next == n[j]
    requires l[k].next == x && x.next == n[k]
    ensures Links(l') == n[..k] + [x] + [n[k]] + n[k + 1..]
  {
    forall i | 0 <= i < |l'| ensures Links(l')[i] == (n[..k] + [x] + [n[k]] + n[k + 1..])[i] {
      if i < k { assert l'[i] == l[i]; }
      if i > k + 1 { assert l'[i] == l[i - 1]; }
    }
  }

  ghost predicate Distinct(l: seq<Request>) {
    forall i, j :: 0 <= i < j < |l| ==> l[i] != l[j]
  }

  lemma Inserted(l: seq<Request>, l': seq<Request>, x: Request, k: nat)
    requires InsertedAt(l, l', x, k)
    ensures |l'| == |l| + 1
    ensures forall i {:trigger l'[i]} :: 0 <= i < |l'| ==>
        l'[i] == if i < k then l[i] else if i == k then x else l[i - 1]
  {
  }

  lemma InsertKeepsOrder(l: seq<Request>, l': seq<Request>, x: Request, k: nat)
    requires Sorted(l) && Distinct(l) && x !in l && InsertedAt(l, l', x, k)
    ensures Sorted(l') && Distinct(l')
  {
    forall i | 0 <= i < |l'| ensures l'[i] == if i < k then l[i] else if i == k then x else l[i - 1] { }
  }

  lemma InsertLinked(l: seq<Request>, n: seq<Request?>, x: Request, k: nat)
    requires Linked(l, n) && 1 <= k <= |l|
    ensures Linked(l[..k] + [x] + l[k..], n[..k - 1] + [x] + [n[k - 1]] + n[k..])
  {
    var l', n' := l[..k] + [x] + l[k..], n[..k - 1] + [x] + [n[k - 1]] + n[k..];
    forall i | 0 <= i < |l'| ensures n'[i] == if i + 1 < |l'| then l'[i + 1] else null {
      if i > k {
        assert n'[i] == n[i - 1];
      } else if i < k - 1 {
        assert n'[i] == n[i];
      }
    }
  }

  class IrqList {
    var irqList: Request?
    ghost var list: seq<Request>

    ghost predicate Valid()
      reads this, list
    {
      && irqList == (if list == [] then null else list[0])
      && Distinct(list)
      && Linked(list, Links(list)) && Sorted(list)
    }

    constructor ()
      ensures Valid() && list == []
    {
      irqList, list := null, [];
    }

    /** on_irq keeps the list sorted by seq, behind earlier registrations of the same seq. */
    method OnIrq(seq_: int, event: int, handler: nat)
      requires Valid()
      modifies this, list
      ensures Valid()
      ensures exists x: Request, k: nat ::
          fresh(x) && x.seq_ == seq_ && x.event == event && x.handler == handler && InsertedAt(old(list), list, x, k)
    {
      var irq := new Request(seq_, event, handler);
      if irqList == null || irq.seq_ < irqList.seq_ {
        InsertFirst(irq);
      } else {
        InsertBehind(irq);
      }
    }

    method InsertFirst(irq: Request)
      requires Valid() && irq !in list && irq.next == null && (list != [] ==> irq.seq_ < list[0].seq_)
      modifies this, irq
      ensures Valid() && InsertedAt(old(list), list, irq, 0)
    {
      ghost var l, links := list, Links(list);
      if irqList != null { irq.next := irqList; }
      irqList := irq;
      list := [irq] + list;
      assert InsertedAt(l, list, irq, 0);
      InsertKeepsOrder(l, list, irq, 0);
      assert Links(list) == [if l == [] then null else l[0]] + links;
    }

    method InsertBehind(irq: Request)
      requires Valid() && list != [] && irq !in list && irq.next == null && list[0].seq_ <= irq.seq_
      modifies this, list, irq
      ensures Valid() && exists k: nat :: InsertedAt(old(list), list, irq, k)
    {
      ghost var l, links := list, Links(list);
      var req := irqList;
      ghost var k := 0;
      while req.next != null
        invariant 0 <= k < |l| && req == l[k] && list == l && unchanged(this) && unchanged(list) && irq.next == null
        invariant forall i :: 0 <= i <= k ==> l[i].seq_ <= irq.seq_
        decreases |l| - k
      {
        assert links[k] == req.next;
        if irq.seq_ < req.next.seq_ {
          irq.next := req.next;
          break;
        }
        req := req.next;
        k := k + 1;
      }
      assert links[k] == req.next;
      req.next := irq;
      list := l[..k + 1] + [irq] + l[k + 1..];
      InsertLinked(l, links, irq, k + 1);
      assert InsertedAt(l, list, irq, k + 1);
      InsertKeepsOrder(l, list, irq, k + 1);
      NewLinks(l, links, irq, k, list);
    }

    /** The loop of trap. */
    method RunHandlers(event: int, ret: map<nat, nat>) returns (nextCtx: Option<nat>, served: seq<Request>)
      requires Valid()
      ensures served == Served(list, event) && nextCtx == LastContext(served, ret)
    {
      nextCtx, served := None, [];
      var req := irqList;
      ghost var k := 0;
      ghost var links := Links(list);
      while req != null
        invariant 0 <= k <= |list| && req == (if k < |list| then list[k] else null)
        invariant served == Served(list[..k], event)
        invariant nextCtx == LastContext(served, ret)
        decreases |list| - k
      {
        assert list[..k + 1][..k] == list[..k];
        if req.event == EVENT_NULL || req.event == event {
          assert (served + [req])[..|served|] == served;
          if req.handler in ret { nextCtx := Some(ret[req.handler]); }
          served := served + [req];
        }
        assert links[k] == req.next;
        req := req.next;
        k := k + 1;
      }
      assert list[..k] == list;
    }

    /** trap runs the handlers registered for the event or for every event, each once, in list order, and
        returns the last context one of them gave; ret says which context each handler returns, if
        any, and served is whose handlers ran. */
    method Trap(event: int, ret: map<nat, nat>) returns (nextCtx: Option<nat>, served: seq<Request>)
      requires Valid()
      ensures served == Served(list, event) && nextCtx == LastContext(served, ret)
      ensures ServesExactly(list, event, served) && GivesLast(served, ret, nextCtx)
      ensures Framed(list) && list[|list| - 1].handler in ret ==>
          && |served| >= 2 && served[0] == list[0] && served[|served| - 1] == list[|list| - 1]
          && nextCtx == Some(ret[list[|list| - 1].handler])
    {
      if irqList == null { return None, []; }
      nextCtx, served := RunHandlers(event, ret);
      ServedExactly(list, event);
      LastGiven(served, ret);
      if Framed(list) { EndsServed(list, event, ret); }
    }

    /** kmt_init registers the context saver with the smallest seq and the scheduler with the largest;
        afterwards devices register theirs, in any number, with any seq below the largest. */
    method Boot(save: nat, schedule: nat, later: seq<(int, int, nat)>)
      requires Valid() && list == []
      requires forall k {:trigger later[k]} :: 0 <= k < |later| ==> SEQ_MIN <= later[k].0 < SEQ_MAX
      modifies this
      ensures Valid() && Framed(list) && |list| == |later| + 2
      ensures list[0].handler == save && list[|list| - 1].handler == schedule
    {
      OnIrq(SEQ_MIN, EVENT_NULL, save);
      OnIrq(SEQ_MAX, EVENT_NULL, schedule);
      for k := 0 to |later|
        invariant Valid() && Framed(list) && |list| == k + 2
        invariant forall j {:trigger list[j]} :: 0 <= j < |list| ==> fresh(list[j])
        invariant list[0].handler == save && list[|list| - 1].handler == schedule
      {
        ghost var l := list;
        OnIrq(later[k].0, later[k].1, later[k].2);
        ghost var x: Request, at: nat :| fresh(x) && x !in l && x.seq_ == later[k].0 && InsertedAt(l, list, x, at);
        Inserted(l, list, x, at);
        EndsStay(l, list, x, at);
      }
    }
  }

  /** The first and the last request are the scheduler's two handlers, which serve every event. */
  ghost predicate Framed(l: seq<Request>) {
    && |l| >= 2 && l[0].event == l[|l| - 1].event == EVENT_NULL
    && l[0].seq_ == SEQ_MIN && l[|l| - 1].seq_ == SEQ_MAX
  }

  lemma {:induction false} ServedFirst(l: seq<Request>, event: int)
    requires l != [] && l[0].event == EVENT_NULL
    ensures Served(l, event) != [] && Served(l, event)[0] == l[0]
  {
    if |l| > 1 { ServedFirst(l[..|l| - 1], event); }
  }

  /** Whatever the event, the saver runs first and the scheduler last, and the trap returns the
      context the scheduler chose. */
  lemma EndsServed(l: seq<Request>, event: int, ret: map<nat, nat>)
    requires Framed(l)
    ensures var s := Served(l, event); |s| >= 2 && s[0] == l[0] && s[|s| - 1] == l[|l| - 1]
    ensures l[|l| - 1].handler in ret ==> LastContext(Served(l, event), ret) == Some(ret[l[|l| - 1].handler])
  {
    ServedFirst(l[..|l| - 1], event);
  }

  /** A registration stays behind the first of the two, and before the last one exactly when its seq
      is below the largest. */
  lemma EndsStay(l: seq<Request>, l': seq<Request>, x: Request, k: nat)
    requires |l| >= 2 && l[0].seq_ == SEQ_MIN && l[|l| - 1].seq_ == SEQ_MAX && x !in l
    requires SEQ_MIN <= x.seq_ <= SEQ_MAX && InsertedAt(l, l', x, k)
    ensures |l'| == |l| + 1 && l'[0] == l[0]
    ensures l'[|l'| - 1] == l[|l| - 1] <==> x.seq_ < SEQ_MAX
  {
    assert k == |l| ==> l'[|l'| - 1] == x;
  }
}
