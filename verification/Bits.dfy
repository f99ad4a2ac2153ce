/** The bitwise operators of C on natural numbers, defined bit by bit. */
module Bits {
  import opened Words

  function And(a: nat, b: nat): nat {
    if a == 0 || b == 0 then 0 else 2 * And(a / 2, b / 2) + (if a % 2 == 1 && b % 2 == 1 then 1 else 0)
  }

  function Or(a: nat, b: nat): nat
    decreases a + b
  {
    if a == 0 && b == 0 then 0 else 2 * Or(a / 2, b / 2) + (if a % 2 == 1 || b % 2 == 1 then 1 else 0)
  }

  function Xor(a: nat, b: nat): nat
    decreases a + b
  {
    if a == 0 && b == 0 then 0 else 2 * Xor(a / 2, b / 2) + (if a % 2 != b % 2 then 1 else 0)
  }

  lemma {:induction false} OrZero(a: nat)
    ensures Or(a, 0) == a
  {
    if a > 0 { OrZero(a / 2); }
  }

  lemma HalfMod(a: nat, s: nat)
    requires s > 0
    ensures a % Pow2(s) == 2 * ((a / 2) % Pow2(s - 1)) + a % 2
    ensures a / Pow2(s) == (a / 2) / Pow2(s - 1)
  {
    var m := Pow2(s - 1);
    var q, r := (a / 2) / m, (a / 2) % m;
    assert a / 2 == q * m + r;
    assert a == 2 * (q * m + r) + a % 2;
    assert q * (2 * m) == 2 * (q * m);
    DivModUnique(a, 2 * m, q, 2 * r + a % 2);
  }

  /** Joining two bit fields that do not overlap adds them. */
  lemma {:induction false} OrDisjoint(a: nat, b: nat, s: nat)
    requires a % Pow2(s) == 0 && b < Pow2(s)
    ensures Or(a, b) == a + b
    decreases s
  {
    if s == 0 {
      OrZero(a);
    } else {
      HalfMod(a, s);
      OrDisjoint(a / 2, b / 2, s - 1);
    }
  }

  /** Masking with n ones keeps the low n bits. */
  lemma {:induction false} AndLow(a: nat, n: nat)
    ensures And(a, Pow2(n) - 1) == a % Pow2(n)
    decreases n
  {
    if n > 0 {
      HalfMod(a, n);
      AndLow(a / 2, n - 1);
      assert (Pow2(n) - 1) / 2 == Pow2(n - 1) - 1;
      if a == 0 { assert 0 % Pow2(n) == 0; }
    }
  }

  lemma AndOnes(a: nat, n: nat)
    requires a < Pow2(n)
    ensures And(a, Pow2(n) - 1) == a
  {
    AndLow(a, n);
    DivModUnique(a, Pow2(n), 0, a);
  }

  /** Testing the m bits above the low n ones. */
  lemma {:induction false} AndHigh(a: nat, n: nat, m: nat)
    requires a < Pow2(n + m)
    ensures Pow2(n + m) >= Pow2(n)
    ensures And(a, Pow2(n + m) - Pow2(n)) == 0 <==> a < Pow2(n)
    decreases n
  {
    Pow2Monotone(n, n + m);
    if n == 0 {
      AndOnes(a, m);
    } else {
      AndHigh(a / 2, n - 1, m);
      assert (Pow2(n + m) - Pow2(n)) / 2 == Pow2(n - 1 + m) - Pow2(n - 1);
    }
  }

  ghost predicate IsPow2(d: nat) {
    exists k: nat :: d == Pow2(k)
  }

  lemma IsPow2Double(e: nat)
    requires e > 0
    ensures IsPow2(2 * e) <==> IsPow2(e)
  {
    if IsPow2(e) {
      var k: nat :| e == Pow2(k);
      assert 2 * e == Pow2(k + 1);
    }
    if IsPow2(2 * e) {
      var k: nat :| 2 * e == Pow2(k);
      assert k > 0 && e == Pow2(k - 1);
    }
  }

  /** The test d & (d - 1) == 0 for powers of two. */
  lemma {:induction false} PowerTest(d: nat)
    requires d > 0
    ensures And(d, d - 1) == 0 <==> IsPow2(d)
  {
    if d == 1 {
      assert d == Pow2(0);
    } else if d % 2 == 1 {
      var e := d / 2;
      AndSelf(e);
      assert (d - 1) / 2 == e;
      forall k: nat ensures d != Pow2(k) {
        if k > 0 { assert Pow2(k) == 2 * Pow2(k - 1); }
      }
    } else {
      var e := d / 2;
      PowerTest(e);
      IsPow2Double(e);
      assert (d - 1) / 2 == e - 1;
    }
  }

  lemma {:induction false} AndSelf(a: nat)
    ensures And(a, a) == a
  {
    if a > 0 { AndSelf(a / 2); }
  }

  /** Inverting n bits. */
  lemma {:induction false} XorOnes(a: nat, n: nat)
    requires a < Pow2(n)
    ensures Xor(a, Pow2(n) - 1) == Pow2(n) - 1 - a
    decreases n
  {
    if n > 0 {
      XorOnes(a / 2, n - 1);
      assert (Pow2(n) - 1) / 2 == Pow2(n - 1) - 1;
    }
  }

  lemma {:induction false} XorZero(a: nat)
    ensures Xor(a, 0) == a
  {
    if a > 0 { XorZero(a / 2); }
  }
}
