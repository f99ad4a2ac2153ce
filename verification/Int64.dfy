/** Counting zero bits in 32-bit halves (abstract-machine/klib/src/int64.c). Words are natural
    numbers below 2^32 or 2^64; shifts and wrap-around are written out. */
module Int64 {
  import opened Words
  import opened Bits

  const W32 := 0x1_0000_0000
  const W64 := 0x1_0000_0000_0000_0000

  /** x << s and x >> s on 32-bit words. */
  function Shl(x: nat, s: nat): nat {
    Times(x, Pow2(s)) % W32
  }

  function Shr(x: nat, s: nat): nat {
    DivNonNeg(x, Pow2(s));
    x / Pow2(s)
  }

  lemma DivNonNeg(x: int, m: int)
    requires x >= 0 && m >= 1
    ensures x / m >= 0
  {
    assert x == m * (x / m) + x % m;
  }

  /** udwords: the 64-bit value of two halves. */
  function All(high: nat, low: nat): nat {
    high * W32 + low
  }

  lemma WordPowers()
    ensures Pow2(32) == W32 && Pow2(64) == W64 && Pow2(31) == 0x8000_0000 && Pow2(63) == 0x8000_0000_0000_0000
  {
    assert Pow2(8) == 256;
    Pow2Add(8, 8);
    Pow2Add(16, 16);
    Pow2Add(32, 32);
    assert Pow2(32) == 2 * Pow2(31);
    assert Pow2(64) == 2 * Pow2(63);
  }

  // ---------------------------------------------------------------- leading and trailing zeros

  /** c is the number of leading zero bits of the n-bit word x. */
  ghost predicate IsClz(x: nat, n: nat, c: nat) {
    var holds :=
      c < n && Pow2(n - 1 - c) <= x < Pow2(n - c);
    holds
  }

  /** c is the number of trailing zero bits of x. */
  ghost predicate IsCtz(x: nat, c: nat) {
    var holds :=
      x % Pow2(c) == 0 && (x / Pow2(c)) % 2 == 1;
    holds
  }

  lemma DivDiv(a: nat, m: nat, n: nat)
    requires m >= 1 && n >= 1
    ensures m * n >= 1 && (a / m) / n == a / (m * n)
  {
    var q, r := a / m, a % m;
    var q', r' := q / n, q % n;
    MulMono(1, m, n);
    MulMono(r', n - 1, m);
    DivDivSplit(a, m, n, q, r, q', r');
    DivModUnique(a, m * n, q', r' * m + r);
  }

  lemma DivDivSplit(a: nat, m: nat, n: nat, q: nat, r: nat, q': nat, r': nat)
    requires a == m * q + r && q == n * q' + r' && r < m && r' * m <= (n - 1) * m
    ensures a == q' * (m * n) + (r' * m + r) && r' * m + r < m * n
  {
    assert m * (n * q' + r') == q' * (m * n) + r' * m;
    assert (n - 1) * m == m * n - m;
  }

  /** __clzsi2: the branch-free count of leading zeros. */
  method ClzSI2(a: nat) returns (r: nat)
    requires 0 < a < W32
    ensures IsClz(a, 32, r)
  {
    var x := a;
    ClzStart(a);
    ClzStage(a, x, 0, 16, 0xFFFF0000);
    var t := if And(x, 0xFFFF0000) == 0 then 16 else 0;
    x := Shr(x, 16 - t);
    r := t;
    ClzStage(a, x, r, 8, 0xFF00);
    t := if And(x, 0xFF00) == 0 then 8 else 0;
    x := Shr(x, 8 - t);
    r := r + t;
    ClzStage(a, x, r, 4, 0xF0);
    t := if And(x, 0xF0) == 0 then 4 else 0;
    x := Shr(x, 4 - t);
    r := r + t;
    ClzStage(a, x, r, 2, 0xC);
    t := if And(x, 0xC) == 0 then 2 else 0;
    x := Shr(x, 2 - t);
    r := r + t;
    var mask := if And(x, 2) == 0 then W32 - 1 else 0;
    ClzEnd(a, x, r, mask);
    r := r + And((2 - x) % W32, mask);
  }

  /** r leading zeros of a have been counted, and x is the window of n bits that follows them. */
  ghost predicate Counting(a: nat, x: nat, r: nat, n: nat) {
    r + n <= 32 && Window(a, x, 32 - r - n, n)
  }

  /** The masks of __clzsi2: the upper half of a window of 2w bits. */
  predicate IsClzMask(w: nat, mask: nat) {
    (w == 16 && mask == 0xFFFF0000) || (w == 8 && mask == 0xFF00) || (w == 4 && mask == 0xF0) || (w == 2 && mask == 0xC)
    || (w == 1 && mask == 2)
  }

  lemma StageEffect(a: nat, x: nat, r: nat, w: nat)
    requires Counting(a, x, r, 2 * w)
    ensures x < Pow2(w) ==> Counting(a, Shr(x, w - w), r + w, w)
    ensures x >= Pow2(w) ==> Counting(a, Shr(x, w), r, w)
  {
    if x < Pow2(w) {
      ShrZero(x);
      DropUpper(a, x, r, w);
    } else {
      DropLower(a, x, r, w);
    }
  }

  lemma ClzStage(a: nat, x: nat, r: nat, w: nat, mask: nat)
    requires Counting(a, x, r, 2 * w) && IsClzMask(w, mask)
    ensures var t := if And(x, mask) == 0 then w else 0;
            Counting(a, Shr(x, w - t), r + t, w)
  {
    ClzMask(x, w, mask);
    StageEffect(a, x, r, w);
  }

  /** The upper half of the window is zero, or it is not. */
  lemma DropUpper(a: nat, x: nat, r: nat, w: nat)
    requires Counting(a, x, r, 2 * w) && x < Pow2(w)
    ensures Counting(a, x, r + w, w)
  {
    assert 32 - (r + w) - w == 32 - r - 2 * w;
  }

  lemma DropLower(a: nat, x: nat, r: nat, w: nat)
    requires Counting(a, x, r, 2 * w) && x >= Pow2(w)
    ensures Counting(a, Shr(x, w), r, w)
  {
    Narrow(a, x, 32 - r - 2 * w, w, 32 - r - w);
  }

  lemma ShrZero(x: nat)
    ensures Shr(x, 0) == x
  {
    assert Pow2(0) == 1;
  }

  /** x is what is left of a above its low e bits, a non-zero word of n bits. */
  ghost predicate Window(a: nat, x: nat, e: nat, n: nat) {
    x == a / Pow2(e) && 0 < x < Pow2(n)
  }

  lemma ClzStart(a: nat)
    requires 0 < a < W32
    ensures Counting(a, a, 0, 32)
  {
    WordPowers();
  }

  /** The masks select the upper half of the window. */
  lemma ClzMask(x: nat, w: nat, mask: nat)
    requires 0 < x < Pow2(2 * w) && IsClzMask(w, mask)
    ensures And(x, mask) == 0 <==> x < Pow2(w)
  {
    MaskIs(w, mask);
    AndHigh(x, w, w);
  }

  lemma MaskIs(w: nat, mask: nat)
    requires IsClzMask(w, mask)
    ensures w + w == 2 * w && mask == Pow2(w + w) - Pow2(w)
  {
    MaskValues();
  }

  lemma MaskValues()
    ensures Pow2(32) == W32 && Pow2(16) == 0x10000 && Pow2(8) == 0x100 && Pow2(4) == 0x10 && Pow2(2) == 4 &&
        Pow2(1) == 2
  {
    WordPowers();
    assert Pow2(8) == 256;
    Pow2Add(8, 8);
  }

  /** A window of 2w bits narrows to its upper w bits. */
  lemma Narrow(a: nat, x: nat, e: nat, w: nat, e': nat)
    requires Window(a, x, e, 2 * w) && x >= Pow2(w) && e' == e + w
    ensures Window(a, Shr(x, w), e', w)
  {
    Pow2Add(w, w);
    QuotientRange(x, Pow2(w), Pow2(w));
    Pow2Add(e, w);
    DivDiv(a, Pow2(e), Pow2(w));
  }

  lemma ClzEnd(a: nat, x: nat, r: nat, mask: nat)
    requires Counting(a, x, r, 2) && mask == if And(x, 2) == 0 then W32 - 1 else 0
    ensures x <= 3 && IsClz(a, 32, r + And((2 - x) % W32, mask))
  {
    ClzMask(x, 1, 2);
    assert Pow2(2) == 4 && Pow2(1) == 2;
    LastWindow(a, x, 30 - r);
    if x == 1 {
      WordPowers();
      AndOnes(1, 32);
      assert (2 - x) % W32 == 1;
    } else {
      assert mask == 0;
      assert And((2 - x) % W32, mask) == 0;
    }
  }

  lemma LastWindow(a: nat, x: nat, e: nat)
    requires x == a / Pow2(e) && 0 < x < 4
    ensures x >= 2 ==> Pow2(e + 1) <= a < Pow2(e + 2)
    ensures x == 1 ==> Pow2(e) <= a < Pow2(e + 1)
  {
    var m := Pow2(e);
    assert a == m * x + a % m;
    assert Pow2(e + 1) == 2 * m && Pow2(e + 2) == 4 * m;
  }

  lemma QuotientRange(a: nat, m: nat, n: nat)
    requires m >= 1 && m <= a < m * n
    ensures 0 < a / m < n
  {
    var q := a / m;
    assert a == m * q + a % m;
    assert q == 0 ==> m * q == 0;
    if q >= n { MulMono(n, q, m); }
  }

  /** __ctzsi2: the branch-free count of trailing zeros. */
  method CtzSI2(a: nat) returns (r: nat)
    requires 0 < a < W32
    ensures r < 32 && IsCtz(a, r)
  {
    var x: nat;
    x, r := CtzNarrow(a);
    ghost var y := x;
    x := And(x, 3);
    var mask := if And(x, 1) == 0 then W32 - 1 else 0;
    CtzEnd(a, y, r, mask);
    r := r + And((2 - Shr(x, 1)) % W32, mask);
  }

  /** The halving steps of __ctzsi2, down to a window of two bits. */
  method CtzNarrow(a: nat) returns (x: nat, r: nat)
    requires 0 < a < W32
    ensures CountingLow(a, x, r, 2)
  {
    x := a;
    CtzStart(a);
    CtzStage(a, x, 0, 16, 0xFFFF);
    var t := if And(x, 0xFFFF) == 0 then 16 else 0;
    x := Shr(x, t);
    r := t;
    CtzStage(a, x, r, 8, 0xFF);
    t := if And(x, 0xFF) == 0 then 8 else 0;
    x := Shr(x, t);
    r := r + t;
    CtzStage(a, x, r, 4, 0xF);
    t := if And(x, 0xF) == 0 then 4 else 0;
    x := Shr(x, t);
    r := r + t;
    CtzStage(a, x, r, 2, 3);
    t := if And(x, 3) == 0 then 2 else 0;
    x := Shr(x, t);
    r := r + t;
  }

  /** r trailing zeros of a have been counted, x is what follows them, and the next n bits of it
      are not all zero. */
  ghost predicate CountingLow(a: nat, x: nat, r: nat, n: nat) {
    r + n <= 32 && a == Times(x, Pow2(r)) && x % Pow2(n) != 0
  }

  lemma CtzStart(a: nat)
    requires 0 < a < W32
    ensures CountingLow(a, a, 0, 32)
  {
    WordPowers();
    DivModUnique(a, W32, 0, a);
  }

  lemma CtzStage(a: nat, x: nat, r: nat, w: nat, mask: nat)
    requires CountingLow(a, x, r, 2 * w)
    requires (w == 16 && mask == 0xFFFF) || (w == 8 && mask == 0xFF) || (w == 4 && mask == 0xF) || (w == 2 && mask == 3)
    ensures var t := if And(x, mask) == 0 then w else 0;
            CountingLow(a, Shr(x, t), r + t, w)
  {
    MaskValues();
    AndLow(x, w);
    Pow2Add(w, w);
    Pow2Add(r, w);
    if x % Pow2(w) == 0 { DropZeros(x, Pow2(w), Pow2(r), a); }
  }

  lemma DropZeros(x: nat, m: nat, p: nat, a: nat)
    requires m >= 1 && x % m == 0 && x % (m * m) != 0 && a == Times(x, p)
    ensures a == Times(x / m, p * m) && (x / m) % m != 0
  {
    var y := x / m;
    assert x == m * y;
    assert (m * y) * p == y * (p * m);
    if y % m == 0 {
      var z := y / m;
      assert y == m * z;
      assert m * (m * z) == z * (m * m);
      MulMono(1, m, m);
      MulMod(z, m * m);
    }
  }

  lemma CtzEnd(a: nat, y: nat, r: nat, mask: nat)
    requires CountingLow(a, y, r, 2) && mask == if And(And(y, 3), 1) == 0 then W32 - 1 else 0
    ensures And(y, 3) <= 3 && Shr(And(y, 3), 1) <= 1
    ensures var c := r + And((2 - Shr(And(y, 3), 1)) % W32, mask); c < 32 && IsCtz(a, c)
  {
    assert Pow2(2) == 4 && Pow2(1) == 2;
    AndLow(y, 2);
    var x := And(y, 3);
    AndLow(x, 1);
    WordPowers();
    AndOnes(1, 32);
    ShrOne(x);
    if x % 2 == 0 {
      OddPart(a, y / 2, r + 1, y, r);
    } else {
      OddPart(a, y, r, y, r);
    }
  }

  lemma ShrOne(x: nat)
    requires 0 < x <= 3
    ensures Shr(x, 1) == x / 2 <= 1
    ensures x % 2 == 0 ==> x == 2 && And((2 - Shr(x, 1)) % W32, W32 - 1) == 1
    ensures And((2 - Shr(x, 1)) % W32, 0) == 0
  {
    assert Pow2(1) == 2;
    WordPowers();
    AndOnes(1, 32);
  }

  lemma OddPart(a: nat, z: nat, c: nat, y: nat, r: nat)
    requires a == Times(y, Pow2(r)) && z % 2 == 1 && ((z == y && c == r) || (y == 2 * z && c == r + 1))
    ensures IsCtz(a, c)
  {
    if c == r + 1 {
      assert Pow2(c) == 2 * Pow2(r);
      assert (2 * z) * Pow2(r) == z * (2 * Pow2(r));
    }
    MulMod(z, Pow2(c));
  }

  /** __clzdi2 and __ctzdi2 pick the half to look at with masks. */
  method ClzDI2(high: nat, low: nat) returns (r: nat)
    requires high < W32 && low < W32 && All(high, low) > 0
    ensures IsClz(All(high, low), 64, r)
  {
    var f := if high == 0 then W32 - 1 else 0;
    WordPowers();
    PickHalf(high, low, f);
    var x := Or(And(high, W32 - 1 - f), And(low, f));
    var c := ClzSI2(x);
    AndOnes(32, 32);
    r := c + And(f, 32);
    ClzHigh(high, low, c);
  }

  lemma PickHalf(high: nat, low: nat, f: nat)
    requires high < W32 && low < W32 && (f == 0 || f == W32 - 1)
    ensures Or(And(high, W32 - 1 - f), And(low, f)) == if f == 0 then high else low
    ensures And(f, 32) == if f == 0 then 0 else 32
  {
    WordPowers();
    AndOnes(high, 32);
    AndOnes(low, 32);
    OrZero(high);
    OrDisjoint(0, low, 32);
    AndSwap(f, 32);
    AndOnes(32, 32);
  }

  lemma {:induction false} AndSwap(a: nat, b: nat)
    ensures And(a, b) == And(b, a)
    decreases a
  {
    if a > 0 && b > 0 { AndSwap(a / 2, b / 2); }
  }

  lemma ClzHigh(high: nat, low: nat, c: nat)
    requires high < W32 && low < W32 && IsClz(if high == 0 then low else high, 32, c)
    ensures IsClz(All(high, low), 64, if high == 0 then c + 32 else c)
  {
    WordPowers();
    if high > 0 {
      Pow2Add(31 - c, 32);
      Pow2Add(32 - c, 32);
      MulMono(Pow2(31 - c), high, W32);
      MulMono(high + 1, Pow2(32 - c), W32);
    }
  }

  method CtzDI2(high: nat, low: nat) returns (r: nat)
    requires high < W32 && low < W32 && All(high, low) > 0
    ensures r < 64 && IsCtz(All(high, low), r)
  {
    var f := if low == 0 then W32 - 1 else 0;
    PickHalf(low, high, f);
    OrSwap(And(high, f), And(low, W32 - 1 - f));
    var x := Or(And(high, f), And(low, W32 - 1 - f));
    var c := CtzSI2(x);
    r := c + And(f, 32);
    CtzHalves(high, low, c);
  }

  lemma {:induction false} OrSwap(a: nat, b: nat)
    ensures Or(a, b) == Or(b, a)
    decreases a + b
  {
    if a > 0 || b > 0 { OrSwap(a / 2, b / 2); }
  }

  lemma CtzHalves(high: nat, low: nat, c: nat)
    requires high < W32 && low < W32 && All(high, low) > 0
    requires c < 32 && IsCtz(if low == 0 then high else low, c)
    ensures IsCtz(All(high, low), if low == 0 then c + 32 else c)
  {
    if low == 0 {
      ShiftedCtz(high, c);
    } else {
      LowCtz(high, low, c);
    }
  }

  lemma ShiftedCtz(high: nat, c: nat)
    requires IsCtz(high, c)
    ensures IsCtz(high * W32, c + 32)
  {
    WordPowers();
    var z, m := high / Pow2(c), Pow2(c);
    assert high == z * m;
    Pow2Add(c, 32);
    assert (z * m) * W32 == z * (m * W32);
    MulMod(z, m * W32);
  }

  lemma LowCtz(high: nat, low: nat, c: nat)
    requires c < 32 && IsCtz(low, c)
    ensures IsCtz(All(high, low), c)
  {
    WordIsEven(c);
    AddEven(high, low / Pow2(c), Pow2(c), Pow2(31 - c), W32, low);
  }

  lemma WordIsEven(c: nat)
    requires c < 32
    ensures W32 == Pow2(c) * (2 * Pow2(31 - c))
  {
    WordPowers();
    Pow2Add(c, 32 - c);
  }

  lemma AddEven(h: nat, z: nat, m: nat, k: nat, w: nat, low: nat)
    requires m >= 1 && w == m * (2 * k) && low % m == 0 && z == low / m
    ensures (h * w + low) % m == 0 && (h * w + low) / m % 2 == z % 2
  {
    var q := 2 * (h * k) + z;
    assert low == z * m;
    EvenPart(h, m, k, z);
    DivModUnique(h * w + low, m, q, 0);
    TwiceAnd(h * k, z);
  }

  lemma EvenPart(h: nat, m: nat, k: nat, z: nat)
    ensures h * (m * (2 * k)) + z * m == (2 * (h * k) + z) * m
  {
  }
}
