/** 64-bit division out of 32-bit halves (abstract-machine/klib/src/int64.c). */
module Division {
  import opened Words
  import opened Bits
  import opened Int64

  const HALF := 0x8000_0000_0000_0000

  // ---------------------------------------------------------------- shifts across the two halves

  lemma ShlSplit(x: nat, p: nat, m: nat)
    requires p >= 1 && m >= 1 && p * m == W32
    ensures Times(x, m) % W32 == Times(x % p, m) && Times(x % p, m) <= W32 - m
  {
    var q, r := x / p, x % p;
    assert x == p * q + r;
    assert (p * q + r) * m == q * (p * m) + r * m;
    MulMono(r, p - 1, m);
    assert (p - 1) * m == p * m - m;
    DivModUnique(x * m, W32, q, r * m);
  }

  lemma DivSmaller(x: nat, p: nat, m: nat)
    requires p >= 1 && m >= 1 && x < p * m
    ensures 0 <= x / p < m
  {
    if x / p >= m { MulMono(m, x / p, p); }
    DivNonNeg(x, p);
    assert x == p * (x / p) + x % p;
  }

  /** (high << (32 - s)) | (low >> s) joins the low s bits of high to what is left of low. */
  lemma JoinShift(high: nat, low: nat, s: nat)
    requires high < W32 && low < W32 && 1 <= s <= 31
    ensures Shl(high, 32 - s) == Times(high % Pow2(s), Pow2(32 - s))
    ensures Or(Shl(high, 32 - s), Shr(low, s)) == Times(high % Pow2(s), Pow2(32 - s)) + low / Pow2(s) < W32
    ensures 0 <= low / Pow2(s)
  {
    var p, m := Pow2(s), Pow2(32 - s);
    WordPowers();
    Pow2Add(s, 32 - s);
    ShlSplit(high, p, m);
    DivSmaller(low, p, m);
    MulMod(high % p, m);
    OrDisjoint(Shl(high, 32 - s), Shr(low, s), 32 - s);
  }

  /** q holds the low sr bits of n at its top end and r the other bits. */
  ghost predicate Shifted(n: nat, sr: nat, q: nat, r: nat) {
    1 <= sr <= 63 && r == n / Pow2(sr) && q == Times(n % Pow2(sr), Pow2(64 - sr))
  }

  lemma WithinWord(high: nat, low: nat, sr: nat)
    requires high < W32 && low < W32 && 1 <= sr <= 31
    ensures Shifted(All(high, low), sr, All(Shl(low, 32 - sr), 0),
                    All(Shr(high, sr), Or(Shl(high, 32 - sr), Shr(low, sr))))
  {
    var p, m := Pow2(sr), Pow2(32 - sr);
    WordPowers();
    Pow2Add(sr, 32 - sr);
    Pow2Add(32 - sr, 32);
    JoinShift(high, low, sr);
    JoinShift(low, 0, sr);
    WithinWordSum(high, low, p, m, Shr(high, sr), high % p, Shr(low, sr), low % p);
  }

  lemma WithinWordSum(high: nat, low: nat, p: nat, m: nat, hq: nat, hr: nat, lq: nat, lr: nat)
    requires p >= 1 && p * m == W32
    requires hq == high / p && hr == high % p && lq == low / p && lr == low % p
    ensures All(high, low) / p == All(hq, Times(hr, m) + lq)
    ensures All(high, low) % p == lr && All(Times(lr, m), 0) == Times(lr, m * W32)
  {
    JoinedQuotient(high, low, p, m, hq, hr, lq, lr);
    DivModUnique(All(high, low), p, hq * W32 + hr * m + lq, lr);
  }

  lemma JoinedQuotient(high: nat, low: nat, p: nat, m: nat, hq: nat, hr: nat, lq: nat, lr: nat)
    requires p * m == W32 && high == p * hq + hr && low == p * lq + lr
    ensures All(high, low) == (hq * W32 + hr * m + lq) * p + lr
  {
    assert (p * hq + hr) * (p * m) == (hq * (p * m) + hr * m) * p;
    assert (hq * W32 + hr * m + lq) * p == (hq * W32 + hr * m) * p + lq * p;
  }

  lemma PastWord(high: nat, low: nat, sr: nat)
    requires high < W32 && low < W32 && 33 <= sr <= 63
    ensures Shifted(All(high, low), sr,
                    All(Or(Shl(high, 64 - sr), Shr(low, sr - 32)), Shl(low, 64 - sr)),
                    All(0, Shr(high, sr - 32)))
  {
    var s := sr - 32;
    var p, m := Pow2(s), Pow2(32 - s);
    WordPowers();
    Pow2Add(s, 32 - s);
    Pow2Add(s, 32);
    JoinShift(high, low, s);
    JoinShift(low, 0, s);
    PastWordSum(high, low, p, m, Shr(high, s), high % p, Shr(low, s), low % p);
  }

  lemma PastWordSum(high: nat, low: nat, p: nat, m: nat, hq: nat, hr: nat, lq: nat, lr: nat)
    requires p >= 1 && p * m == W32 && low < W32 && p * W32 >= 1
    requires hq == high / p && hr == high % p && lq == low / p && lr == low % p
    ensures All(high, low) / (p * W32) == hq
    ensures var n := All(high, low) % (p * W32); n >= 0 && Times(n, m) == All(Times(hr, m) + lq, Times(lr, m))
  {
    RaisedQuotient(high, low, p, hq, hr);
    RaisedRemainder(p, m, hr, lq, lr, low);
  }

  lemma RaisedQuotient(high: nat, low: nat, p: nat, hq: nat, hr: nat)
    requires high == p * hq + hr && hr < p && low < W32 && p * W32 >= 1
    ensures All(high, low) / (p * W32) == hq && All(high, low) % (p * W32) == hr * W32 + low
  {
    assert (p * hq + hr) * W32 == hq * (p * W32) + hr * W32;
    MulMono(hr, p - 1, W32);
    DivModUnique(All(high, low), p * W32, hq, hr * W32 + low);
  }

  lemma RaisedRemainder(p: nat, m: nat, hr: nat, lq: nat, lr: nat, low: nat)
    requires p * m == W32 && low == p * lq + lr
    ensures (hr * W32 + low) * m == (hr * m + lq) * W32 + lr * m
  {
    assert (hr * W32 + (p * lq + lr)) * m == (hr * m) * W32 + lq * (p * m) + lr * m;
  }

  lemma OneWord(high: nat, low: nat)
    requires high < W32 && low < W32
    ensures Shifted(All(high, low), 32, All(low, 0), All(0, high))
  {
    WordPowers();
    DivModUnique(All(high, low), W32, high, low);
  }

  /** The set-up of q = n << (64 - sr) and r = n >> sr, half by half. */
  method ShiftApart(high: nat, low: nat, sr: nat) returns (qh: nat, ql: nat, rh: nat, rl: nat)
    requires high < W32 && low < W32 && 1 <= sr <= 63
    ensures qh < W32 && ql < W32 && rh < W32 && rl < W32
    ensures Shifted(All(high, low), sr, All(qh, ql), All(rh, rl))
  {
    if sr == 32 {
      OneWord(high, low);
      qh, ql, rh, rl := low, 0, 0, high;
    } else if sr < 32 {
      WithinWord(high, low, sr);
      JoinShift(high, low, sr);
      ShrSmaller(high, sr);
      qh, ql, rh, rl := Shl(low, 32 - sr), 0, Shr(high, sr), Or(Shl(high, 32 - sr), Shr(low, sr));
    } else {
      PastWord(high, low, sr);
      JoinShift(high, low, sr - 32);
      ShrSmaller(high, sr - 32);
      qh, ql := Or(Shl(high, 64 - sr), Shr(low, sr - 32)), Shl(low, 64 - sr);
      rh, rl := 0, Shr(high, sr - 32);
    }
  }

  lemma ShrSmaller(x: nat, s: nat)
    requires x < W32
    ensures Shr(x, s) < W32
  {
    var m := Pow2(s);
    assert x == m * (x / m) + x % m;
    DivNonNeg(x, m);
    MulMono(1, m, x / m);
  }

  /** (high << 1) | (low >> 31) over (low << 1) | bit: the 64-bit word shifted by one. */
  lemma ShiftIn(high: nat, low: nat, bit: nat)
    requires high < W32 && low < W32 && bit <= 1
    ensures var h, l := Or(Shl(high, 1), Shr(low, 31)), Or(Shl(low, 1), bit);
            h < W32 && l < W32 && All(h, l) == (2 * All(high, low) + bit) % W64
    ensures Shr(high, 31) == All(high, low) / HALF <= 1
  {
    WordPowers();
    ShlOr(high, Shr(low, 31));
    ShlOr(low, bit);
    var top := low / 0x8000_0000;
    assert Shr(low, 31) == top && top <= 1;
    assert Or(Shl(low, 1), bit) == 2 * low + bit - top * W32;
    var over := high / 0x8000_0000;
    assert Or(Shl(high, 1), top) == 2 * high + top - over * W32;
    DivModUnique(2 * All(high, low) + bit, W64, over, 2 * All(high, low) + bit - over * W64);
  }

  lemma ShlOr(x: nat, bit: nat)
    requires x < W32 && bit <= 1
    ensures Or(Shl(x, 1), bit) == 2 * x + bit - (x / 0x8000_0000) * W32
  {
    assert Pow2(1) == 2;
    var over := x / 0x8000_0000;
    var y := 2 * x - over * W32;
    assert x == 0x8000_0000 * over + x % 0x8000_0000;
    DivModUnique(2 * x, W32, over, y);
    DivModUnique(y, 2, x - over * 0x8000_0000, 0);
    OrDisjoint(y, bit, 1);
  }

  // ---------------------------------------------------------------- the shift-subtract loop

  /** sr bits of the dividend n are still to come, at the top of q. The quotient so far is
      2k + carry, k being the low end of q. A divisor of 2^63 or more meets the loop only once. */
  ghost predicate Dividing(n: nat, d: nat, sr: nat, q: nat, r: nat, carry: nat, k: nat) {
    && sr <= 63 && carry <= 1 && r < d < W64 && n < W64
    && q == Times(n % Pow2(sr), Pow2(64 - sr)) + k && k < Pow2(64 - sr)
    && Times(2 * k + carry, d) + r == n / Pow2(sr)
    && (d > HALF && sr > 0 ==> sr == 1 && n >= HALF && 2 * k + carry == 0)
  }

  /** The branch-free comparison: the sign of d - r - 1 tells whether r >= d. */
  function Mask(d: nat, r: nat): nat
    requires r < W64
  {
    if (d + W64 - r - 1) % W64 >= HALF then W64 - 1 else 0
  }

  lemma MaskIsComparison(d: nat, r: nat)
    requires d < W64 && r < W64 && r < 2 * d && (d > HALF ==> r >= HALF)
    ensures Mask(d, r) == if r >= d then W64 - 1 else 0
    ensures And(Mask(d, r), 1) == if r >= d then 1 else 0
    ensures And(d, Mask(d, r)) == if r >= d then d else 0
  {
    if r >= d {
      DivModUnique(d + W64 - r - 1, W64, 0, d + W64 - r - 1);
    } else {
      DivModUnique(d + W64 - r - 1, W64, 1, d - r - 1);
    }
    WordPowers();
    AndOnes(d, 64);
    AndOnes(1, 64);
    AndSwap(W64 - 1, 1);
  }

  /** The next bit of n, and what is left after it. */
  lemma NextBit(n: nat, sr: nat, q: nat, k: nat, carry: nat) returns (b: nat)
    requires 1 <= sr <= 63 && n < W64 && carry <= 1
    requires q == Times(n % Pow2(sr), Pow2(64 - sr)) + k && k < Pow2(64 - sr)
    ensures b <= 1 && q < W64 && b == q / HALF
    ensures n / Pow2(sr - 1) == 2 * (n / Pow2(sr)) + b
    ensures 2 * k + carry < Pow2(65 - sr)
    ensures (2 * q + carry) % W64 == Times(n % Pow2(sr - 1), Pow2(65 - sr)) + 2 * k + carry
  {
    var p, m := Pow2(sr - 1), Pow2(64 - sr);
    assert Pow2(sr) == 2 * p && Pow2(65 - sr) == 2 * m;
    Pow2Add(sr - 1, 64 - sr);
    WordPowers();
    b := NextBitOf(n, p, m, q, k, carry);
  }

  lemma NextBitOf(n: nat, p: nat, m: nat, q: nat, k: nat, carry: nat) returns (b: nat)
    requires p >= 1 && p * m == HALF && carry <= 1 && k < m
    requires var x := n % (2 * p); x >= 0 && q == Times(x, m) + k
    ensures b <= 1 && q < W64 && b == q / HALF
    ensures n / p == 2 * (n / (2 * p)) + b
    ensures var x := n % p; x >= 0 && (2 * q + carry) % W64 == Times(x, 2 * m) + 2 * k + carry
  {
    b := PeelBit(n, p);
    var rest := n % p;
    BitAtTop(n % (2 * p), b, rest, p, m, k, q);
    RestFits(rest, p, m, k, carry);
    TopBit(q, b, Times(rest, m), k, carry);
    assert Times(rest, 2 * m) == 2 * Times(rest, m);
  }

  lemma TopBit(q: nat, b: nat, t: nat, k: nat, carry: nat)
    requires q == b * HALF + (t + k) && b <= 1 && t + k < HALF && 2 * t + 2 * k + carry < W64
    ensures q < W64 && q / HALF == b && (2 * q + carry) % W64 == 2 * t + 2 * k + carry
  {
    DivModUnique(q, HALF, b, t + k);
    DivModUnique(2 * q + carry, W64, b, 2 * t + 2 * k + carry);
  }

  lemma PeelBit(n: nat, p: nat) returns (b: nat)
    requires p >= 1
    ensures b <= 1 && n % (2 * p) == b * p + n % p && n / p == 2 * (n / (2 * p)) + b
  {
    var q := n / p;
    b := q % 2;
    assert n == q * p + n % p;
    assert (2 * (q / 2) + b) * p == (q / 2) * (2 * p) + b * p;
    MulMono(b, 1, p);
    DivModUnique(n, 2 * p, q / 2, b * p + n % p);
  }

  lemma BitAtTop(x: nat, b: nat, rest: nat, p: nat, m: nat, k: nat, q: nat)
    requires p * m == HALF && x == b * p + rest && q == Times(x, m) + k
    ensures q == b * HALF + (Times(rest, m) + k)
  {
    assert (b * p + rest) * m == b * (p * m) + rest * m;
  }

  lemma RestFits(rest: nat, p: nat, m: nat, k: nat, carry: nat)
    requires rest < p && p * m == HALF && k < m && carry <= 1
    ensures Times(rest, m) + k < HALF && 2 * Times(rest, m) + 2 * k + carry < W64
  {
    MulMono(rest, p - 1, m);
    assert (p - 1) * m == p * m - m;
  }

  /** One round: after shifting in the next bit the remainder fits 64 bits, is below 2d, and is on
      the right side of 2^63 for the comparison; subtracting keeps the invariant. */
  lemma DivideRound(n: nat, d: nat, sr: nat, q: nat, r: nat, carry: nat, k: nat)
    requires Dividing(n, d, sr, q, r, carry, k) && sr > 0
    ensures q < W64 && q / HALF <= 1
    ensures var s := 2 * r + q / HALF;
            && s < W64 && s < 2 * d && (d > HALF ==> s >= HALF)
            && var c := if s >= d then 1 else 0;
            Dividing(n, d, sr - 1, (2 * q + carry) % W64, s - (if s >= d then d else 0), c, 2 * k + carry)
  {
    var b := NextBit(n, sr, q, k, carry);
    var s := 2 * r + b;
    var c := if s >= d then 1 else 0;
    var quo := 2 * k + carry;
    WordPowers();
    QuotientStep(quo, d, r, b, c, s, n / Pow2(sr), n / Pow2(sr - 1));
    DivLess(n, Pow2(sr - 1));
    if d > HALF {
      assert Pow2(0) == 1 && Times(0, d) == 0;
      assert n / Pow2(sr - 1) == n;
    }
  }

  lemma RoundBounds(n: nat, d: nat, sr: nat, q: nat, r: nat, carry: nat, k: nat)
    requires Dividing(n, d, sr, q, r, carry, k) && sr > 0
    ensures var s := (2 * r + q / HALF) % W64; s < 2 * d && (d > HALF ==> s >= HALF)
  {
    DivideRound(n, d, sr, q, r, carry, k);
    DivModUnique(2 * r + q / HALF, W64, 0, 2 * r + q / HALF);
  }

  lemma RoundKeeps(n: nat, d: nat, sr: nat, q: nat, r: nat, carry: nat, k: nat, q1: nat, s: nat, r1: nat, c: nat)
    requires Dividing(n, d, sr, q, r, carry, k) && sr > 0
    requires s == (2 * r + q / HALF) % W64 && q1 == (2 * q + carry) % W64
    requires c == (if s >= d then 1 else 0) && r1 == s - if s >= d then d else 0
    ensures Dividing(n, d, sr - 1, q1, r1, c, 2 * k + carry)
  {
    DivideRound(n, d, sr, q, r, carry, k);
    DivModUnique(2 * r + q / HALF, W64, 0, 2 * r + q / HALF);
  }

  lemma QuotientStep(quo: nat, d: nat, r: nat, b: nat, c: nat, s: nat, high: int, next: int)
    requires Times(quo, d) + r == high && next == 2 * high + b && s == 2 * r + b && c <= 1
    ensures Times(2 * quo + c, d) + s - (if c == 1 then d else 0) == next
    ensures s <= next && (quo == 0 ==> s == next)
  {
    assert (2 * quo + c) * d == 2 * (quo * d) + (if c == 1 then d else 0);
    MulMono(0, quo, d);
  }

  lemma DivLess(n: nat, m: nat)
    requires m >= 1
    ensures n / m <= n
  {
    assert n == m * (n / m) + n % m;
    DivNonNeg(n, m);
    MulMono(1, m, n / m);
  }

  /** r:q = (r:q << 1) | carry. */
  method ShiftLeft(rh0: nat, rl0: nat, qh0: nat, ql0: nat, carry: nat)
    returns (rh: nat, rl: nat, qh: nat, ql: nat)
    requires qh0 < W32 && ql0 < W32 && rh0 < W32 && rl0 < W32 && carry <= 1
    ensures qh < W32 && ql < W32 && rh < W32 && rl < W32
    ensures All(rh, rl) == (2 * All(rh0, rl0) + All(qh0, ql0) / HALF) % W64
    ensures All(qh, ql) == (2 * All(qh0, ql0) + carry) % W64
  {
    ShiftIn(qh0, ql0, carry);
    ShiftIn(rh0, rl0, Shr(qh0, 31));
    rh, rl := Or(Shl(rh0, 1), Shr(rl0, 31)), Or(Shl(rl0, 1), Shr(qh0, 31));
    qh, ql := Or(Shl(qh0, 1), Shr(ql0, 31)), Or(Shl(ql0, 1), carry);
  }

  /** The branch-free conditional subtraction. */
  method SubtractIfFits(d: nat, rh0: nat, rl0: nat) returns (rh: nat, rl: nat, carry: nat)
    requires rh0 < W32 && rl0 < W32 && d < W64 && All(rh0, rl0) < 2 * d && (d > HALF ==> All(rh0, rl0) >= HALF)
    ensures rh < W32 && rl < W32
    ensures carry == if All(rh0, rl0) >= d then 1 else 0
    ensures All(rh, rl) == All(rh0, rl0) - if All(rh0, rl0) >= d then d else 0
  {
    MaskIsComparison(d, All(rh0, rl0));
    var s := Mask(d, All(rh0, rl0));
    carry := And(s, 1);
    var r := (All(rh0, rl0) + W64 - And(d, s)) % W64;
    rh, rl := r / W32, r % W32;
  }

  method Round(ghost n: nat, d: nat, ghost sr: nat, rh0: nat, rl0: nat, qh0: nat, ql0: nat, carry0: nat, ghost k: nat)
    returns (rh: nat, rl: nat, qh: nat, ql: nat, carry: nat)
    requires qh0 < W32 && ql0 < W32 && rh0 < W32 && rl0 < W32 && sr > 0
    requires Dividing(n, d, sr, All(qh0, ql0), All(rh0, rl0), carry0, k)
    ensures qh < W32 && ql < W32 && rh < W32 && rl < W32
    ensures Dividing(n, d, sr - 1, All(qh, ql), All(rh, rl), carry, 2 * k + carry0)
  {
    ghost var q0, r0 := All(qh0, ql0), All(rh0, rl0);
    RoundBounds(n, d, sr, q0, r0, carry0, k);
    rh, rl, qh, ql := ShiftLeft(rh0, rl0, qh0, ql0, carry0);
    ghost var s := All(rh, rl);
    rh, rl, carry := SubtractIfFits(d, rh, rl);
    RoundKeeps(n, d, sr, q0, r0, carry0, k, All(qh, ql), s, All(rh, rl), carry);
  }

  method ShiftSubtract(ghost n: nat, dh: nat, dl: nat, qh0: nat, ql0: nat, rh0: nat, rl0: nat, sr0: nat)
    returns (q: nat, r: nat)
    requires dh < W32 && dl < W32 && qh0 < W32 && ql0 < W32 && rh0 < W32 && rl0 < W32
    requires Dividing(n, All(dh, dl), sr0, All(qh0, ql0), All(rh0, rl0), 0, 0)
    ensures n == Times(q, All(dh, dl)) + r && r < All(dh, dl)
  {
    var d := All(dh, dl);
    var qh: nat, ql: nat, rh: nat, rl: nat := qh0, ql0, rh0, rl0;
    var sr: nat, carry: nat := sr0, 0;
    ghost var k: nat := 0;
    while sr > 0
      invariant qh < W32 && ql < W32 && rh < W32 && rl < W32
      invariant Dividing(n, d, sr, All(qh, ql), All(rh, rl), carry, k)
    {
      ghost var quo := 2 * k + carry;
      rh, rl, qh, ql, carry := Round(n, d, sr, rh, rl, qh, ql, carry, k);
      k, sr := quo, sr - 1;
    }
    LastRound(n, d, All(qh, ql), All(rh, rl), carry, k);
    q := (2 * All(qh, ql) + carry) % W64;
    r := All(rh, rl);
  }

  lemma LastRound(n: nat, d: nat, q: nat, r: nat, carry: nat, k: nat)
    requires Dividing(n, d, 0, q, r, carry, k)
    ensures n == Times((2 * q + carry) % W64, d) + r
  {
    assert Pow2(0) == 1 && n % 1 == 0 && n / 1 == n;
    assert Times(0, Pow2(64)) == 0;
    LastQuotient(2 * k + carry, d, r, n);
  }

  lemma LastQuotient(quo: nat, d: nat, r: nat, n: nat)
    requires Times(quo, d) + r == n && d >= 1 && n < W64
    ensures quo < W64 && quo % W64 == quo
  {
    MulMono(1, d, quo);
  }

  // ---------------------------------------------------------------- choosing the shift

  /** q and r are quotient and remainder of a by b. */
  predicate IsDivision(a: nat, b: nat, q: nat, r: nat) {
    a == Times(q, b) + r && r < b
  }

  lemma DivisionUnique(a: nat, b: nat, q: nat, r: nat)
    requires IsDivision(a, b, q, r)
    ensures q == a / b && r == a % b
  {
    DivModUnique(a, b, q, r);
  }

  /** When d has fewer leading zeros than n, it is larger. */
  lemma FewerZeros(n: nat, d: nat, cn: nat, cd: nat)
    requires IsClz(n, 64, cn) && IsClz(d, 64, cd) && cd < cn
    ensures n < d
  {
    Pow2Monotone(64 - cn, 63 - cd);
  }

  /** Otherwise one more than the difference is the number of quotient bits. */
  lemma QuotientBits(n: nat, d: nat, cn: nat, cd: nat)
    requires IsClz(n, 64, cn) && IsClz(d, 64, cd) && cn <= cd
    ensures n / Pow2(cd - cn + 1) < d
    ensures d > HALF ==> cd == 0 && cn == 0 && n >= HALF
  {
    WordPowers();
    Pow2Add(cd - cn + 1, 63 - cd);
    DivSmaller(n, Pow2(cd - cn + 1), Pow2(63 - cd));
    if cd > 0 { Pow2Monotone(64 - cd, 63); }
  }

  lemma ReadyToDivide(n: nat, d: nat, cn: nat, cd: nat, sr: nat, q: nat, r: nat)
    requires IsClz(n, 64, cn) && IsClz(d, 64, cd) && cn <= cd && sr == cd - cn + 1
    requires Shifted(n, sr, q, r) && n < W64 && d < W64
    ensures Dividing(n, d, sr, q, r, 0, 0)
  {
    QuotientBits(n, d, cn, cd);
    assert Times(0, d) == 0;
  }

  /** The set-up for a shift by sr bits, then the loop. */
  method DivideByShifts(nh: nat, nl: nat, dh: nat, dl: nat, sr: nat, ghost cn: nat, ghost cd: nat)
      returns (q: nat, r: nat)
    requires 0 < nh < W32 && nl < W32 && dh < W32 && dl < W32 && sr <= 63
    requires IsClz(All(nh, nl), 64, cn) && IsClz(All(dh, dl), 64, cd) && cn <= cd && sr == cd - cn + 1
    ensures IsDivision(All(nh, nl), All(dh, dl), q, r)
  {
    var qh, ql, rh, rl := ShiftApart(nh, nl, sr);
    ReadyToDivide(All(nh, nl), All(dh, dl), cn, cd, sr, All(qh, ql), All(rh, rl));
    q, r := ShiftSubtract(All(nh, nl), dh, dl, qh, ql, rh, rl, sr);
  }

  // ---------------------------------------------------------------- special cases

  lemma HighOnly(nh: nat, dh: nat, nl: nat, q: nat, rh: nat)
    requires dh > 0 && nl < W32 && IsDivision(nh, dh, q, rh)
    ensures IsDivision(All(nh, nl), All(dh, 0), q, All(rh, nl))
  {
    assert (q * dh + rh) * W32 == q * (dh * W32) + rh * W32;
  }

  lemma ByDivMod(a: nat, b: nat)
    requires b > 0
    ensures a / b >= 0 && a % b >= 0 && IsDivision(a, b, a / b, a % b)
  {
    DivNonNeg(a, b);
    assert a == b * (a / b) + a % b;
  }

  /** d & (d - 1) == 0: dividing by d is a shift, and the remainder a mask. */
  lemma PowerDivides(d: nat, c: nat)
    requires 0 < d < W32 && And(d, d - 1) == 0 && IsCtz(d, c)
    ensures d == Pow2(c) && c < 32
    ensures forall x: nat {:trigger And(x, d - 1)} :: And(x, d - 1) == x % d
  {
    PowerTest(d);
    var k: nat :| d == Pow2(k);
    CtzOfPower(k, c);
    WordPowers();
    if c >= 32 { Pow2Monotone(32, c); }
    forall x: nat ensures And(x, d - 1) == x % d { AndLow(x, c); }
  }

  lemma CtzOfPower(k: nat, c: nat)
    requires IsCtz(Pow2(k), c)
    ensures c == k
  {
    PowerQuotient(k, c);
  }

  lemma PowerQuotient(k: nat, c: nat)
    ensures c < k ==> (Pow2(k) / Pow2(c)) % 2 == 0
    ensures c > k ==> Pow2(k) % Pow2(c) != 0
  {
    if c < k {
      Pow2Add(k - c, c);
      EvenQuotient(Pow2(k - c - 1), Pow2(c));
    } else if c > k {
      Pow2Monotone(k + 1, c);
      DivModUnique(Pow2(k), Pow2(c), 0, Pow2(k));
    }
  }

  lemma EvenQuotient(h: nat, m: nat)
    requires m >= 1
    ensures (((2 * h) * m) / m) % 2 == 0
  {
    MulMod(2 * h, m);
  }

  /** A high-word divisor, 2^32 times a power of two. */
  method DivideByHighPower(nh: nat, nl: nat, dh: nat) returns (q: nat, r: nat)
    requires nh < W32 && nl < W32 && 0 < dh < W32 && And(dh, dh - 1) == 0
    ensures IsDivision(All(nh, nl), All(dh, 0), q, r)
  {
    var c := CtzSI2(dh);
    PowerDivides(dh, c);
    ByDivMod(nh, dh);
    q := Shr(nh, c);
    r := All(And(nh, dh - 1), nl);
    HighOnly(nh, dh, nl, nh / dh, nh % dh);
  }

  /** A low-word divisor that is a power of two. */
  method DivideByLowPower(nh: nat, nl: nat, dl: nat) returns (q: nat, r: nat)
    requires nh < W32 && nl < W32 && 0 < dl < W32 && And(dl, dl - 1) == 0
    ensures IsDivision(All(nh, nl), dl, q, r)
  {
    r := And(nl, dl - 1);
    if dl == 1 {
      q := All(nh, nl);
    } else {
      var sr := CtzSI2(dl);
      PowerDivides(dl, sr);
      assert Pow2(0) == 1;
      JoinShift(nh, nl, sr);
      WithinWord(nh, nl, sr);
      var qh, ql := Shr(nh, sr), Or(Shl(nh, 32 - sr), Shr(nl, sr));
      q := All(qh, ql);
      LowRemainder(nh, nl, sr);
      ByDivMod(All(nh, nl), dl);
    }
  }

  lemma LowRemainder(high: nat, low: nat, s: nat)
    requires 1 <= s <= 31
    ensures All(high, low) % Pow2(s) == low % Pow2(s)
  {
    WordPowers();
    Pow2Add(s, 32 - s);
    DivNonNeg(high, Pow2(s));
    DivNonNeg(low, Pow2(s));
    var p := Pow2(s);
    WithinWordSum(high, low, p, Pow2(32 - s), high / p, high % p, low / p, low % p);
  }

  /** __udivmoddi4: exact quotient and remainder of every 64-bit a by every b > 0. */
  method UDivModDI4(a: nat, b: nat) returns (q: nat, r: nat)
    requires a < W64 && 0 < b < W64
    ensures IsDivision(a, b, q, r)
  {
    var nh, nl, dh, dl := a / W32, a % W32, b / W32, b % W32;
    if nh == 0 {
      if dh == 0 {
        ByDivMod(nl, dl);
        q, r := nl / dl, nl % dl;
      } else {
        assert Times(0, b) == 0;
        q, r := 0, nl;
      }
    } else if dl == 0 {
      if nl == 0 {
        ByDivMod(nh, dh);
        HighOnly(nh, dh, 0, nh / dh, nh % dh);
        q, r := nh / dh, All(nh % dh, 0);
      } else if And(dh, dh - 1) == 0 {
        q, r := DivideByHighPower(nh, nl, dh);
      } else {
        q, r := DivideHighDivisor(nh, nl, dh, dl);
      }
    } else if dh == 0 {
      if And(dl, dl - 1) == 0 {
        q, r := DivideByLowPower(nh, nl, dl);
      } else {
        q, r := DivideLowDivisor(nh, nl, dl);
      }
    } else {
      q, r := DivideHighDivisor(nh, nl, dh, dl);
    }
  }

  /** sr = clz(d.high) - clz(n.high), an unsigned difference: a negative one is large, and then the
      quotient is zero. */
  method DivideHighDivisor(nh: nat, nl: nat, dh: nat, dl: nat) returns (q: nat, r: nat)
    requires 0 < nh < W32 && nl < W32 && 0 < dh < W32 && dl < W32
    requires dl == 0 ==> And(dh, dh - 1) != 0
    ensures IsDivision(All(nh, nl), All(dh, dl), q, r)
  {
    var cd := ClzSI2(dh);
    var cn := ClzSI2(nh);
    ClzHigh(nh, nl, cn);
    ClzHigh(dh, dl, cd);
    NotPower(dh, cd);
    UnsignedDifference(cd, cn);
    var sr := (cd - cn) % W32;
    if sr > (if dl == 0 then 30 else 31) {
      FewerZeros(All(nh, nl), All(dh, dl), cn, cd);
      assert Times(0, All(dh, dl)) == 0;
      q, r := 0, All(nh, nl);
    } else {
      q, r := DivideByShifts(nh, nl, dh, dl, sr + 1, cn, cd);
    }
  }

  lemma UnsignedDifference(x: nat, y: nat)
    requires x < 32 && y < 32
    ensures (x - y) % W32 == if x >= y then x - y else W32 + x - y
  {
    DivModUnique(x - y, W32, if x >= y then 0 else -1, if x >= y then x - y else W32 + x - y);
  }

  /** A word that is not a power of two is at least 3. */
  lemma NotPower(d: nat, c: nat)
    requires 0 < d < W32 && IsClz(d, 32, c)
    ensures And(d, d - 1) != 0 ==> c <= 30
  {
    assert Pow2(0) == 1 && Pow2(1) == 2;
    assert And(1, 0) == 0;
  }

  /** sr = 1 + 32 + clz(d.low) - clz(n.high), d.low not a power of two. */
  method DivideLowDivisor(nh: nat, nl: nat, dl: nat) returns (q: nat, r: nat)
    requires 0 < nh < W32 && nl < W32 && 0 < dl < W32 && And(dl, dl - 1) != 0
    ensures IsDivision(All(nh, nl), dl, q, r)
  {
    var cd := ClzSI2(dl);
    var cn := ClzSI2(nh);
    ClzHigh(nh, nl, cn);
    ClzHigh(0, dl, cd);
    NotPower(dl, cd);
    q, r := DivideByShifts(nh, nl, 0, dl, 1 + 32 + cd - cn, cn, cd + 32);
  }

  /** __udivdi3 and __umoddi3 are the two halves of the result. */
  method UDivDI3(a: nat, b: nat) returns (q: nat)
    requires a < W64 && 0 < b < W64
    ensures q == a / b
  {
    var r: nat;
    q, r := UDivModDI4(a, b);
    DivisionUnique(a, b, q, r);
  }

  method UModDI3(a: nat, b: nat) returns (r: nat)
    requires a < W64 && 0 < b < W64
    ensures r == a % b
  {
    var q: nat;
    q, r := UDivModDI4(a, b);
    DivisionUnique(a, b, q, r);
  }

  // ---------------------------------------------------------------- signed division

  predicate IsInt64(x: int) {
    -HALF <= x < HALF
  }

  /** The bit pattern of a signed 64-bit integer, and back. */
  function Pattern(x: int): nat {
    x % W64
  }

  function Signed(p: nat): int {
    if p < HALF then p else p - W64
  }

  /** a >> 63: all ones when a is negative. */
  function SignMask(x: int): nat {
    if x < 0 then W64 - 1 else 0
  }

  /** (p ^ s) - s on patterns. */
  function CondNegate(p: nat, s: nat): nat {
    (Xor(p, s) - s) % W64
  }

  lemma CondNegateIs(p: int, s: nat)
    requires 0 <= p < W64 && (s == 0 || s == W64 - 1)
    ensures CondNegate(p, s) == if s == 0 then p else Pattern(-p)
  {
    WordPowers();
    if s == 0 {
      XorZero(p);
      DivModUnique(p, W64, 0, p);
    } else {
      XorOnes(p, 64);
    }
  }

  function Abs(x: int): nat {
    if x < 0 then -x else x
  }

  lemma Magnitude(x: int)
    requires IsInt64(x)
    ensures CondNegate(Pattern(x), SignMask(x)) == Abs(x)
  {
    CondNegateIs(Pattern(x), SignMask(x));
    if x < 0 {
      DivModUnique(x, W64, -1, x + W64);
      DivModUnique(-(x + W64), W64, -1, -x);
    } else {
      DivModUnique(x, W64, 0, x);
    }
  }

  /** Division of C: towards zero. */
  function Quotient(a: int, b: int): int
    requires b != 0
  {
    ByDivMod(Abs(a), Abs(b));
    if (a < 0) == (b < 0) then Abs(a) / Abs(b) else -(Abs(a) / Abs(b))
  }

  /** What is left has the sign of the dividend and is smaller than the divisor. */
  function Remainder(a: int, b: int): int
    requires b != 0
  {
    ByDivMod(Abs(a), Abs(b));
    if a < 0 then -(Abs(a) % Abs(b)) else Abs(a) % Abs(b)
  }

  lemma QuotientRemainder(a: int, b: int)
    requires b != 0
    ensures a == Quotient(a, b) * b + Remainder(a, b)
    ensures Abs(Remainder(a, b)) < Abs(b) && (Remainder(a, b) < 0 ==> a < 0) && (Remainder(a, b) > 0 ==> a > 0)
  {
    ByDivMod(Abs(a), Abs(b));
    SignsMultiply(Abs(a) / Abs(b), Abs(b));
  }

  lemma SignsMultiply(q: int, b: int)
    ensures -q * b == -(q * b) && q * -b == -(q * b) && -q * -b == q * b
  {
  }

  /** The only quotient that does not fit is MIN / -1. */
  lemma QuotientFits(a: int, b: int)
    requires IsInt64(a) && IsInt64(b) && b != 0
    ensures IsInt64(Quotient(a, b)) <==> !(a == -HALF && b == -1)
    ensures Abs(Quotient(a, b)) <= HALF && IsInt64(Remainder(a, b))
  {
    ByDivMod(Abs(a), Abs(b));
    var q := Abs(a) / Abs(b);
    MulMono(1, Abs(b), q);
    if Abs(b) >= 2 { MulMono(2, Abs(b), q); }
  }

  lemma SignedPattern(x: int)
    requires IsInt64(x)
    ensures Signed(Pattern(x)) == x
  {
    DivModUnique(x, W64, if x < 0 then -1 else 0, if x < 0 then x + W64 else x);
  }

  /** The sign mask of the quotient is the exclusive or of the two. */
  lemma XorMasks(a: int, b: int)
    ensures Xor(SignMask(a), SignMask(b)) == if (a < 0) == (b < 0) then 0 else W64 - 1
  {
    WordPowers();
    XorZero(SignMask(a));
    XorOnes(SignMask(a), 64);
    XorZero(0);
    XorZeroLeft(SignMask(b));
  }

  lemma {:induction false} XorZeroLeft(a: nat)
    ensures Xor(0, a) == a
  {
    if a > 0 { XorZeroLeft(a / 2); }
  }

  /** __divdi3: the quotient towards zero, wrapped in the one case where it does not fit. */
  method DivDI3(a: int, b: int) returns (q: int)
    requires IsInt64(a) && IsInt64(b) && b != 0
    ensures !(a == -HALF && b == -1) ==> q == Quotient(a, b)
    ensures a == -HALF && b == -1 ==> q == -HALF
  {
    var sa, sb := SignMask(a), SignMask(b);
    Magnitude(a);
    Magnitude(b);
    var u := CondNegate(Pattern(a), sa);
    var v := CondNegate(Pattern(b), sb);
    XorMasks(a, b);
    sa := Xor(sa, sb);
    var uq, ur := UDivModDI4(u, v);
    DivisionUnique(u, v, uq, ur);
    QuotientFits(a, b);
    SignedResult(uq, sa);
    q := Signed(CondNegate(uq, sa));
  }

  lemma SignedResult(p: int, s: nat)
    requires 0 <= p <= HALF && (s == 0 || s == W64 - 1)
    ensures Signed(CondNegate(p, s)) == if s != 0 then -p else if p == HALF then -HALF else p
  {
    CondNegateIs(p, s);
    if s != 0 { SignedPattern(-p); }
  }

  /** __moddi3. */
  method ModDI3(a: int, b: int) returns (r: int)
    requires IsInt64(a) && IsInt64(b) && b != 0
    ensures r == Remainder(a, b)
  {
    var s := SignMask(b);
    Magnitude(a);
    Magnitude(b);
    var v := CondNegate(Pattern(b), s);
    s := SignMask(a);
    var u := CondNegate(Pattern(a), s);
    var uq, ur := UDivModDI4(u, v);
    DivisionUnique(u, v, uq, ur);
    QuotientFits(a, b);
    SignedResult(ur, s);
    r := Signed(CondNegate(ur, s));
  }

  /** __divmoddi4 computes the remainder as a - d * b and agrees with __moddi3 on every b != 0. */
  method DivModDI4(a: int, b: int) returns (d: int, rem: int)
    requires IsInt64(a) && IsInt64(b) && b != 0
    ensures !(a == -HALF && b == -1) ==> d == Quotient(a, b)
    ensures rem == Remainder(a, b)
  {
    d := DivDI3(a, b);
    QuotientRemainder(a, b);
    QuotientFits(a, b);
    rem := Signed(Pattern(a - d * b));
    if a == -HALF && b == -1 {
      assert d * b == HALF;
      DivModUnique(a - d * b, W64, -1, 0);
      DivModUnique(HALF, 1, HALF, 0);
    } else {
      SignedPattern(Remainder(a, b));
    }
  }
}
