/** Machine words as natural numbers: powers of two and the bit operations of C,
    defined bit by bit. */
module Words {

  /** A pointer that may be NULL, or any result that may be absent. */
  datatype Option<+T> = None | Some(value: T)

  function Max(a: int, b: int): int {
    if a > b then a else b
  }

  function Times(a: nat, b: nat): nat {
    a * b
  }

  function Pow2(n: nat): (r: nat)
    ensures r >= 1
  {
    if n == 0 then 1 else 2 * Pow2(n - 1)
  }

  lemma {:induction false} Pow2Add(a: nat, b: nat)
    ensures Pow2(a + b) == Pow2(a) * Pow2(b)
  {
    if a == 0 {
    } else {
      Pow2Add(a - 1, b);
      assert 2 * (Pow2(a - 1) * Pow2(b)) == (2 * Pow2(a - 1)) * Pow2(b);
    }
  }

  lemma {:induction false} Pow2Monotone(a: nat, b: nat)
    requires a <= b
    ensures Pow2(a) <= Pow2(b)
  {
    if a < b {
      Pow2Monotone(a, b - 1);
    }
  }

  lemma Pow2Strict(a: nat, b: nat)
    requires a < b
    ensures 2 * Pow2(a) <= Pow2(b)
  {
    Pow2Monotone(a + 1, b);
  }

  /** The first k from lo on with size <= 2^k, or limit: how both layers pick a size class. */
  function FirstFit(size: nat, lo: nat, limit: nat): (k: nat)
    requires lo <= limit
    ensures lo <= k <= limit
    decreases limit - lo
  {
    if lo == limit || size <= Pow2(lo) then lo else FirstFit(size, lo + 1, limit)
  }

  /** It is the smallest class with room, and no class has room when it is limit. */
  lemma {:induction false} FirstFitSmallest(size: nat, lo: nat, limit: nat)
    requires lo <= limit
    ensures FirstFit(size, lo, limit) < limit ==> size <= Pow2(FirstFit(size, lo, limit))
    ensures forall l: nat :: lo <= l < FirstFit(size, lo, limit) ==> size > Pow2(l)
    decreases limit - lo
  {
    if lo < limit && size > Pow2(lo) {
      FirstFitSmallest(size, lo + 1, limit);
    }
  }

  lemma Pow2Constants()
    ensures Pow2(12) == 4096 && Pow2(13) == 8192 && Pow2(24) == 0x100_0000
  {
    assert Pow2(6) == 64;
    Pow2Add(6, 6);
    Pow2Add(12, 12);
  }

  /** The value of p rounded down to a multiple of 2^k: `p & ~((1 << k) - 1)`. */
  function AlignDown(p: nat, k: nat): (r: nat)
    ensures r <= p && r % Pow2(k) == 0 && p - r < Pow2(k)
  {
    DivModMul(p, Pow2(k));
    p - p % Pow2(k)
  }

  predicate Aligned(p: nat, k: nat) {
    p % Pow2(k) == 0
  }

  lemma DivModMul(p: nat, m: nat)
    requires m >= 1
    ensures p - p % m >= 0
    ensures (p - p % m) % m == 0
    ensures p - p % m == (p / m) * m
  {
    var q := p / m;
    assert p == m * q + p % m;
    MulMod(q, m);
  }

  lemma {:induction false} MulMod(q: nat, m: nat)
    requires m >= 1
    ensures (q * m) % m == 0 && (q * m) / m == q
  {
    DivModUnique(q * m, m, q, 0);
  }

  /** Quotient and remainder are unique. */
  lemma DivModUnique(a: int, m: int, q: int, r: int)
    requires m >= 1 && 0 <= r < m && a == q * m + r
    ensures a / m == q && a % m == r
  {
    var q', r' := a / m, a % m;
    assert a == q' * m + r';
    assert (q - q') * m == r' - r;
    if q > q' {
      MulMono(1, q - q', m);
    } else if q < q' {
      MulMono(q - q', -1, m);
    }
  }

  /** An even number added does not change whether a number is odd. */
  lemma TwiceAnd(x: nat, z: nat)
    ensures (2 * x + z) % 2 == z % 2
  {
  }

  lemma MulMono(a: int, b: int, m: int)
    requires a <= b && m >= 0
    ensures a * m <= b * m
  {
    assert (b - a) * m >= 0;
  }

  /** A multiple of 2^k is a multiple of every smaller power. */
  lemma AlignedWeaken(p: nat, k: nat, l: nat)
    requires Aligned(p, k) && l <= k
    ensures Aligned(p, l)
  {
    var q := p / Pow2(k);
    Pow2Add(k - l, l);
    assert p == q * Pow2(k);
    assert q * (Pow2(k - l) * Pow2(l)) == (q * Pow2(k - l)) * Pow2(l);
    MulMod(q * Pow2(k - l), Pow2(l));
  }

  lemma AlignedAdd(p: nat, q: nat, k: nat)
    requires Aligned(p, k) && Aligned(q, k)
    ensures Aligned(p + q, k)
  {
    var m := Pow2(k);
    assert p + q == (p / m) * m + (q / m) * m;
    assert (p / m) * m + (q / m) * m == (p / m + q / m) * m;
    MulMod(p / m + q / m, m);
  }
}
