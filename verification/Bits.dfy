/** Unsigned bit operations of the C source on naturals, digit by digit, and the arithmetic they stand for. */
module Bits {

  function Pow2(k: nat): (p: nat)
    ensures p > 0
  {
    if k == 0 then 1 else 2 * Pow2(k - 1)
  }

  /** `x & y`, one binary digit at a time. */
  function BitAnd(x: nat, y: nat): (z: nat)
    ensures z <= y
  {
    if x == 0 || y == 0 then 0 else (x % 2) * (y % 2) + 2 * BitAnd(x / 2, y / 2)
  }

  /** `x ^ y`, one binary digit at a time. */
  function BitXor(x: nat, y: nat): nat {
    if x == 0 && y == 0 then 0 else (if x % 2 != y % 2 then 1 else 0) + 2 * BitXor(x / 2, y / 2)
  }

  /** `x >> k`. */
  function Shr(x: nat, k: nat): nat {
    if k == 0 then x else Shr(x / 2, k - 1)
  }

  lemma MulApart(k: int, d: nat)
    ensures k >= 1 ==> k * d >= d
    ensures k <= -1 ==> k * d + d <= 0
  {
    if k >= 1 {
      assert (k - 1) * d >= 0;
    } else if k <= -1 {
      assert (-1 - k) * d >= 0;
    }
  }

  lemma DivModUnique(a: nat, d: nat, q: nat, r: nat)
    requires d > 0 && a == q * d + r && r < d
    ensures a / d == q && a % d == r
  {
    var k: int := a / d - q;
    assert a == (a / d) * d + a % d;
    assert k * d == (a / d) * d - q * d;
    MulApart(k, d);
  }

  lemma DoubleMul(q: nat, p: nat)
    ensures q * (2 * p) == 2 * (q * p)
    ensures (2 * q) * p == 2 * (q * p)
    ensures (2 * q + 1) * p == 2 * (q * p) + p
  {
  }

  /** Division and remainder by 2p, from those of x / 2 by p. */
  lemma HalfStep(x: nat, p: nat)
    requires p > 0
    ensures x / (2 * p) == (x / 2) / p && x % (2 * p) == x % 2 + 2 * ((x / 2) % p)
  {
    var q, r := (x / 2) / p, (x / 2) % p;
    assert x / 2 == q * p + r;
    DoubleMul(q, p);
    DivModUnique(x, 2 * p, q, 2 * r + x % 2);
  }

  lemma QuotRem(x: nat, d: nat) returns (q: nat, r: nat)
    requires d > 0
    ensures x == q * d + r && r < d && r == x % d
  {
    q, r := x / d, x % d;
  }

  /** A remainder by 2p is below p or not; either way it gives the one by p. */
  lemma HalfRemainder(x: nat, p: nat, d: nat, q: nat, r: nat)
    requires p > 0 && d == 2 * p && x == q * d + r && r < d
    ensures r < p ==> x == (2 * q) * p + r
    ensures r >= p ==> x == (2 * q + 1) * p + (r - p)
  {
    DoubleMul(q, p);
  }

  /** Remainder by p, from the one by d = 2p. */
  lemma ModOfDouble(x: nat, p: nat, d: nat)
    requires p > 0 && d == 2 * p
    ensures x % d == x % p || x % d == x % p + p
  {
    var q, r := QuotRem(x, d);
    HalfRemainder(x, p, d, q, r);
    if r < p {
      DivModUnique(x, p, 2 * q, r);
    } else {
      DivModUnique(x, p, 2 * q + 1, r - p);
    }
  }

  /** One digit of `&` with a mask of one more digit. */
  lemma AndStep(h: nat, p: nat)
    requires p > 0
    ensures BitAnd(h, 2 * p - 1) == h % 2 + 2 * BitAnd(h / 2, p - 1)
  {
    assert (2 * p - 1) / 2 == p - 1 && (2 * p - 1) % 2 == 1;
  }

  lemma AndZero(h: nat)
    ensures BitAnd(h, 0) == 0
  {
  }

  lemma {:induction false} MaskIsMod(h: nat, k: nat)
    ensures BitAnd(h, Pow2(k) - 1) == h % Pow2(k)
  {
    hide BitAnd;
    if k == 0 {
      AndZero(h);
    } else {
      var p := Pow2(k - 1);
      MaskIsMod(h / 2, k - 1);
      HalfStep(h, p);
      AndStep(h, p);
    }
  }

  lemma {:induction false} ShiftIsDiv(x: nat, k: nat)
    ensures Shr(x, k) == x / Pow2(k)
  {
    if k > 0 {
      ShiftIsDiv(x / 2, k - 1);
      HalfStep(x, Pow2(k - 1));
    }
  }

  /** The bucket index that HASH_TO_BKT computes: `hashv & (num_bkts - 1)`. */
  function Bkt(hashv: nat, numBkts: nat): (b: nat)
    requires numBkts > 0
    ensures b < numBkts
  {
    BitAnd(hashv, numBkts - 1)
  }

  /** In a table of 2^k buckets the index is the remainder of the hash value. */
  lemma BktIsMod(hashv: nat, k: nat)
    ensures Bkt(hashv, Pow2(k)) == hashv % Pow2(k)
  {
    MaskIsMod(hashv, k);
  }

  /** Doubling a power-of-two bucket count sends bucket b to bucket b or to bucket b + count, never elsewhere. */
  lemma BktSplit(hashv: nat, k: nat)
    ensures Bkt(hashv, Pow2(k + 1)) == Bkt(hashv, Pow2(k)) || Bkt(hashv, Pow2(k + 1)) == Bkt(hashv, Pow2(k)) + Pow2(k)
  {
    hide BitAnd;
    MaskIsMod(hashv, k);
    MaskIsMod(hashv, k + 1);
    ModOfDouble(hashv, Pow2(k), Pow2(k + 1));
  }

  /** ideal_chain_maxlen as the source computes it, by shift and mask. */
  function IdealByShift(n: nat, log2: nat): nat {
    Shr(n, log2) + if BitAnd(n, Pow2(log2) - 1) != 0 then 1 else 0
  }

  lemma CeilingBounds(n: nat, b: nat, c: nat)
    requires b > 0 && c == n / b + if n % b != 0 then 1 else 0
    ensures n <= c * b
    ensures n > 0 ==> 0 < c && (c - 1) * b < n
  {
    var q := n / b;
    assert n == q * b + n % b;
    assert (q + 1) * b == q * b + b;
    assert (q - 1) * b == q * b - b;
  }

  /** The shift-and-mask form is the ceiling of n / 2^log2. */
  lemma IdealIsCeiling(n: nat, log2: nat)
    ensures n <= IdealByShift(n, log2) * Pow2(log2)
    ensures n > 0 ==> 0 < IdealByShift(n, log2) && (IdealByShift(n, log2) - 1) * Pow2(log2) < n
  {
    ShiftIsDiv(n, log2);
    MaskIsMod(n, log2);
    CeilingBounds(n, Pow2(log2), IdealByShift(n, log2));
  }
}
