/** Bitwise operations on natural numbers, reduced to arithmetic for the masks that occur. */
module Bits {
  import opened Probing

  function BitAnd(x: nat, y: nat): nat
    decreases x
  {
    if x == 0 then 0 else 2 * BitAnd(x / 2, y / 2) + (x % 2) * (y % 2)
  }

  function BitOr(x: nat, y: nat): nat
    decreases x + y
  {
    if x + y == 0 then 0
    else 2 * BitOr(x / 2, y / 2) + (if x % 2 == 1 || y % 2 == 1 then 1 else 0)
  }

  lemma AndStep(x: nat, y: nat)
    ensures BitAnd(x, y) == 2 * BitAnd(x / 2, y / 2) + (x % 2) * (y % 2)
  {
  }

  lemma OrStep(x: nat, y: nat)
    ensures BitOr(x, y) == 2 * BitOr(x / 2, y / 2) + (if x % 2 == 1 || y % 2 == 1 then 1 else 0)
  {
  }

  lemma {:induction false} AndZero(x: nat)
    ensures BitAnd(x, 0) == 0
  {
    if x > 0 { AndZero(x / 2); }
  }

  lemma {:induction false} OrZero(x: nat)
    ensures BitOr(x, 0) == x
  {
    if x > 0 { OrZero(x / 2); }
  }

  /** `x & (2^k - 1)` is `x % 2^k`: masking with `bucket_count - 1` picks a bucket. */
  lemma {:induction false} MaskIsModulo(x: nat, k: nat)
    ensures BitAnd(x, Pow2(k) - 1) == x % Pow2(k)
    decreases k
  {
    if k == 0 {
      AndZero(x);
    } else {
      hide BitAnd;
      MaskIsModulo(x / 2, k - 1);
      assert (Pow2(k) - 1) / 2 == Pow2(k - 1) - 1 && (Pow2(k) - 1) % 2 == 1;
      AndStep(x, Pow2(k) - 1);
      HalveModulo(x, Pow2(k - 1));
    }
  }

  lemma HalveModulo(x: nat, half: nat)
    requires half > 0
    ensures x % (2 * half) == 2 * ((x / 2) % half) + x % 2
    ensures x / (2 * half) == (x / 2) / half
  {
    var q, r := (x / 2) / half, (x / 2) % half;
    assert x / 2 == q * half + r;
    assert 2 * (q * half) == q * (2 * half);
    RemainderUnique(x, 2 * half, q, 2 * r + x % 2);
    QuotientUnique(x, 2 * half, q, 2 * r + x % 2);
  }

  /** Logical shift right by `k` bits. */
  function Shr(x: nat, k: nat): nat
    decreases k
  {
    if k == 0 then x else Shr(x / 2, k - 1)
  }

  /** Shift left by `k` bits. */
  function Shl(x: nat, k: nat): nat {
    if k == 0 then x else 2 * Shl(x, k - 1)
  }

  /** `k` one bits. */
  function Ones(k: nat): nat {
    if k == 0 then 0 else 2 * Ones(k - 1) + 1
  }

  lemma AndDouble(x: nat, y: nat)
    ensures BitAnd(x, 2 * y) == 2 * BitAnd(x / 2, y)
  {
    hide BitAnd;
    AndStep(x, 2 * y);
    assert (2 * y) / 2 == y && (2 * y) % 2 == 0;
  }

  lemma OrDouble(x: nat, y: nat)
    ensures BitOr(2 * x, y) == 2 * BitOr(x, y / 2) + y % 2
    ensures BitOr(x, 2 * y + 1) == 2 * BitOr(x / 2, y) + 1
  {
    hide BitOr;
    OrStep(2 * x, y);
    OrStep(x, 2 * y + 1);
    assert (2 * x) / 2 == x && (2 * x) % 2 == 0;
    assert (2 * y + 1) / 2 == y && (2 * y + 1) % 2 == 1;
  }

  /** A mask shifted up by `k` bits acts on the bits from position `k`. */
  lemma {:induction false} ShiftedMask(x: nat, c: nat, k: nat)
    ensures BitAnd(x, Shl(c, k)) == Shl(BitAnd(Shr(x, k), c), k)
    decreases k
  {
    hide BitAnd;
    if k > 0 {
      ShiftedMask(x / 2, c, k - 1);
      AndDouble(x, Shl(c, k - 1));
    }
  }

  /** Bits from position `k` and bits below it combine by addition. */
  lemma {:induction false} DisjointOr(a: nat, b: nat, k: nat)
    requires Shr(b, k) == 0
    ensures BitOr(Shl(a, k), b) == Shl(a, k) + b
    decreases k
  {
    hide BitOr;
    if k == 0 {
      OrZero(a);
    } else {
      DisjointOr(a, b / 2, k - 1);
      OrDouble(Shl(a, k - 1), b);
    }
  }

  /** Or-ing with `k` one bits sets the low `k` bits. */
  lemma {:induction false} OrOnes(x: nat, k: nat)
    ensures BitOr(x, Ones(k)) == Shl(Shr(x, k), k) + Ones(k)
    decreases k
  {
    hide BitOr;
    if k == 0 {
      OrZero(x);
    } else {
      OrOnes(x / 2, k - 1);
      OrDouble(x, Ones(k - 1));
    }
  }

  lemma {:induction false} ShrShr(x: nat, s: nat, t: nat)
    ensures Shr(Shr(x, s), t) == Shr(x, s + t)
    decreases s
  {
    if s > 0 { ShrShr(x / 2, s - 1, t); }
  }

  lemma {:induction false} ShlShl(x: nat, s: nat, t: nat)
    ensures Shl(Shl(x, s), t) == Shl(x, s + t)
    decreases t
  {
    if t > 0 { ShlShl(x, s, t - 1); }
  }

  lemma {:induction false} ShrIsDivision(x: nat, s: nat)
    ensures Shr(x, s) == x / Pow2(s)
    decreases s
  {
    if s > 0 {
      ShrIsDivision(x / 2, s - 1);
      HalveModulo(x, Pow2(s - 1));
    }
  }

  /** The bucket that the source computes for a displacement, with `mask` the bucket count less one. */
  lemma SlotIsMasked(n: nat, home: nat, d: nat)
    requires IsPow2(n)
    ensures Slot(n, home, d) == BitAnd(home + (d * d + d) / 2, n - 1)
  {
    var k: nat :| n == Pow2(k);
    MaskIsModulo(home + Quadratic(d), k);
  }

  // ---- Single bits ----

  function Bit(x: nat, i: nat): nat {
    Shr(x, i) % 2
  }

  lemma {:induction false} ShiftedBit(x: nat, s: nat, i: nat)
    ensures Bit(Shr(x, s), i) == Bit(x, s + i)
  {
    ShrShr(x, s, i);
  }
}
