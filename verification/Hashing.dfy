/** The default integer hash: two xor-shifts around a multiplication by an odd constant modulo
    2^64. Words are natural numbers below 2^64 and the bit operations are defined on them. */
module Hashing {
  import opened Bits
  import opened Probing

  const WORD: nat := 0x1_0000_0000_0000_0000

  type Word64 = x: nat | x < WORD

  function Xor(a: nat, b: nat): nat
    decreases a + b
  {
    if a == 0 && b == 0 then 0 else 2 * Xor(a / 2, b / 2) + (a + b) % 2
  }

  lemma {:induction false} XorComm(a: nat, b: nat)
    ensures Xor(a, b) == Xor(b, a)
    decreases a + b
  {
    if a + b > 0 { XorComm(a / 2, b / 2); }
  }

  /** The low bit and the remaining bits of an exclusive or. */
  lemma XorBits(a: nat, b: nat)
    ensures Xor(a, b) / 2 == Xor(a / 2, b / 2)
    ensures Xor(a, b) % 2 == (a + b) % 2
  {
  }

  lemma {:induction false} XorAssoc(a: nat, b: nat, c: nat)
    ensures Xor(Xor(a, b), c) == Xor(a, Xor(b, c))
    decreases a + b + c
  {
    hide Xor;
    if a + b + c > 0 {
      XorAssoc(a / 2, b / 2, c / 2);
      var ab, bc := Xor(a, b), Xor(b, c);
      XorBits(a, b);
      XorBits(b, c);
      XorBits(ab, c);
      XorBits(a, bc);
      Parity(a, b, c, ab, bc);
      SameBits(Xor(ab, c), Xor(a, bc));
    } else {
      XorSelf(0);
    }
  }

  lemma Parity(a: nat, b: nat, c: nat, ab: nat, bc: nat)
    requires ab % 2 == (a + b) % 2 && bc % 2 == (b + c) % 2
    ensures (ab + c) % 2 == (a + bc) % 2
  {
  }

  lemma SameBits(x: nat, y: nat)
    requires x / 2 == y / 2 && x % 2 == y % 2
    ensures x == y
  {
  }

  lemma {:induction false} XorSelf(a: nat)
    ensures Xor(a, a) == 0 && Xor(a, 0) == a
  {
    if a > 0 { XorSelf(a / 2); }
  }

  /** A word cancels itself wherever it occurs. */
  lemma XorCancel(a: nat, b: nat)
    ensures Xor(Xor(a, b), b) == a
  {
    XorAssoc(a, b, b);
    XorSelf(b);
    XorSelf(a);
  }

  lemma {:induction false} ShrXor(a: nat, b: nat, s: nat)
    ensures Shr(Xor(a, b), s) == Xor(Shr(a, s), Shr(b, s))
    decreases s
  {
    if s > 0 { ShrXor(a / 2, b / 2, s - 1); }
  }

  /** Exclusive or, bit by bit. */
  lemma XorBit(a: nat, b: nat, i: nat)
    ensures Bit(Xor(a, b), i) == (Bit(a, i) + Bit(b, i)) % 2
  {
    hide Xor, Shr;
    ShrXor(a, b, i);
    XorBits(Shr(a, i), Shr(b, i));
  }

  lemma {:induction false} ShrSmaller(x: nat, s: nat)
    ensures Shr(x, s) <= x
    ensures x > 0 && s > 0 ==> Shr(x, s) < x
    decreases s
  {
    if s > 0 { ShrSmaller(x / 2, s - 1); }
  }

  lemma {:induction false} XorBounded(a: nat, b: nat, k: nat)
    requires Shr(a, k) == 0 && Shr(b, k) == 0
    ensures Shr(Xor(a, b), k) == 0
  {
    ShrXor(a, b, k);
  }

  lemma WordIsPow2()
    ensures WORD == Pow2(64)
  {
    assert Pow2(8) == 0x100;
    assert Pow2(16) == 0x1_0000;
    assert Pow2(24) == 0x100_0000;
    assert Pow2(32) == 0x1_0000_0000;
    assert Pow2(40) == 0x100_0000_0000;
    assert Pow2(48) == 0x1_0000_0000_0000;
    assert Pow2(56) == 0x100_0000_0000_0000;
  }

  /** A word has no bit at position 64 or above. */
  lemma ShrWord(x: nat, s: nat)
    requires s >= 64
    ensures x < WORD ==> Shr(x, s) == 0
    ensures Shr(x, 64) == 0 ==> x < WORD
  {
    WordIsPow2();
    ShrIsDivision(x, 64);
    ShrShr(x, 64, s - 64);
    ShrSmaller(0, s - 64);
    if x / WORD == 0 { assert x == (x / WORD) * WORD + x % WORD; }
  }

  /** `x ^= x >> s` */
  function XorShift(x: Word64, s: nat): Word64 {
    XorShiftFits(x, s);
    Xor(x, Shr(x, s))
  }

  lemma XorShiftFits(x: Word64, s: nat)
    ensures Xor(x, Shr(x, s)) < WORD
  {
    hide Xor, Shr;
    ShrWord(x, 64);
    ShrWord(x, 64 + s);
    ShrShr(x, s, 64);
    XorBounded(x, Shr(x, s), 64);
    ShrWord(Xor(x, Shr(x, s)), 64);
  }

  /** Repeating a xor-shift doubles its distance. */
  lemma XorShiftTwice(x: Word64, s: nat)
    ensures XorShift(XorShift(x, s), s) == XorShift(x, 2 * s)
  {
    hide Xor, Shr;
    var a, b := Shr(x, s), Shr(x, 2 * s);
    ShrXor(x, a, s);
    ShrShr(x, s, s);
    assert XorShift(XorShift(x, s), s) == Xor(Xor(x, a), Xor(a, b));
    XorAssoc(Xor(x, a), a, b);
    XorCancel(x, a);
  }

  lemma XorShiftFar(x: Word64, s: nat)
    requires s >= 64
    ensures XorShift(x, s) == x
  {
    ShrWord(x, s);
    XorSelf(x);
  }

  lemma XorShiftCommute(x: Word64, s: nat, t: nat)
    ensures XorShift(XorShift(x, s), t) == XorShift(XorShift(x, t), s)
  {
    hide Xor, Shr;
    var a, b, c := Shr(x, s), Shr(x, t), Shr(x, s + t);
    ShrXor(x, a, t);
    ShrXor(x, b, s);
    ShrShr(x, s, t);
    ShrShr(x, t, s);
    XorAssoc(Xor(x, a), b, c);
    XorAssoc(Xor(x, b), a, c);
    XorAssoc(x, a, b);
    XorAssoc(x, b, a);
    XorComm(a, b);
  }

  /** `x * c` modulo 2^64 */
  function Multiply(x: Word64, c: nat): Word64 {
    (x * c) % WORD
  }

  const MULTIPLIER: nat := 0x2127599bf4325c37

  /** The inverse of `MULTIPLIER` modulo 2^64. */
  const MULTIPLIER_INVERSE: nat := 0xa1bcefb14d101987

  /** vt_hash_integer */
  function HashInteger(key: Word64): Word64 {
    XorShift(Multiply(XorShift(key, 23), MULTIPLIER), 47)
  }

  /** The three statements of vt_hash_integer, each by what it does to the bits or the number. */
  lemma HashSteps(key: Word64) returns (a: Word64, b: Word64)
    ensures forall i: nat :: Bit(a, i) == (Bit(key, i) + Bit(key, 23 + i)) % 2
    ensures b == (a * 0x2127599bf4325c37) % 0x1_0000_0000_0000_0000
    ensures forall i: nat :: Bit(HashInteger(key), i) == (Bit(b, i) + Bit(b, 47 + i)) % 2
  {
    a := XorShift(key, 23);
    b := Multiply(a, MULTIPLIER);
    hide Xor, Shr, Bit;
    forall i: nat ensures Bit(a, i) == (Bit(key, i) + Bit(key, 23 + i)) % 2 {
      XorBit(key, Shr(key, 23), i);
      ShiftedBit(key, 23, i);
    }
    forall i: nat ensures Bit(HashInteger(key), i) == (Bit(b, i) + Bit(b, 47 + i)) % 2 {
      XorBit(b, Shr(b, 47), i);
      ShiftedBit(b, 47, i);
    }
  }

  /** Undoes `HashInteger` step by step; a shift of 23 needs a second correction of 46 bits. */
  function UnhashInteger(hash: Word64): Word64 {
    XorShift(XorShift(Multiply(XorShift(hash, 47), MULTIPLIER_INVERSE), 23), 46)
  }

  lemma MultiplyBack(x: Word64, c: nat, d: nat, q: nat)
    requires c * d == q * WORD + 1
    ensures Multiply(Multiply(x, c), d) == x
  {
    var y, e := (x * c) % WORD, (x * c) / WORD;
    assert y * d == (x * q - e * d) * WORD + x by {
      assert y == x * c - e * WORD;
      assert (x * c - e * WORD) * d == x * (c * d) - (e * d) * WORD;
      assert x * (q * WORD + 1) == (x * q) * WORD + x;
    }
    RemainderUnique(y * d, WORD, x * q - e * d, x);
  }

  /** The default hash is a bijection on 64-bit words. */
  lemma HashInverse(x: Word64)
    ensures UnhashInteger(HashInteger(x)) == x
    ensures HashInteger(UnhashInteger(x)) == x
  {
    var q := MULTIPLIER * MULTIPLIER_INVERSE / WORD;
    assert MULTIPLIER * MULTIPLIER_INVERSE == q * WORD + 1;

    var a := XorShift(x, 23);
    var b := Multiply(a, MULTIPLIER);
    UndoShift47(b);
    MultiplyBack(a, MULTIPLIER, MULTIPLIER_INVERSE, q);
    UndoShift23(x);

    var c := XorShift(x, 47);
    var d := Multiply(c, MULTIPLIER_INVERSE);
    UndoShift23(d);
    MultiplyBack(c, MULTIPLIER_INVERSE, MULTIPLIER, q);
    UndoShift47(x);
  }

  lemma UndoShift47(x: Word64)
    ensures XorShift(XorShift(x, 47), 47) == x
  {
    XorShiftTwice(x, 47);
    XorShiftFar(x, 94);
  }

  lemma UndoShift23(x: Word64)
    ensures XorShift(XorShift(XorShift(x, 23), 23), 46) == x
    ensures XorShift(XorShift(XorShift(x, 23), 46), 23) == x
  {
    XorShiftTwice(x, 23);
    XorShiftTwice(x, 46);
    XorShiftFar(x, 92);
    XorShiftCommute(XorShift(x, 23), 23, 46);
  }

  /** Distinct integer keys never share a full hash. */
  lemma HashInjective(x: Word64, y: Word64)
    ensures HashInteger(x) == HashInteger(y) ==> x == y
  {
    HashInverse(x);
    HashInverse(y);
  }
}
