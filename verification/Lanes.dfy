/** Finding the first nonzero metadatum among four that were read as one 64-bit word. */
module Lanes {
  import opened Bits
  import opened Metadata

  /** The least index of a nonzero lane; 4 if there is none. */
  function LeastNonzero(a: Raw, b: Raw, c: Raw, d: Raw): nat {
    if a != 0 then 0 else if b != 0 then 1 else if c != 0 then 2 else if d != 0 then 3 else 4
  }

  /** The portable vt_first_nonzero_uint16, on the four lanes in memory order. */
  method FirstNonzero(a: Raw, b: Raw, c: Raw, d: Raw) returns (result: nat)
    ensures a != 0 || b != 0 || c != 0 || d != 0 ==> result == LeastNonzero(a, b, c, d)
  {
    result := 0;
    if a == 0 && b == 0 {
      result := result + 2;
    }
    var quarter := if result == 0 then a else c;
    if quarter == 0 {
      result := result + 1;
    }
  }

  /** Number of trailing zero bits. */
  function TrailingZeros(x: nat): nat
    requires x > 0
  {
    if x % 2 == 1 then 0 else 1 + TrailingZeros(x / 2)
  }

  /** Number of bits up to the highest one bit. */
  function BitLength(x: nat): nat {
    if x == 0 then 0 else 1 + BitLength(x / 2)
  }

  lemma {:induction false} ShlPositive(x: nat, k: nat)
    ensures Shl(x, k) == 0 <==> x == 0
  {
    if k > 0 { ShlPositive(x, k - 1); }
  }

  lemma {:induction false} TrailingZerosHigh(x: nat, k: nat)
    requires x > 0
    ensures Shl(x, k) > 0 && TrailingZeros(Shl(x, k)) == k + TrailingZeros(x)
  {
    ShlPositive(x, k);
    if k > 0 { TrailingZerosHigh(x, k - 1); }
  }

  /** Bits above position `k` do not matter if there is a one bit below. */
  lemma {:induction false} TrailingZerosLow(low: nat, high: nat, k: nat)
    requires low > 0 && Shr(low, k) == 0
    ensures TrailingZeros(low + Shl(high, k)) == TrailingZeros(low) < k
    decreases k
  {
    if low % 2 == 0 {
      assert (low + 2 * Shl(high, k - 1)) / 2 == low / 2 + Shl(high, k - 1);
      TrailingZerosLow(low / 2, high, k - 1);
    }
  }

  /** Bits below position `k` do not add to the length if there is a one bit above. */
  lemma {:induction false} BitLengthHigh(low: nat, high: nat, k: nat)
    requires high > 0 && Shr(low, k) == 0
    ensures BitLength(low + Shl(high, k)) == k + BitLength(high)
    decreases k
  {
    if k > 0 {
      ShlPositive(high, k - 1);
      assert (low + 2 * Shl(high, k - 1)) / 2 == low / 2 + Shl(high, k - 1);
      BitLengthHigh(low / 2, high, k - 1);
    }
  }

  lemma {:induction false} BitLengthBound(x: nat, k: nat)
    requires Shr(x, k) == 0
    ensures BitLength(x) <= k
    decreases k
  {
    if x > 0 { BitLengthBound(x / 2, k - 1); }
  }

  /** Four lanes as one word: the lane in memory first is the lowest. */
  function LittleEndian(a: Raw, b: Raw, c: Raw, d: Raw): nat {
    a + Shl(b + Shl(c + Shl(d, 16), 16), 16)
  }

  lemma RawFits(x: Raw)
    ensures Shr(x, 16) == 0
  {
    ShrShr(x, 12, 4);
    FieldShifts(x);
    Shift4(Shr(x, 12));
  }

  /** `__builtin_ctzll(val) / 16` on a little-endian machine. */
  lemma LittleEndianScan(a: Raw, b: Raw, c: Raw, d: Raw)
    requires LittleEndian(a, b, c, d) > 0
    ensures TrailingZeros(LittleEndian(a, b, c, d)) / 16 == LeastNonzero(a, b, c, d)
  {
    hide TrailingZeros, Shl, Shr;
    RawFits(a);
    RawFits(b);
    RawFits(c);
    RawFits(d);
    var cd := c + Shl(d, 16);
    var bcd := b + Shl(cd, 16);
    ShlPositive(0, 16);
    if a != 0 {
      TrailingZerosLow(a, bcd, 16);
    } else {
      ShlPositive(bcd, 16);
      TrailingZerosHigh(bcd, 16);
      if b != 0 {
        TrailingZerosLow(b, cd, 16);
      } else {
        ShlPositive(cd, 16);
        TrailingZerosHigh(cd, 16);
        if c != 0 {
          TrailingZerosLow(c, d, 16);
        } else {
          ShlPositive(d, 16);
          TrailingZerosHigh(d, 16);
          TrailingZerosLow(d, 0, 16);
        }
      }
    }
  }

  /** `__builtin_clzll(val) / 16` on a big-endian machine, where the lane in memory first is the
      highest: the word is `LittleEndian` of the lanes in reverse. */
  lemma BigEndianScan(a: Raw, b: Raw, c: Raw, d: Raw)
    requires LittleEndian(d, c, b, a) > 0
    ensures BitLength(LittleEndian(d, c, b, a)) <= 64
    ensures (64 - BitLength(LittleEndian(d, c, b, a))) / 16 == LeastNonzero(a, b, c, d)
  {
    hide BitLength, Shl, Shr;
    RawFits(a);
    RawFits(b);
    RawFits(c);
    RawFits(d);
    LaneLength(a);
    LaneLength(b);
    LaneLength(c);
    LaneLength(d);
    var ba := b + Shl(a, 16);
    var cba := c + Shl(ba, 16);
    ShlPositive(0, 16);
    ShlPositive(a, 16);
    ShlPositive(ba, 16);
    if a != 0 { BitLengthHigh(b, a, 16); }
    if ba != 0 { BitLengthHigh(c, ba, 16); }
    ShlPositive(cba, 16);
    if cba != 0 { BitLengthHigh(d, cba, 16); }
  }

  lemma LaneLength(x: Raw)
    ensures BitLength(x) <= 16 && (x > 0 ==> BitLength(x) > 0)
  {
    RawFits(x);
    BitLengthBound(x, 16);
  }
}
