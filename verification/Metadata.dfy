/** The 16-bit metadatum kept for each bucket, and its packed form. */
module Metadata {
  import opened Bits
  import opened Hashing
  import opened Probing

  type Nibble = x: nat | x < 16
  type Displacement = x: nat | x <= DISPLACEMENT_LIMIT

  /** `frag`: the top four bits of the key's hash. `inHome`: whether the key in this bucket begins
      the chain of this bucket. `next`: displacement, from the home of the chain, of the next key
      in the chain; `DISPLACEMENT_LIMIT` at its end. */
  datatype Metadatum = Metadatum(frag: Nibble, inHome: bool, next: Displacement)

  /** VT_EMPTY, the all-zero metadatum. */
  const EMPTY := Metadatum(0, false, 0)

  /** The iteration stopper 0x01 stored behind the last bucket. */
  const STOPPER := Metadatum(0, false, 1)

  const HASH_FRAG_MASK: nat := 0xF000
  const IN_HOME_BUCKET_MASK: nat := 0x0800
  const DISPLACEMENT_MASK: nat := 0x07FF

  type Raw = x: nat | x < 0x10000

  function Encode(m: Metadatum): Raw {
    m.frag * 0x1000 + (if m.inHome then 0x0800 else 0) + m.next
  }

  function Decode(raw: Raw): Metadatum {
    Metadatum(raw / 0x1000, raw / 0x800 % 2 == 1, raw % 0x800)
  }

  /** The packed form is a bijection between the records and the 16-bit words. */
  lemma EncodeDecode(m: Metadatum, raw: Raw)
    ensures Decode(Encode(m)) == m
    ensures Encode(Decode(raw)) == raw
  {
  }

  lemma EmptyIsZero(m: Metadatum)
    ensures m == EMPTY <==> Encode(m) == 0x0000
    ensures m == STOPPER <==> Encode(m) == 0x0001
  {
  }

  /** Shifts by the two field positions, as arithmetic. */
  lemma FieldShifts(x: nat)
    ensures Shr(x, 11) == x / 0x800 && Shr(x, 12) == x / 0x1000
    ensures Shl(x, 11) == x * 0x800 && Shl(x, 12) == x * 0x1000
  {
    hide Shr, Shl;
    Shift8(x);
    ShrShr(x, 8, 3);
    ShrShr(x, 8, 4);
    Shift4(x / 0x100);
    ShlShl(x, 8, 3);
    ShlShl(x, 8, 4);
    Shift4(x * 0x100);
  }

  lemma Shift8(x: nat)
    ensures Shr(x, 8) == x / 0x100 && Shl(x, 8) == x * 0x100
  {
    hide Shr, Shl;
    Shift4(x);
    Shift4(x / 16);
    Shift4(x * 16);
    ShrShr(x, 4, 4);
    ShlShl(x, 4, 4);
  }

  lemma Shift4(x: nat)
    ensures Shr(x, 3) == x / 8 && Shl(x, 3) == x * 8
    ensures Shr(x, 4) == x / 16 && Shl(x, 4) == x * 16
  {
    assert Shr(x, 4) == Shr(x / 2, 3) == Shr(x / 2 / 2, 2) == Shr(x / 2 / 2 / 2, 1);
    assert Shr(x, 3) == Shr(x / 2, 2) == Shr(x / 2 / 2, 1);
    assert Shl(x, 1) == 2 * x;
    assert Shl(x, 2) == 4 * x;
    assert Shl(x, 3) == 8 * x;
  }

  lemma Masks()
    ensures Ones(11) == DISPLACEMENT_MASK
    ensures Pow2(1) == 2 && Pow2(4) == 16 && Pow2(5) == 32 && Pow2(11) == 0x800 && Pow2(12) == 0x1000
  {
    assert Pow2(8) == 256;
    assert Ones(4) == 15;
    assert Ones(8) == 255;
  }

  lemma PackedFields(m: Metadatum)
    ensures Encode(m) % 0x800 == m.next
    ensures Encode(m) / 0x800 % 2 == if m.inHome then 1 else 0
    ensures Encode(m) / 0x1000 % 16 == m.frag
  {
  }

  /** What the three masks extract from a packed metadatum. */
  lemma MasksReadFields(m: Metadatum)
    ensures BitAnd(Encode(m), DISPLACEMENT_MASK) == m.next
    ensures BitAnd(Encode(m), IN_HOME_BUCKET_MASK) != 0 <==> m.inHome
    ensures BitAnd(Encode(m), HASH_FRAG_MASK) == m.frag * 0x1000
  {
    hide BitAnd, Pow2, Shr, Shl, Ones;
    Masks();
    var raw := Encode(m);
    MaskIsModulo(raw, 11);
    FieldMask(raw, 1, 1, 11);
    FieldMask(raw, 15, 4, 12);
    PackedFields(m);
  }

  /** A mask of `width` one bits (the number `c`) at position 11 or 12. */
  lemma FieldMask(raw: nat, c: nat, width: nat, k: nat)
    requires k == 11 || k == 12
    requires c == Pow2(width) - 1
    ensures k == 11 ==> BitAnd(raw, c * 0x800) == raw / 0x800 % Pow2(width) * 0x800
    ensures k == 12 ==> BitAnd(raw, c * 0x1000) == raw / 0x1000 % Pow2(width) * 0x1000
  {
    hide BitAnd, Pow2, Shr, Shl;
    ShiftedMask(raw, c, k);
    FieldShifts(raw);
    FieldShifts(c);
    MaskIsModulo(Shr(raw, k), width);
    FieldShifts(BitAnd(Shr(raw, k), c));
  }

  /** What the complements of the displacement and fragment masks leave of a packed metadatum. */
  lemma MasksClearFields(m: Metadatum)
    ensures BitAnd(Encode(m), 0xFFFF - DISPLACEMENT_MASK) == Encode(m.(next := 0))
    ensures BitAnd(Encode(m), 0xFFFF - HASH_FRAG_MASK) == Encode(m.(frag := 0))
  {
    hide BitAnd, Pow2, Shr, Shl, Ones;
    Masks();
    FieldMask(Encode(m), 31, 5, 11);
    MaskIsModulo(Encode(m), 12);
  }

  /** vt_hashfrag, as a fragment: the highest four bits of the hash. */
  function HashFrag(hash: Word64): Nibble {
    hash / 0x1000_0000_0000_0000
  }

  /** `(hash >> 48) & VT_HASH_FRAG_MASK` is that fragment, already in its place. */
  lemma HashFragMask(hash: Word64)
    ensures BitAnd(hash / 0x1_0000_0000_0000, HASH_FRAG_MASK) == HashFrag(hash) * 0x1000
  {
    hide BitAnd, Pow2, Shr, Shl, Ones;
    Masks();
    FieldMask(hash / 0x1_0000_0000_0000, 15, 4, 12);
  }

  /** `m & ~VT_DISPLACEMENT_MASK | d` replaces the link and nothing else. */
  lemma MaskedLink(m: Metadatum, d: Displacement)
    ensures BitOr(BitAnd(Encode(m), 0xFFFF - DISPLACEMENT_MASK), d) == Encode(m.(next := d))
  {
    hide BitAnd, BitOr, Shr, Shl;
    MasksClearFields(m);
    var high := m.frag * 2 + if m.inHome then 1 else 0;
    FieldShifts(high);
    FieldShifts(d);
    DisjointOr(high, d, 11);
  }

  /** `m |= VT_DISPLACEMENT_MASK` ends the chain at `m`. */
  lemma OrEndsChain(m: Metadatum)
    ensures BitOr(Encode(m), DISPLACEMENT_MASK) == Encode(m.(next := DISPLACEMENT_LIMIT))
  {
    hide BitOr, Pow2, Shr, Shl, Ones;
    Masks();
    OrOnes(Encode(m), 11);
    FieldShifts(Encode(m));
    FieldShifts(Shr(Encode(m), 11));
  }

  /** `(m & VT_HASH_FRAG_MASK) | (p & VT_DISPLACEMENT_MASK)` takes the fragment of one and the link
      of the other. */
  lemma FragAndLink(m: Metadatum, p: Metadatum)
    ensures BitOr(BitAnd(Encode(m), HASH_FRAG_MASK), BitAnd(Encode(p), DISPLACEMENT_MASK))
            == Encode(Metadatum(m.frag, false, p.next))
  {
    hide BitAnd, BitOr, Shr, Shl;
    MasksReadFields(m);
    MasksReadFields(p);
    FieldShifts(m.frag);
    FieldShifts(p.next);
    DisjointOr(m.frag, p.next, 12);
  }

  /** `(m & ~VT_HASH_FRAG_MASK) | (p & VT_HASH_FRAG_MASK)` replaces the fragment and nothing else. */
  lemma CopiedFrag(m: Metadatum, p: Metadatum)
    ensures BitOr(BitAnd(Encode(p), HASH_FRAG_MASK), BitAnd(Encode(m), 0xFFFF - HASH_FRAG_MASK))
            == Encode(m.(frag := p.frag))
  {
    hide BitAnd, BitOr, Shr, Shl;
    MasksClearFields(m);
    MasksReadFields(p);
    var low := Encode(m.(frag := 0));
    FieldShifts(p.frag);
    FieldShifts(low);
    DisjointOr(p.frag, low, 12);
  }
}
