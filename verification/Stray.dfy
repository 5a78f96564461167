/** An insertion that can neither evict nor allocate leaves a key unreachable.

    NAME_evict cuts a key out of its chain before it looks for an empty bucket, and does not undo
    the cut when there is none. If NAME_rehash then fails too, the key is still stored and counted,
    but no lookup comes to it. */
module Stray {
  import opened Chains
  import opened Hashing
  import opened Keyed
  import opened Metadata
  import opened Probing
  import opened Tables

  /** For every table and key: if the insertion is refused after its eviction has begun, the key
      that was to be evicted is in the map, and a lookup does not find it. */
  method RefusedEvictionHidesKey<K(==, 0), V(0)>(t: Table<K, V>, key: K, val: V) returns (hidden: K, itr: Iterator)
    requires t.Valid() && key !in t.model.at && !t.Overloaded()
    requires t.Blocked(t.HomeOf(key)) && !t.model.shape.meta[t.HomeOf(key)].inHome
    modifies t`keyCount, t`model, t`stray, t.metadata, t.buckets
    ensures t.Map() == old(t.Map()) && t.keyCount == old(t.keyCount)
    ensures hidden in t.Map() && itr.IsEnd()
    ensures t.Scannable() && !t.Valid()
  {
    hide WellChained, WellKeyed, IsPow2, Slot, Contents, Home, HashFrag;
    var home := t.HomeOf(key);
    KeyedAt(t.model, t.hash, home);
    hidden := t.buckets[home].key;
    ContentsAt(t.model, t.hash, hidden);
    var refused := t.InsertRaw(key, val, false, true);
    itr := t.Get(hidden);
  }

  const COUNT: nat := 4096

  /** The bucket array of the example: all buckets on the probe path of bucket 0 are taken. Bucket 1
      holds key 4096, whose home is bucket 0; every other key is its own bucket index. */
  ghost predicate Taken(b: nat) {
    b in Probed(COUNT, 0, DISPLACEMENT_LIMIT)
  }

  ghost function KeyIn(b: nat): Word64
    requires b < COUNT
  {
    if b == 1 then COUNT else b
  }

  ghost function MetaIn(b: nat): Metadatum {
    if !Taken(b) then EMPTY
    else if b == 0 then Metadatum(0, true, 1)
    else Metadatum(0, b != 1, DISPLACEMENT_LIMIT)
  }

  ghost function CrowdedShape(): Shape {
    Shape(seq(COUNT, b requires 0 <= b => MetaIn(b)),
          seq(COUNT, b requires 0 <= b => if b == 1 then 0 else b),
          seq(COUNT, b requires 0 <= b => if b == 1 then 1 else 0))
  }

  ghost function Crowded(): Model<Word64, ()> {
    Model(CrowdedShape(),
          seq(COUNT, b requires 0 <= b < COUNT => Entry(KeyIn(b), ())),
          map b: nat | b < COUNT && Taken(b) :: KeyIn(b) := b)
  }

  ghost function Identity(k: Word64): Word64 { k }

  lemma CountIsPow2()
    ensures IsPow2(COUNT)
  {
    assert Pow2(6) == 64;
    assert Pow2(12) == COUNT;
  }

  lemma TakenSlots()
    ensures Taken(0) && Taken(1) && Slot(COUNT, 0, 1) == 1
    ensures forall b: nat :: Taken(b) ==> b < COUNT
    ensures forall d: nat :: d < DISPLACEMENT_LIMIT ==> Taken(Slot(COUNT, 0, d))
  {
    assert Slot(COUNT, 0, 0) == 0;
    assert Slot(COUNT, 0, 1) == 1;
  }

  lemma CrowdedChains()
    ensures WellChained(CrowdedShape())
    ensures forall b: nat :: Occupied(CrowdedShape(), b) <==> Taken(b)
    ensures Exhausted(CrowdedShape(), 0)
  {
    TakenSlots();
    hide Slot, Taken;
    var s := CrowdedShape();
    forall b: nat ensures Occupied(s, b) <==> Taken(b) {
      if b < COUNT { assert s.meta[b] == MetaIn(b); }
    }
    forall b: nat | Occupied(s, b) ensures Placed(s, b) {
      assert s.meta[b] == MetaIn(b);
      SlotAtHome(COUNT, b);
    }
    forall b: nat, c: nat | Occupied(s, b) && Occupied(s, c) ensures Ordered(s, b, c) {
      assert s.meta[b] == MetaIn(b) && s.meta[c] == MetaIn(c);
    }
  }

  lemma CrowdedKeys()
    ensures WellKeyed(Crowded(), Identity)
  {
    TakenSlots();
    CrowdedChains();
    hide Slot, Taken, WellChained;
    var m := Crowded();
    forall b: nat | Occupied(m.shape, b) ensures KeyAt(m, Identity, b) {
      assert m.shape.meta[b] == MetaIn(b);
      assert m.entries[b].key == KeyIn(b);
    }
    forall k | k in m.at ensures Located(m, k) {
      var b: nat :| b < COUNT && Taken(b) && KeyIn(b) == k;
      assert m.at[k] == b;
    }
  }

  /** Such tables exist: this one is valid and has room for 3000 keys below the load limit, so that
      NAME_reserve( 3000 ) is content with it. But bucket 1 holds a key that belongs elsewhere, and
      there is no bucket to evict it to: with 2047 keys stored, inserting key 1 is refused. */
  lemma CrowdedTable()
    ensures var m := Crowded();
      && WellKeyed(m, Identity) && WellChained(m.shape) && IsPow2(|m.shape.meta|)
      && |m.at| == 2047 && 10 * 3000 <= 9 * |m.shape.meta|
      && 1 !in m.at && Home(Identity(1), |m.shape.meta|) == 1
      && Occupied(m.shape, 1) && !m.shape.meta[1].inHome && Exhausted(m.shape, m.shape.home[1])
  {
    CountIsPow2();
    TakenSlots();
    CrowdedChains();
    CrowdedKeys();
    var m := Crowded();
    OccupiedCount(m, Identity);
    ProbedSize(COUNT, 0, DISPLACEMENT_LIMIT);
    assert OccupiedSet(m.shape) == Probed(COUNT, 0, DISPLACEMENT_LIMIT);
    assert m.shape.meta[1] == MetaIn(1);
  }
}
