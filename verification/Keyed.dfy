/** A bucket array with keys: where each key is, and the map the array stands for. */
module Keyed {
  import opened Bits
  import opened Chains
  import opened Hashing
  import opened Metadata
  import opened Probing

  datatype Entry<K, V> = Entry(key: K, val: V)

  /** `at` records the bucket of each key. */
  datatype Model<K, V> = Model(shape: Shape, entries: seq<Entry<K, V>>, at: map<K, nat>)

  /** `hash & buckets_mask` */
  function Home(hash: Word64, n: nat): (h: nat)
    requires n > 0
    ensures h < n
  {
    hash % n
  }

  lemma HomeIsMasked(hash: Word64, n: nat)
    requires IsPow2(n)
    ensures Home(hash, n) == BitAnd(hash, n - 1)
  {
    var k: nat :| n == Pow2(k);
    MaskIsModulo(hash, k);
  }

  /** The key in bucket `b` is recorded, and its home and fragment are those of its hash. */
  predicate KeyAt<K(==), V>(m: Model<K, V>, hash: K -> Word64, b: nat)
    requires Sized(m.shape) && Occupied(m.shape, b)
  {
    && b < |m.entries|
    && var k := m.entries[b].key;
    && k in m.at && m.at[k] == b
    && m.shape.home[b] == Home(hash(k), |m.shape.meta|)
    && m.shape.meta[b].frag == HashFrag(hash(k))
  }

  /** Key `k` is in the bucket recorded for it. */
  predicate Located<K(==), V>(m: Model<K, V>, k: K)
    requires k in m.at
  {
    Occupied(m.shape, m.at[k]) && m.at[k] < |m.entries| && m.entries[m.at[k]].key == k
  }

  ghost predicate WellKeyed<K, V>(m: Model<K, V>, hash: K -> Word64) {
    && Sized(m.shape)
    && (forall b: nat {:trigger KeyAt(m, hash, b)} :: Occupied(m.shape, b) ==> KeyAt(m, hash, b))
    && (forall k {:trigger Located(m, k)} :: k in m.at ==> Located(m, k))
  }

  /** The abstract map. */
  ghost function Contents<K, V>(m: Model<K, V>): map<K, V> {
    map k | k in m.at && m.at[k] < |m.entries| :: m.entries[m.at[k]].val
  }

  lemma ContentsAt<K, V>(m: Model<K, V>, hash: K -> Word64, k: K)
    requires WellKeyed(m, hash)
    ensures Contents(m).Keys == m.at.Keys
    ensures k in m.at ==> Located(m, k) && Contents(m)[k] == m.entries[m.at[k]].val
  {
    forall j | j in m.at ensures j in Contents(m) { assert Located(m, j); }
    assert k in m.at ==> Located(m, k);
  }

  lemma ContentsIgnoresShape<K, V>(m: Model<K, V>, t: Shape)
    ensures Contents(m.(shape := t)) == Contents(m)
  {
  }

  lemma ContentsPut<K, V>(m: Model<K, V>, m': Model<K, V>, e: nat, k: K, v: V)
    requires forall j :: j in m.at && j != k ==> m.at[j] != e
    requires e < |m.entries|
    requires m'.entries == m.entries[e := Entry(k, v)] && m'.at == m.at[k := e]
    ensures Contents(m') == Contents(m)[k := v]
  {
    var c, c' := Contents(m), Contents(m');
    assert c'.Keys == c.Keys + {k};
    forall j | j in c' ensures c'[j] == c[k := v][j] {}
  }

  lemma ContentsDrop<K, V>(m: Model<K, V>, m': Model<K, V>, k: K)
    requires m'.entries == m.entries && m'.at == m.at - {k}
    ensures Contents(m') == Contents(m) - {k}
  {
    var c, c' := Contents(m), Contents(m');
    assert c'.Keys == c.Keys - {k};
  }

  /** Two shapes agree on which buckets hold keys, and on homes and fragments, except at `e`. */
  ghost predicate AgreeBut(s: Shape, t: Shape, e: int) {
    && Sized(s) && Sized(t) && |s.meta| == |t.meta|
    && forall x: nat :: x < |s.meta| && x != e ==> SameKey(s, t, x)
  }

  ghost predicate SameKey(s: Shape, t: Shape, x: nat)
    requires Sized(s) && Sized(t) && x < |s.meta| == |t.meta|
  {
    && (Occupied(s, x) <==> Occupied(t, x))
    && t.home[x] == s.home[x]
    && t.meta[x].frag == s.meta[x].frag
  }

  /** Relinking does not disturb the keys. */
  lemma RelinkKeyed<K, V>(m: Model<K, V>, hash: K -> Word64, t: Shape)
    requires WellKeyed(m, hash) && AgreeBut(m.shape, t, -1)
    ensures WellKeyed(m.(shape := t), hash)
  {
    hide Home, HashFrag;
    var m' := m.(shape := t);
    forall b: nat | Occupied(t, b) ensures KeyAt(m', hash, b) {
      assert SameKey(m.shape, t, b) && KeyAt(m, hash, b);
    }
    forall k | k in m.at ensures Located(m', k) {
      assert Located(m, k) && SameKey(m.shape, t, m.at[k]);
    }
  }

  ghost function Placing<K, V>(m: Model<K, V>, t: Shape, e: nat, k: K, v: V): Model<K, V>
    requires e < |m.entries|
  {
    Model(t, m.entries[e := Entry(k, v)], m.at[k := e])
  }

  /** Putting a new key into an empty bucket adds it to the map. */
  lemma PlaceKeyed<K, V>(m: Model<K, V>, hash: K -> Word64, t: Shape, e: nat, k: K, v: V)
    requires WellKeyed(m, hash) && AgreeBut(m.shape, t, e)
    requires e < |m.entries| && !Occupied(m.shape, e) && Occupied(t, e) && k !in m.at
    requires t.home[e] == Home(hash(k), |t.meta|) && t.meta[e].frag == HashFrag(hash(k))
    ensures var m' := Placing(m, t, e, k, v);
      && WellKeyed(m', hash)
      && Contents(m') == Contents(m)[k := v]
      && |m'.at| == |m.at| + 1
  {
    hide Home, HashFrag, Contents;
    var m' := Placing(m, t, e, k, v);
    forall b: nat | Occupied(t, b) ensures KeyAt(m', hash, b) {
      if b != e { assert SameKey(m.shape, t, b) && KeyAt(m, hash, b); }
    }
    forall j | j in m.at ensures m.at[j] != e && (j != k ==> Located(m', j)) {
      assert Located(m, j) && SameKey(m.shape, t, m.at[j]);
    }
    ContentsPut(m, m', e, k, v);
    SizeAfterPut(m.at, k, e);
  }

  lemma SizeAfterPut<K>(at: map<K, nat>, k: K, e: nat)
    ensures |at[k := e]| == |at| + if k in at then 0 else 1
    ensures k in at ==> |at - {k}| == |at| - 1
  {
    assert at[k := e].Keys == at.Keys + {k};
    assert |at| == |at.Keys| && |at[k := e]| == |at[k := e].Keys| && |at - {k}| == |(at - {k}).Keys|;
    assert (at - {k}).Keys == at.Keys - {k};
  }

  ghost function Removing<K, V>(m: Model<K, V>, t: Shape, b: nat): Model<K, V>
    requires b < |m.entries|
  {
    Model(t, m.entries, m.at - {m.entries[b].key})
  }

  /** Emptying a bucket removes its key from the map. */
  lemma RemoveKeyed<K, V>(m: Model<K, V>, hash: K -> Word64, t: Shape, b: nat)
    requires WellKeyed(m, hash) && AgreeBut(m.shape, t, b)
    requires Occupied(m.shape, b) && !Occupied(t, b)
    ensures KeyAt(m, hash, b)
    ensures var m' := Removing(m, t, b);
      && WellKeyed(m', hash)
      && Contents(m') == Contents(m) - {m.entries[b].key}
      && |m'.at| == |m.at| - 1
  {
    hide Home, HashFrag, Contents;
    assert KeyAt(m, hash, b);
    var k, m' := m.entries[b].key, Removing(m, t, b);
    forall x: nat | Occupied(t, x) ensures KeyAt(m', hash, x) {
      assert SameKey(m.shape, t, x) && KeyAt(m, hash, x);
    }
    forall j | j in m'.at ensures Located(m', j) {
      assert Located(m, j) && SameKey(m.shape, t, m.at[j]);
    }
    ContentsDrop(m, m', k);
    SizeAfterPut(m.at, k, b);
  }

  ghost function Moving<K, V>(m: Model<K, V>, t: Shape, b: nat, e: nat): Model<K, V>
    requires b < |m.entries| && e < |m.entries|
  {
    Model(t, m.entries[e := m.entries[b]], m.at[m.entries[b].key := e])
  }

  /** Moving a key to another bucket leaves the map alone. */
  lemma MoveKeyed<K, V>(m: Model<K, V>, hash: K -> Word64, mid: Shape, t: Shape, b: nat, e: nat)
    requires WellKeyed(m, hash) && AgreeBut(m.shape, mid, b) && AgreeBut(mid, t, e)
    requires Occupied(m.shape, b) && !Occupied(mid, b)
    requires e < |m.entries| && !Occupied(mid, e) && Occupied(t, e)
    requires t.home[e] == m.shape.home[b] && t.meta[e].frag == m.shape.meta[b].frag
    ensures KeyAt(m, hash, b)
    ensures var m' := Moving(m, t, b, e);
      && WellKeyed(m', hash)
      && Contents(m') == Contents(m)
      && |m'.at| == |m.at|
  {
    assert |t.meta| == |m.shape.meta|;
    hide Home, HashFrag, Contents, AgreeBut, Located;
    RemoveKeyed(m, hash, mid, b);
    var Entry(k, v) := m.entries[b];
    var r := Removing(m, mid, b);
    PlaceKeyed(r, hash, t, e, k, v);
    assert Placing(r, t, e, k, v) == Moving(m, t, b, e) by {
      assert (m.at - {k})[k := e] == m.at[k := e];
    }
    ContentsAt(m, hash, k);
    assert (Contents(m) - {k})[k := v] == Contents(m);
  }

  /** Overwriting the entry of a present key changes its value only. */
  lemma ReplaceKeyed<K, V>(m: Model<K, V>, hash: K -> Word64, k: K, v: V)
    requires WellKeyed(m, hash) && k in m.at
    ensures Located(m, k)
    ensures var m' := m.(entries := m.entries[m.at[k] := Entry(k, v)]);
      && WellKeyed(m', hash)
      && Contents(m') == Contents(m)[k := v]
  {
    hide Home, HashFrag, Contents;
    assert Located(m, k);
    var m' := m.(entries := m.entries[m.at[k] := Entry(k, v)]);
    forall b: nat | Occupied(m.shape, b) ensures KeyAt(m', hash, b) { assert KeyAt(m, hash, b); }
    forall j | j in m.at ensures Located(m', j) && (j != k ==> m.at[j] != m.at[k]) {
      assert Located(m, j);
    }
    assert m.at == m.at[k := m.at[k]];
    ContentsPut(m, m', m.at[k], k, v);
  }

  lemma KeyedAt<K, V>(m: Model<K, V>, hash: K -> Word64, b: nat)
    requires WellKeyed(m, hash) && Occupied(m.shape, b)
    ensures KeyAt(m, hash, b)
  {
  }

  lemma LocatedIn<K, V>(m: Model<K, V>, hash: K -> Word64, k: K)
    requires WellKeyed(m, hash) && k in m.at
    ensures Located(m, k)
  {
  }

  /** All links outside the chain of `home` are the same in both shapes. */
  ghost predicate SameChainsBut(s: Shape, t: Shape, home: nat)
    requires Sized(s) && Sized(t) && |s.meta| == |t.meta|
  {
    forall x: nat :: Occupied(s, x) && s.home[x] != home ==> t.meta[x] == s.meta[x]
  }

  /** Cutting a key out of its chain leaves all keys recorded and the other links alone. */
  lemma CutKeyed<K, V>(m: Model<K, V>, hash: K -> Word64, p: nat, b: nat)
    requires WellKeyed(m, hash) && WellChained(m.shape)
    requires Occupied(m.shape, p) && Occupied(m.shape, b)
    requires m.shape.home[p] == m.shape.home[b] && m.shape.meta[p].next == m.shape.disp[b]
    ensures WellKeyed(m.(shape := Cut(m.shape, p, b)), hash)
    ensures WellChained(Vacate(Cut(m.shape, p, b), b))
    ensures AgreeBut(m.shape, Cut(m.shape, p, b), -1)
    ensures SameChainsBut(m.shape, Cut(m.shape, p, b), m.shape.home[b])
    ensures p != b
  {
    hide WellKeyed;
    var s, t := m.shape, Cut(m.shape, p, b);
    PlacedIn(s, p);
    PlacedIn(s, b);
    UnlinkKeeps(s, p, b);
    assert p != b && t.meta[p] != EMPTY;
    assert AgreeBut(s, t, -1);
    RelinkKeyed(m, hash, t);
  }

  /** The keys and chains after a key that was cut out of its chain at `b` is linked again, behind
      `p`, at the empty bucket `e`. */
  ghost function Reattached<K, V>(m: Model<K, V>, b: nat, p: nat, e: nat, d: Displacement): Model<K, V>
    requires Sized(m.shape) && b < |m.entries| && e < |m.entries| <= |m.shape.meta| && p < |m.shape.meta|
  {
    Moving(m, Link(Vacate(m.shape, b), m.shape.home[b], p, e, d, m.shape.meta[b].frag), b, e)
  }

  lemma ReattachKeyed<K, V>(m: Model<K, V>, hash: K -> Word64, b: nat, p: nat, e: nat, d: Displacement)
    requires WellKeyed(m, hash) && Occupied(m.shape, b) && WellChained(Vacate(m.shape, b))
    requires Occupied(m.shape, p) && p != b && e < |m.entries| <= |m.shape.meta| && !Occupied(m.shape, e)
    requires m.shape.home[p] == m.shape.home[b]
    requires m.shape.disp[p] < d < m.shape.meta[p].next && d < |m.shape.meta|
    requires Slot(|m.shape.meta|, m.shape.home[b], d) == e
    ensures KeyAt(m, hash, b)
    ensures var m' := Reattached(m, b, p, e, d);
      && WellKeyed(m', hash) && WellChained(m'.shape)
      && !Occupied(m'.shape, b)
      && Contents(m') == Contents(m) && |m'.at| == |m.at|
      && SameChainsBut(m.shape, m'.shape, m.shape.home[b])
  {
    hide Slot, Contents, Home, HashFrag;
    KeyedAt(m, hash, b);
    hide WellKeyed, KeyAt;
    var s, view := m.shape, Vacate(m.shape, b);
    var frag := s.meta[b].frag;
    var t := Link(view, s.home[b], p, e, d, frag);
    LinkKeeps(view, s.home[b], p, e, d, frag);
    assert Occupied(t, e) && AgreeBut(s, view, b) && AgreeBut(view, t, e);
    MoveKeyed(m, hash, view, t, b, e);
  }

  lemma SameChainsTransitive(s: Shape, t: Shape, u: Shape, home: nat)
    requires Sized(s) && Sized(u) && |s.meta| == |u.meta|
    requires AgreeBut(s, t, -1) && SameChainsBut(s, t, home) && SameChainsBut(t, u, home)
    ensures SameChainsBut(s, u, home)
  {
    forall x: nat | Occupied(s, x) && s.home[x] != home ensures u.meta[x] == s.meta[x] {
      assert SameKey(s, t, x);
    }
  }

  /** Starting a chain at an empty home bucket with a new key. */
  lemma BeginKeyed<K, V>(m: Model<K, V>, hash: K -> Word64, e: nat, k: K, v: V)
    requires WellKeyed(m, hash) && WellChained(m.shape)
    requires e < |m.entries| <= |m.shape.meta| && !Occupied(m.shape, e)
    requires k !in m.at && e == Home(hash(k), |m.shape.meta|)
    ensures var m' := Placing(m, Begin(m.shape, e, HashFrag(hash(k))), e, k, v);
      && WellKeyed(m', hash) && WellChained(m'.shape)
      && Contents(m') == Contents(m)[k := v] && |m'.at| == |m.at| + 1
  {
    assert Sized(m.shape);
    hide Contents, Home, HashFrag, WellKeyed, WellChained;
    var t := Begin(m.shape, e, HashFrag(hash(k)));
    BeginKeeps(m.shape, e, HashFrag(hash(k)));
    PlaceKeyed(m, hash, t, e, k, v);
  }

  /** Linking a new key into the chain of its home, at an empty bucket. */
  lemma LinkKeyed<K, V>(m: Model<K, V>, hash: K -> Word64, p: nat, e: nat, d: Displacement, k: K, v: V)
    requires WellKeyed(m, hash) && WellChained(m.shape)
    requires Occupied(m.shape, p) && e < |m.entries| <= |m.shape.meta| && !Occupied(m.shape, e)
    requires k !in m.at && m.shape.home[p] == Home(hash(k), |m.shape.meta|)
    requires m.shape.disp[p] < d < m.shape.meta[p].next && d < |m.shape.meta|
    requires Slot(|m.shape.meta|, m.shape.home[p], d) == e
    ensures var m' := Placing(m, Link(m.shape, m.shape.home[p], p, e, d, HashFrag(hash(k))), e, k, v);
      && WellKeyed(m', hash) && WellChained(m'.shape)
      && Contents(m') == Contents(m)[k := v] && |m'.at| == |m.at| + 1
  {
    assert Sized(m.shape);
    hide Slot, Contents, Home, HashFrag, WellKeyed, WellChained;
    var t := Link(m.shape, m.shape.home[p], p, e, d, HashFrag(hash(k)));
    LinkKeeps(m.shape, m.shape.home[p], p, e, d, HashFrag(hash(k)));
    assert AgreeBut(m.shape, t, e);
    PlaceKeyed(m, hash, t, e, k, v);
  }

  // ---- Counting ----

  ghost function OccupiedSet(s: Shape): set<nat> {
    set b: nat | b < |s.meta| && Occupied(s, b)
  }

  lemma {:induction false} ImageSize<K>(at: map<K, nat>, keys: set<K>)
    requires keys <= at.Keys
    requires forall j, k :: j in at && k in at && at[j] == at[k] ==> j == k
    ensures |set k | k in keys :: at[k]| == |keys|
  {
    if keys != {} {
      var k :| k in keys;
      ImageSize(at, keys - {k});
      assert (set j | j in keys :: at[j]) == (set j | j in keys - {k} :: at[j]) + {at[k]};
    }
  }

  /** The number of keys is the number of occupied buckets. */
  lemma OccupiedCount<K, V>(m: Model<K, V>, hash: K -> Word64)
    requires WellKeyed(m, hash)
    ensures |OccupiedSet(m.shape)| == |m.at|
  {
    hide Home, HashFrag;
    forall k | k in m.at ensures Located(m, k) {}
    ImageSize(m.at, m.at.Keys);
    var image := set k | k in m.at.Keys :: m.at[k];
    forall b: nat | b in OccupiedSet(m.shape) ensures b in image {
      assert KeyAt(m, hash, b);
      assert m.entries[b].key in m.at.Keys;
    }
    assert OccupiedSet(m.shape) == image;
    assert |m.at| == |m.at.Keys|;
  }

  /** No bucket on the probe path of `home` is empty. */
  ghost predicate Exhausted(s: Shape, home: nat)
    requires |s.meta| > 0
  {
    forall d: nat :: 1 <= d < DISPLACEMENT_LIMIT ==> Occupied(s, Slot(|s.meta|, home, d))
  }

  /** With fewer keys than buckets and at most 2046 of them, probing from an occupied home finds an
      empty bucket: the first min(n, 2047) displacements name that many different buckets. */
  lemma NeverExhausted<K, V>(m: Model<K, V>, hash: K -> Word64, home: nat)
    requires WellKeyed(m, hash) && IsPow2(|m.shape.meta|) && Occupied(m.shape, home)
    requires |m.at| < |m.shape.meta| && |m.at| < DISPLACEMENT_LIMIT
    ensures !Exhausted(m.shape, home)
  {
    hide Slot, WellKeyed, IsPow2;
    var n := |m.shape.meta|;
    if Exhausted(m.shape, home) {
      var count := if n < DISPLACEMENT_LIMIT then n else DISPLACEMENT_LIMIT;
      ProbedSize(n, home, count);
      OccupiedCount(m, hash);
      SlotAtHome(n, home);
      assert Probed(n, home, count) <= OccupiedSet(m.shape);
      SubsetSize(Probed(n, home, count), OccupiedSet(m.shape));
      assert false;
    }
  }

  lemma ExhaustedAgree(s: Shape, t: Shape, home: nat)
    requires AgreeBut(s, t, -1)
    ensures Exhausted(s, home) <==> Exhausted(t, home)
  {
    hide Slot;
    forall d: nat | 1 <= d < DISPLACEMENT_LIMIT
      ensures Occupied(s, Slot(|s.meta|, home, d)) <==> Occupied(t, Slot(|t.meta|, home, d))
    {
      assert SameKey(s, t, Slot(|s.meta|, home, d));
    }
  }

  // ---- Erasing ----

  /** The effect of erasing the key in bucket `b`: `emptied` is the only bucket that becomes empty,
      and at most one other key moves, from there to `b`. */
  ghost predicate Erased<K, V>(m: Model<K, V>, m': Model<K, V>, b: nat, emptied: nat) {
    && |m'.shape.meta| == |m.shape.meta| && |m'.entries| == |m.entries|
    && m'.shape.home == m.shape.home
    && b < |m.entries| && m.entries[b].key in m.at && m.at[m.entries[b].key] == b
    && Occupied(m.shape, emptied)
    && (forall x: nat :: Occupied(m'.shape, x) <==> Occupied(m.shape, x) && x != emptied)
    && if emptied == b then m'.at == m.at - {m.entries[b].key}
       else
         && emptied < |m.entries| && m.entries[emptied].key != m.entries[b].key
         && m.entries[emptied].key in m.at && m.at[m.entries[emptied].key] == emptied
         && m'.at == (m.at - {m.entries[b].key})[m.entries[emptied].key := b]
  }

  /** Removing the only key of a chain. */
  lemma EraseSole<K, V>(m: Model<K, V>, hash: K -> Word64, b: nat)
    requires WellKeyed(m, hash) && WellChained(m.shape) && Occupied(m.shape, b)
    requires m.shape.meta[b].inHome && m.shape.meta[b].next == DISPLACEMENT_LIMIT
    ensures KeyAt(m, hash, b)
    ensures var m' := Removing(m, Vacate(m.shape, b), b);
      && Erased(m, m', b, b)
      && WellKeyed(m', hash) && WellChained(m'.shape)
      && Contents(m') == Contents(m) - {m.entries[b].key} && |m'.at| == |m.at| - 1
  {
    hide Contents, Home, HashFrag;
    PlacedIn(m.shape, b);
    VacateKeeps(m.shape, b);
    RemoveKeyed(m, hash, Vacate(m.shape, b), b);
  }

  /** Removing the last key of a longer chain. */
  lemma EraseLast<K, V>(m: Model<K, V>, hash: K -> Word64, p: nat, b: nat)
    requires WellKeyed(m, hash) && WellChained(m.shape)
    requires Occupied(m.shape, p) && Occupied(m.shape, b)
    requires m.shape.home[p] == m.shape.home[b] && m.shape.meta[p].next == m.shape.disp[b]
    ensures KeyAt(m, hash, b)
    ensures var m' := Removing(m, Unlink(m.shape, p, b), b);
      && Erased(m, m', b, b)
      && WellKeyed(m', hash) && WellChained(m'.shape)
      && Contents(m') == Contents(m) - {m.entries[b].key} && |m'.at| == |m.at| - 1
  {
    hide Contents, Home, HashFrag;
    PlacedIn(m.shape, p);
    PlacedIn(m.shape, b);
    UnlinkKeeps(m.shape, p, b);
    hide WellKeyed, WellChained;
    assert AgreeBut(m.shape, Unlink(m.shape, p, b), b);
    RemoveKeyed(m, hash, Unlink(m.shape, p, b), b);
  }

  /** The keys and chains after the key in `b` is replaced by the last key of its chain, which was
      in `last` with predecessor `p`. */
  ghost function Swapped<K, V>(m: Model<K, V>, p: nat, last: nat, b: nat): Model<K, V>
    requires Sized(m.shape) && p < |m.shape.meta| && last < |m.entries| <= |m.shape.meta| && b < |m.entries|
  {
    Model(Refragment(Unlink(m.shape, p, last), b, m.shape.meta[last].frag),
          m.entries[b := m.entries[last]],
          (m.at - {m.entries[b].key})[m.entries[last].key := b])
  }

  /** The swap, bucket by bucket. */
  lemma SwappedBuckets<K, V>(m: Model<K, V>, p: nat, last: nat, b: nat)
    requires Sized(m.shape) && p < |m.shape.meta| && last < |m.entries| <= |m.shape.meta| && b < |m.entries|
    requires p != last && b != last
    ensures var s, m' := m.shape, Swapped(m, p, last, b);
      && Sized(m'.shape) && |m'.shape.meta| == |s.meta| && |m'.entries| == |m.entries|
      && (forall i :: 0 <= i < |m.entries| && i != b ==> m'.entries[i] == m.entries[i])
      && m'.entries[b] == m.entries[last]
      && (forall i :: 0 <= i < |s.meta| && i != p && i != b && i != last ==> m'.shape.meta[i] == s.meta[i])
      && m'.shape.meta[last] == EMPTY
      && m'.shape.meta[b] ==
           Metadatum(s.meta[last].frag, s.meta[b].inHome, if b == p then s.meta[last].next else s.meta[b].next)
      && (b != p ==> m'.shape.meta[p] == s.meta[p].(next := s.meta[last].next))
  {
  }

  lemma SwapShape(s: Shape, p: nat, last: nat, b: nat)
    requires WellChained(s) && Occupied(s, p) && Occupied(s, last) && Occupied(s, b) && b != last
    requires s.home[p] == s.home[last] == s.home[b] && s.meta[p].next == s.disp[last]
    ensures var t := Refragment(Unlink(s, p, last), b, s.meta[last].frag);
      && WellChained(t)
      && (forall x: nat :: Occupied(t, x) <==> Occupied(s, x) && x != last)
      && t.home == s.home && t.meta[b].frag == s.meta[last].frag
      && AgreeBut(Vacate(Vacate(s, b), last), t, b)
  {
    hide Slot;
    PlacedIn(s, p);
    PlacedIn(s, b);
    PlacedIn(s, last);
    UnlinkKeeps(s, p, last);
    RefragmentKeeps(Unlink(s, p, last), b, s.meta[last].frag);
  }

  /** Removing an inner key of a chain: the last key takes its bucket. */
  lemma EraseInner<K, V>(m: Model<K, V>, hash: K -> Word64, p: nat, last: nat, b: nat)
    requires WellKeyed(m, hash) && WellChained(m.shape)
    requires Occupied(m.shape, p) && Occupied(m.shape, last) && Occupied(m.shape, b) && b != last
    requires m.shape.home[p] == m.shape.home[last] == m.shape.home[b]
    requires m.shape.meta[p].next == m.shape.disp[last] && |m.entries| <= |m.shape.meta|
    ensures KeyAt(m, hash, b) && KeyAt(m, hash, last)
    ensures var m' := Swapped(m, p, last, b);
      && Erased(m, m', b, last)
      && WellKeyed(m', hash) && WellChained(m'.shape)
      && Contents(m') == Contents(m) - {m.entries[b].key} && |m'.at| == |m.at| - 1
  {
    hide Contents, Home, HashFrag;
    SwapShape(m.shape, p, last, b);
    KeyedAt(m, hash, b);
    KeyedAt(m, hash, last);
    hide WellKeyed, WellChained;
    var s := m.shape;
    var one := Vacate(s, b);
    assert AgreeBut(s, one, b);
    RemoveKeyed(m, hash, one, b);
    var r := Removing(m, one, b);
    var two := Vacate(one, last);
    assert AgreeBut(one, two, last);
    MoveKeyed(r, hash, two, Swapped(m, p, last, b).shape, last, b);
    assert Moving(r, Swapped(m, p, last, b).shape, last, b) == Swapped(m, p, last, b);
  }

  // ---- Scanning ----

  /** The part of the map whose keys are in buckets below `i`. */
  ghost function Before<K, V>(m: Model<K, V>, i: nat): map<K, V> {
    map k | k in m.at && m.at[k] < i && m.at[k] < |m.entries| :: m.entries[m.at[k]].val
  }

  /** One step of a scan adds the key of an occupied bucket, and nothing for an empty one. */
  lemma BeforeStep<K, V>(m: Model<K, V>, hash: K -> Word64, i: nat)
    requires WellKeyed(m, hash) && i < |m.entries| <= |m.shape.meta|
    ensures Occupied(m.shape, i) ==>
              && m.entries[i].key !in Before(m, i)
              && Before(m, i + 1) == Before(m, i)[m.entries[i].key := m.entries[i].val]
    ensures !Occupied(m.shape, i) ==> Before(m, i + 1) == Before(m, i)
  {
    hide Home, HashFrag;
    forall k | k in m.at ensures Located(m, k) {}
    if Occupied(m.shape, i) {
      assert KeyAt(m, hash, i);
      assert Before(m, i + 1).Keys == Before(m, i).Keys + {m.entries[i].key};
    } else {
      assert Before(m, i + 1).Keys == Before(m, i).Keys;
    }
  }

  lemma BeforeAll<K, V>(m: Model<K, V>, hash: K -> Word64)
    requires WellKeyed(m, hash)
    ensures Before(m, 0) == map[]
    ensures Before(m, |m.entries|) == Contents(m)
    ensures |Contents(m)| == |m.at|
  {
    forall k | k in m.at ensures Located(m, k) {}
    assert Contents(m).Keys == m.at.Keys;
    assert |Contents(m)| == |Contents(m).Keys| && |m.at| == |m.at.Keys|;
  }

  /** As long as some key is still ahead, a scan has seen fewer keys than there are. */
  lemma BeforeSmaller<K, V>(m: Model<K, V>, hash: K -> Word64, i: nat)
    requires WellKeyed(m, hash) && Occupied(m.shape, i)
    ensures |Before(m, i)| < |m.at|
  {
    assert KeyAt(m, hash, i);
    var b, all := Before(m, i), m.at.Keys;
    assert b.Keys <= all - {m.entries[i].key};
    SubsetSize(b.Keys, all - {m.entries[i].key});
    assert |b| == |b.Keys| && |m.at| == |all|;
  }

  /** The number of keys in a map fixes the size of any table that holds it. */
  lemma SameSize<K, V>(m: Model<K, V>, hash: K -> Word64, c: map<K, V>)
    requires WellKeyed(m, hash) && Contents(m) == c
    ensures |m.at| == |c|
  {
    BeforeAll(m, hash);
  }

  lemma SameKeys<K, V>(m: Model<K, V>, m': Model<K, V>, hash: K -> Word64)
    requires WellKeyed(m, hash) && WellKeyed(m', hash) && Contents(m) == Contents(m')
    ensures m.at.Keys == m'.at.Keys
  {
    forall k | k in m.at ensures Located(m, k) {}
    forall k | k in m'.at ensures Located(m', k) {}
    assert Contents(m).Keys == m.at.Keys && Contents(m').Keys == m'.at.Keys;
  }

  // ---- Iterating ----

  /** The keys in buckets from index `i` on. */
  ghost function Ahead<K, V>(m: Model<K, V>, i: nat): set<K> {
    set k | k in m.at && m.at[k] >= i
  }

  /** Passing over empty buckets passes over no key. */
  lemma AheadSkips<K, V>(m: Model<K, V>, hash: K -> Word64, i: nat, j: nat)
    requires WellKeyed(m, hash) && i <= j
    requires forall x: nat :: i <= x < j ==> !Occupied(m.shape, x)
    ensures Ahead(m, i) == Ahead(m, j)
  {
    forall k | k in m.at ensures Located(m, k) {}
  }

  /** Passing over an occupied bucket passes over its key alone. */
  lemma AheadSteps<K, V>(m: Model<K, V>, hash: K -> Word64, i: nat)
    requires WellKeyed(m, hash) && Occupied(m.shape, i)
    ensures KeyAt(m, hash, i) && m.entries[i].key in Ahead(m, i)
    ensures Ahead(m, i + 1) == Ahead(m, i) - {m.entries[i].key}
  {
    assert KeyAt(m, hash, i);
    forall k | k in m.at ensures Located(m, k) {}
  }

  /** Erasing the key in `b` takes it from the keys ahead and moves no key across the iterator. */
  lemma AheadErased<K, V>(m: Model<K, V>, m': Model<K, V>, b: nat, emptied: nat)
    requires Erased(m, m', b, emptied)
    ensures emptied <= b ==> Ahead(m', b + 1) == Ahead(m, b + 1)
    ensures emptied > b ==> Ahead(m', b) == Ahead(m, b) - {m.entries[b].key}
  {
  }

  /** The occupied buckets from index `i` on, in order. */
  function Scan(s: Shape, i: nat): (r: seq<nat>)
    requires i <= |s.meta|
    decreases |s.meta| - i
  {
    if i == |s.meta| then []
    else if Occupied(s, i) then [i] + Scan(s, i + 1)
    else Scan(s, i + 1)
  }

  lemma {:induction false} ScanSkips(s: Shape, i: nat, j: nat)
    requires i <= j <= |s.meta|
    requires forall x: nat :: i <= x < j ==> !Occupied(s, x)
    ensures Scan(s, i) == Scan(s, j)
    decreases j - i
  {
    if i < j { ScanSkips(s, i + 1, j); }
  }

  /** The scan lists each occupied bucket once, by increasing index. */
  lemma {:induction false} ScanLists(s: Shape, i: nat)
    requires i <= |s.meta|
    ensures forall b: nat :: b in Scan(s, i) <==> i <= b && Occupied(s, b)
    ensures forall x, y :: 0 <= x < y < |Scan(s, i)| ==> Scan(s, i)[x] < Scan(s, i)[y]
    decreases |s.meta| - i
  {
    if i < |s.meta| {
      ScanLists(s, i + 1);
      var rest := Scan(s, i + 1);
      forall x | 0 <= x < |rest| ensures i < rest[x] { assert rest[x] in rest; }
    }
  }
}
