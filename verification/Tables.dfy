/** The hash table: an object holding a bucket array and a metadata array that its operations
    update in place. */
module Tables {
  import opened Chains
  import opened Hashing
  import opened Keyed
  import opened Lanes
  import opened Metadata
  import opened Probing

  datatype Option<+T> = None | Some(value: T)

  /** An iterator names a bucket by its index; `end` is the index of the iteration stopper, and
      `home` is `None` where the source stores SIZE_MAX. */
  datatype Iterator = Iterator(bucket: nat, end: nat, home: Option<nat>)
  {
    predicate IsEnd() { bucket == end }
  }

  /** The iterator that failing operations return. */
  const END_ITERATOR := Iterator(0, 0, Some(0))

  const MIN_NONZERO_BUCKET_COUNT: nat := 8

  /** MAX_LOAD, the double nearest to 0.9, is this over 2^53. */
  const MAX_LOAD_NUMERATOR: nat := 8106479329266893
  const TWO_TO_53: nat := 0x20_0000_0000_0000

  /** Comparing `keys` with `count * MAX_LOAD` in double arithmetic is comparing ten times the one
      with nine times the other. For a power of two `count` the product is exact. */
  lemma LoadLimitIsNineTenths(keys: nat, count: nat)
    requires count < TWO_TO_53 / 2
    ensures keys * TWO_TO_53 > count * MAX_LOAD_NUMERATOR <==> 10 * keys > 9 * count
  {
    assert 10 * MAX_LOAD_NUMERATOR == 9 * TWO_TO_53 + 2;
    var e := 10 * keys - 9 * count;
    assert 10 * (keys * TWO_TO_53 - count * MAX_LOAD_NUMERATOR) == e * TWO_TO_53 - 2 * count;
  }

  /** MALLOC_FN. Its answer may depend on the request and on how many requests came before; only
      requests for more than `limit` buckets are always refused. */
  class Allocator {
    const answers: (nat, nat) -> bool
    const limit: nat

    /** The number of requests so far. */
    var asked: nat

    /** The answer to request number `i`, if it is for `count` buckets. */
    predicate Grants(i: nat, count: nat) {
      count <= limit && answers(i, count)
    }

    constructor (answers: (nat, nat) -> bool, limit: nat)
      ensures this.answers == answers && this.limit == limit && asked == 0
    {
      this.answers, this.limit, asked := answers, limit, 0;
    }

    method Allocate(count: nat) returns (granted: bool)
      modifies this
      ensures asked == old(asked) + 1 && granted == Grants(old(asked), count)
    {
      granted := count <= limit && answers(asked, count);
      asked := asked + 1;
    }
  }

  /** The table `c` has `count` buckets and cannot take `k`: the load limit is reached, or the probe
      path that `k` needs is exhausted. */
  ghost predicate Refuses<K, V>(c: Model<K, V>, hash: K -> Word64, count: nat, k: K) {
    && WellKeyed(c, hash) && WellChained(c.shape) && |c.shape.meta| == count && k !in c.at
    && (|| 10 * (|c.at| + 1) > 9 * count
        || var h := Home(hash(k), count); Occupied(c.shape, h) && Exhausted(c.shape, c.shape.home[h]))
  }

  /** With `count` buckets the keys of `m`, taken one by one, come to a key that is refused: `c` is
      the table at that moment. */
  ghost predicate TooSmall<K, V>(c: Model<K, V>, hash: K -> Word64, count: nat, m: map<K, V>) {
    && (exists k :: k in m && Refuses(c, hash, count, k))
    && forall j :: j in Contents(c) ==> j in m && m[j] == Contents(c)[j]
  }

  /** `n`, doubled `k` times. */
  function Doubled(n: nat, k: nat): nat {
    if k == 0 then n else 2 * Doubled(n, k - 1)
  }

  /** Requests number `from` and on, one for each element of `small`, were for `first` buckets, twice
      that many, and so on. All were granted but too small, as `small` shows. */
  ghost predicate AllTooSmall<K, V>(a: Allocator, from: nat, first: nat, small: seq<Model<K, V>>,
                                    hash: K -> Word64, m: map<K, V>)
  {
    forall j: nat {:trigger small[j]} :: j < |small| ==>
      a.Grants(from + j, Doubled(first, j)) && TooSmall(small[j], hash, Doubled(first, j), m)
  }

  lemma AllTooSmallSnoc<K, V>(a: Allocator, from: nat, first: nat, small: seq<Model<K, V>>,
                              hash: K -> Word64, m: map<K, V>, crowd: Model<K, V>)
    requires AllTooSmall(a, from, first, small, hash, m)
    requires a.Grants(from + |small|, Doubled(first, |small|))
    requires TooSmall(crowd, hash, Doubled(first, |small|), m)
    ensures AllTooSmall(a, from, first, small + [crowd], hash, m)
    ensures Doubled(first, |small + [crowd]|) == 2 * Doubled(first, |small|)
  {
    hide TooSmall;
    var s := small + [crowd];
    forall j: nat | j < |s|
      ensures a.Grants(from + j, Doubled(first, j)) && TooSmall(s[j], hash, Doubled(first, j), m)
    {
      if j < |small| { assert s[j] == small[j]; }
    }
  }

  /** All these requests, and one more, which was granted exactly if `ok`. */
  ghost predicate Doublings<K, V>(a: Allocator, from: nat, first: nat, small: seq<Model<K, V>>,
                                  hash: K -> Word64, m: map<K, V>, ok: bool)
  {
    && AllTooSmall(a, from, first, small, hash, m)
    && a.Grants(from + |small|, Doubled(first, |small|)) == ok
  }

  lemma TriesEnd<K, V>(a: Allocator, from: nat, first: nat, small: seq<Model<K, V>>, hash: K -> Word64, m: map<K, V>,
                       ok: bool)
    requires AllTooSmall(a, from, first, small, hash, m) && a.Grants(from + |small|, Doubled(first, |small|)) == ok
    ensures Doublings(a, from, first, small, hash, m, ok)
  {
  }

  /** An insertion into a table of `count` buckets that was refused: memory for twice as many, or for 8
      buckets, was requested, and for more while that was too small for `m`. */
  ghost predicate Grown<K, V>(a: Allocator, from: nat, to: nat, count: nat, count': nat, small: seq<Model<K, V>>,
                              hash: K -> Word64, m: map<K, V>, ok: bool)
  {
    var first := if count == 0 then 8 else 2 * count;
    && to == from + |small| + 1
    && Doublings(a, from, first, small, hash, m, ok)
    && (if ok then count' == Doubled(first, |small|) else small == [] ==> count' == count)
    && (|m| <= DISPLACEMENT_LIMIT ==> small == [])
  }

  lemma GrownMore<K, V>(a: Allocator, from: nat, to: nat, count: nat, count': nat, small: seq<Model<K, V>>,
                        hash: K -> Word64, m: map<K, V>, key: K, val: V, ok: bool)
    requires Grown(a, from, to, count, count', small, hash, m, ok) && key !in m
    ensures Grown(a, from, to, count, count', small, hash, m[key := val], ok)
  {
    hide Doublings;
    DoublingsMore(a, from, if count == 0 then 8 else 2 * count, small, hash, m, key, val, ok);
    assert m[key := val].Keys == m.Keys + {key};
    assert |m| == |m.Keys| && |m[key := val]| == |m[key := val].Keys|;
  }

  /** One more round of retrying: the table of `count` buckets is too small, and grows. */
  lemma RetryRound<K, V>(a: Allocator, from: nat, first: nat, small: seq<Model<K, V>>, crowd: Model<K, V>,
                         count: nat, more: seq<Model<K, V>>, to: nat, count': nat,
                         hash: K -> Word64, m: map<K, V>, key: K, val: V, ok: bool)
    requires Doublings(a, from, first, small, hash, m[key := val], true)
    requires count == Doubled(first, |small|) > 0 && key !in m && TooSmall(crowd, hash, count, m[key := val])
    requires Grown(a, from + |small| + 1, to, count, count', more, hash, m, ok)
    ensures Doublings(a, from, first, small + ([crowd] + more), hash, m[key := val], ok)
    ensures to == from + |small + ([crowd] + more)| + 1
    ensures ok ==> count' == Doubled(first, |small + ([crowd] + more)|)
  {
    hide TooSmall, AllTooSmall;
    DoublingsMore(a, from + |small| + 1, 2 * count, more, hash, m, key, val, ok);
    DoublingsCons(a, from + |small|, count, crowd, more, hash, m[key := val], ok);
    DoublingsConcat(a, from, first, small, [crowd] + more, hash, m[key := val], ok);
    DoubledDoubled(first, |small| + 1, |more|);
  }

  /** The same for a whole insertion. */
  lemma GrownRound<K, V>(a: Allocator, from: nat, to: nat, count: nat, count': nat, small: seq<Model<K, V>>,
                         crowd: Model<K, V>, to': nat, count'': nat, more: seq<Model<K, V>>,
                         hash: K -> Word64, m: map<K, V>, key: K, val: V, ok: bool)
    requires Grown(a, from, to, count, count', small, hash, m[key := val], true)
    requires IsPow2(count') && 10 * |m[key := val]| <= 9 * count' && key !in m
    requires TooSmall(crowd, hash, count', m[key := val])
    requires Grown(a, to, to', count', count'', more, hash, m, ok)
    ensures Grown(a, from, to', count, count'', small + ([crowd] + more), hash, m[key := val], ok)
  {
    hide Doublings, TooSmall, IsPow2;
    assert m[key := val] != map[] by { assert key in m[key := val]; }
    RetryRound(a, from, if count == 0 then 8 else 2 * count, small, crowd, count', more, to', count'',
               hash, m, key, val, ok);
    if |m[key := val]| <= DISPLACEMENT_LIMIT { NeverTooSmall(crowd, hash, count', m[key := val]); }
  }

  lemma {:induction false} DoubledDoubled(n: nat, j: nat, k: nat)
    ensures Doubled(Doubled(n, j), k) == Doubled(n, j + k)
  {
    if k > 0 { DoubledDoubled(n, j, k - 1); }
  }

  /** Requests that go on where others ended. */
  lemma DoublingsConcat<K, V>(a: Allocator, from: nat, first: nat, s: seq<Model<K, V>>, t: seq<Model<K, V>>,
                              hash: K -> Word64, m: map<K, V>, ok: bool)
    requires Doublings(a, from, first, s, hash, m, true)
    requires Doublings(a, from + |s|, Doubled(first, |s|), t, hash, m, ok)
    ensures Doublings(a, from, first, s + t, hash, m, ok)
  {
    hide TooSmall;
    forall j: nat | j < |s + t|
      ensures a.Grants(from + j, Doubled(first, j)) && TooSmall((s + t)[j], hash, Doubled(first, j), m)
    {
      if j >= |s| {
        DoubledDoubled(first, |s|, j - |s|);
        assert (s + t)[j] == t[j - |s|];
      } else {
        assert (s + t)[j] == s[j];
      }
    }
    DoubledDoubled(first, |s|, |t|);
  }

  /** A granted request that proves too small, then requests from twice its size on. */
  lemma DoublingsCons<K, V>(a: Allocator, from: nat, first: nat, c: Model<K, V>, t: seq<Model<K, V>>,
                            hash: K -> Word64, m: map<K, V>, ok: bool)
    requires a.Grants(from, first) && TooSmall(c, hash, first, m)
    requires Doublings(a, from + 1, 2 * first, t, hash, m, ok)
    ensures Doublings(a, from, first, [c] + t, hash, m, ok)
  {
    hide TooSmall;
    assert Doubled(first, 0) == first && Doubled(first, 1) == 2 * first;
    forall j: nat | j < |[c] + t|
      ensures a.Grants(from + j, Doubled(first, j)) && TooSmall(([c] + t)[j], hash, Doubled(first, j), m)
    {
      if j > 0 {
        DoubledDoubled(first, 1, j - 1);
        assert ([c] + t)[j] == t[j - 1];
      }
    }
    DoubledDoubled(first, 1, |t|);
  }

  /** What is too small for a map is too small for a map with one more key. */
  lemma DoublingsMore<K, V>(a: Allocator, from: nat, first: nat, small: seq<Model<K, V>>,
                            hash: K -> Word64, m: map<K, V>, key: K, val: V, ok: bool)
    requires Doublings(a, from, first, small, hash, m, ok) && key !in m
    ensures Doublings(a, from, first, small, hash, m[key := val], ok)
  {
    hide Refuses, Contents;
    forall j: nat | j < |small| ensures TooSmall(small[j], hash, Doubled(first, j), m[key := val]) {
      assert TooSmall(small[j], hash, Doubled(first, j), m);
      var k :| k in m && Refuses(small[j], hash, Doubled(first, j), k);
      assert k in m[key := val];
    }
  }

  /** Up to 2047 keys that stay within the load limit, no size is too small. */
  lemma FirstSuffices<K, V>(a: Allocator, from: nat, first: nat, small: seq<Model<K, V>>,
                            hash: K -> Word64, m: map<K, V>, ok: bool)
    requires Doublings(a, from, first, small, hash, m, ok) && IsPow2(first)
    requires |m| <= DISPLACEMENT_LIMIT && 10 * |m| <= 9 * first
    ensures small == []
  {
    if small != [] {
      assert TooSmall(small[0], hash, first, m);
      NeverTooSmall(small[0], hash, first, m);
    }
  }

  lemma NeverTooSmall<K, V>(c: Model<K, V>, hash: K -> Word64, count: nat, m: map<K, V>)
    requires IsPow2(count) && |m| <= DISPLACEMENT_LIMIT && 10 * |m| <= 9 * count
    ensures !TooSmall(c, hash, count, m)
  {
    hide Slot, IsPow2, Exhausted, Home, WellKeyed, Contents;
    if TooSmall(c, hash, count, m) {
      var k :| k in m && Refuses(c, hash, count, k);
      ContentsAt(c, hash, k);
      assert Contents(c).Keys <= m.Keys - {k};
      SubsetSize(Contents(c).Keys, m.Keys - {k});
      assert |m| == |m.Keys| && |c.at| == |c.at.Keys|;
      var h := Home(hash(k), count);
      PlacedIn(c.shape, h);
      NeverExhausted(c, hash, c.shape.home[h]);
      assert false;
    }
  }

  class Table<K(==, 0), V(0)> {
    const hash: K -> Word64
    const allocator: Allocator

    var keyCount: nat
    var bucketsMask: nat
    var buckets: array<Entry<K, V>>
    var metadata: array<Metadatum>

    /** The keys and chains that the arrays are meant to hold. */
    ghost var model: Model<K, V>

    /** The bucket whose key a failed eviction has cut out of its chain. */
    ghost var stray: Option<nat>

    /** What hashes and probes are reduced by; 1 for a table without buckets. */
    function Modulus(): (n: nat)
      reads this
      ensures n > 0
    {
      bucketsMask + 1
    }

    function BucketCount(): nat
      reads this
    {
      bucketsMask + if bucketsMask != 0 then 1 else 0
    }

    /** Sizes of the arrays, and their agreement with the model except for the metadatum of
        bucket `but`. A table without buckets has one empty placeholder metadatum. */
    ghost predicate LaidOutBut(but: int)
      reads this, buckets, metadata
    {
      var n := bucketsMask + 1;
      && IsPow2(n)
      && (if n == 1 then metadata.Length == 1
          else n >= MIN_NONZERO_BUCKET_COUNT && metadata.Length == n + 4 && metadata[n] == STOPPER)
      && buckets.Length == BucketCount()
      && Sized(model.shape) && |model.shape.meta| == n && |model.entries| == buckets.Length
      && (forall i :: 0 <= i < n && i != but ==> metadata[i] == model.shape.meta[i])
      && (forall i :: 0 <= i < buckets.Length ==> buckets[i] == model.entries[i])
    }

    /** What a scan over the metadata relies on: every key is recorded once, at its bucket. */
    ghost predicate Scannable()
      reads this, buckets, metadata
    {
      && LaidOutBut(-1)
      && WellKeyed(model, hash)
      && keyCount == |model.at|
      && 10 * keyCount <= 9 * BucketCount()
    }

    /** The chains as a walk sees them: without the stray key. */
    ghost function Reachable(): Shape
      reads this
    {
      if stray.Some? && stray.value < |model.shape.meta| then Vacate(model.shape, stray.value)
      else model.shape
    }

    ghost predicate Walkable()
      reads this, buckets, metadata
    {
      && Scannable()
      && WellChained(Reachable())
      && (stray.Some? ==> Occupied(model.shape, stray.value) && !model.shape.meta[stray.value].inHome)
    }

    ghost predicate Valid()
      reads this, buckets, metadata
    {
      Walkable() && stray.None?
    }

    ghost function Map(): map<K, V>
      reads this
    {
      Contents(model)
    }

    /** The load-factor check: one more key would exceed 9/10 of the bucket count. */
    predicate Overloaded()
      reads this
    {
      10 * (keyCount + 1) > 9 * BucketCount()
    }

    function HomeOf(key: K): nat
      reads this
    {
      Home(hash(key), Modulus())
    }

    /** The home bucket of `key` contains a key that belongs there. */
    predicate HomeFlagged(key: K)
      reads this, metadata
    {
      HomeOf(key) < metadata.Length && metadata[HomeOf(key)].inHome
    }

    /** There is no room for a key that hashes to `home`: the chain that owns the home bucket can
        neither take another key nor move the one that is there. */
    ghost predicate Blocked(home: nat)
      reads this
      requires Sized(model.shape)
    {
      Occupied(model.shape, home) && Exhausted(model.shape, model.shape.home[home])
    }

    /** NAME_init */
    constructor (hash: K -> Word64, allocator: Allocator)
      ensures Valid() && Map() == map[] && keyCount == 0 && BucketCount() == 0
      ensures this.hash == hash && this.allocator == allocator
      ensures fresh(buckets) && fresh(metadata)
    {
      this.hash, this.allocator := hash, allocator;
      keyCount, bucketsMask := 0, 0;
      buckets := new Entry<K, V>[0];
      metadata := new Metadatum[1](_ => EMPTY);
      model := Model(Shape([EMPTY], [0], [0]), [], map[]);
      stray := None;
      new;
      assert 1 == Pow2(0);
    }

    /** NAME_find_first_empty */
    method FindFirstEmpty(home: nat) returns (found: bool, empty: nat, displacement: Displacement)
      requires IsPow2(Modulus()) && bucketsMask < metadata.Length
      ensures found ==>
                && 1 <= displacement < DISPLACEMENT_LIMIT
                && empty == Slot(Modulus(), home, displacement)
                && (2 * empty - 2 * home - displacement * (displacement + 1)) % (2 * Modulus()) == 0
                && metadata[empty] == EMPTY
                && (home <= bucketsMask && metadata[home] != EMPTY ==> displacement <= bucketsMask)
      ensures found ==> forall d: nat :: 1 <= d < displacement ==>
                metadata[Slot(Modulus(), home, d)] != EMPTY
      ensures !found ==> forall d: nat :: 1 <= d < DISPLACEMENT_LIMIT ==>
                metadata[Slot(Modulus(), home, d)] != EMPTY
    {
      var n := Modulus();
      displacement := 1;
      var linearDisplacement := 1;
      while true
        invariant 1 <= displacement < DISPLACEMENT_LIMIT
        invariant linearDisplacement == Quadratic(displacement)
        invariant forall d: nat :: 1 <= d < displacement ==> metadata[Slot(n, home, d)] != EMPTY
        decreases DISPLACEMENT_LIMIT - displacement
      {
        empty := (home + linearDisplacement) % n;
        assert empty == Slot(n, home, displacement);
        if metadata[empty] == EMPTY {
          found := true;
          SlotLaw(n, home, displacement);
          if home < n && metadata[home] != EMPTY {
            ghost var d := SlotSurjective(n, home, empty);
            SlotAtHome(n, home);
          }
          return;
        }
        displacement := displacement + 1;
        if displacement == DISPLACEMENT_LIMIT {
          return false, empty, displacement;
        }
        QuadraticStep(displacement - 1);
        linearDisplacement := linearDisplacement + displacement;
      }
    }

    /** `view` is a well-chained shape that the metadata show at every bucket occupied in it. */
    ghost predicate Shows(view: Shape)
      reads this, metadata
    {
      && WellChained(view)
      && |view.meta| == Modulus() <= metadata.Length
      && forall i :: 0 <= i < |view.meta| && view.meta[i] != EMPTY ==> metadata[i] == view.meta[i]
    }

    /** NAME_find_insert_location_in_chain */
    method FindInsertLocation(home: nat, displacement: Displacement, ghost view: Shape)
      returns (candidate: nat)
      requires Shows(view) && Holds(view, home, home, 0)
      requires 1 <= displacement < DISPLACEMENT_LIMIT
      requires !Occupied(view, Slot(|view.meta|, home, displacement))
      ensures Occupied(view, candidate) && view.home[candidate] == home
      ensures view.disp[candidate] < displacement < view.meta[candidate].next
    {
      hide Slot;
      candidate := home;
      while true
        invariant Occupied(view, candidate) && view.home[candidate] == home
        invariant view.disp[candidate] < displacement
        decreases DISPLACEMENT_LIMIT - view.disp[candidate]
      {
        var next := metadata[candidate].next;
        if next > displacement {
          return;
        }
        assert Placed(view, candidate);
        candidate := Slot(Modulus(), home, next);
      }
    }

    /** The predecessor search shared by eviction and erasure. */
    method FindPredecessor(home: nat, bucket: nat) returns (prev: nat)
      requires LaidOutBut(-1) && WellChained(model.shape)
      requires Occupied(model.shape, bucket)
      requires model.shape.home[bucket] == home && model.shape.disp[bucket] > 0
      ensures Occupied(model.shape, prev) && model.shape.home[prev] == home
      ensures model.shape.meta[prev].next == model.shape.disp[bucket]
    {
      hide Slot;
      ghost var s := model.shape;
      assert Placed(s, bucket);
      prev := home;
      while true
        invariant Occupied(s, prev) && s.home[prev] == home && s.disp[prev] < s.disp[bucket]
        decreases s.disp[bucket] - s.disp[prev]
      {
        assert Placed(s, prev) && Ordered(s, prev, bucket);
        var next := Slot(Modulus(), home, metadata[prev].next);
        if next == bucket {
          return;
        }
        if s.disp[next] == s.disp[bucket] { SameDisplacement(s, next, bucket); }
        prev := next;
      }
    }

    /** The first half of NAME_evict: cut the key in `bucket` out of its chain. */
    method Disconnect(bucket: nat) returns (home: nat)
      requires Valid() && Occupied(model.shape, bucket) && !model.shape.meta[bucket].inHome
      modifies this`model, this`stray, metadata
      ensures Walkable() && stray == Some(bucket)
      ensures model.entries == old(model.entries) && model.at == old(model.at)
      ensures AgreeBut(old(model.shape), model.shape, -1)
      ensures SameChainsBut(old(model.shape), model.shape, home)
      ensures home == model.shape.home[bucket] && Holds(Reachable(), home, home, 0)
    {
      hide Slot, WellChained, WellKeyed, AgreeBut, SameChainsBut, Home, HashFrag;
      PlacedIn(model.shape, bucket);
      KeyedAt(model, hash, bucket);
      home := HomeOf(buckets[bucket].key);
      assert buckets[bucket] == model.entries[bucket];
      var prev := FindPredecessor(home, bucket);
      CutKeyed(model, hash, prev, bucket);
      metadata[prev] := metadata[prev].(next := metadata[bucket].next);
      model := model.(shape := Cut(model.shape, prev, bucket));
      stray := Some(bucket);
      PlacedIn(old(model.shape), prev);
    }

    /** The writes that put an entry into bucket `empty` and link it behind `prev`. */
    method PutLinked(entry: Entry<K, V>, frag: Nibble, prev: nat, empty: nat, displacement: Displacement)
      requires prev < metadata.Length && empty < metadata.Length && empty < buckets.Length && prev != empty
      modifies metadata, buckets
      ensures buckets[empty] == entry
      ensures forall i :: 0 <= i < buckets.Length && i != empty ==> buckets[i] == old(buckets[i])
      ensures metadata[empty] == Metadatum(frag, false, old(metadata[prev].next))
      ensures metadata[prev] == old(metadata[prev]).(next := displacement)
      ensures forall i :: 0 <= i < metadata.Length && i != empty && i != prev ==> metadata[i] == old(metadata[i])
    {
      buckets[empty] := entry;
      metadata[empty] := Metadatum(frag, false, metadata[prev].next);
      metadata[prev] := metadata[prev].(next := displacement);
    }

    /** The second half of NAME_evict: link the key that was cut out of its chain at `bucket` again,
        at the empty bucket found for it. The metadatum of `bucket` is left for the caller. */
    method Reattach(bucket: nat, home: nat, empty: nat, displacement: Displacement)
      requires Walkable() && stray == Some(bucket)
      requires home == model.shape.home[bucket] && Holds(Reachable(), home, home, 0)
      requires empty < Modulus() && !Occupied(model.shape, empty)
      requires 1 <= displacement < DISPLACEMENT_LIMIT && displacement < Modulus()
      requires Slot(Modulus(), home, displacement) == empty
      modifies this`model, this`stray, metadata, buckets
      ensures LaidOutBut(bucket) && WellKeyed(model, hash) && WellChained(model.shape)
      ensures stray.None? && !Occupied(model.shape, bucket)
      ensures Map() == old(Map()) && |model.at| == |old(model.at)|
      ensures SameChainsBut(old(model.shape), model.shape, home)
      ensures bucket < |old(model.entries)| && model.at == old(model.at)[old(model.entries)[bucket].key := empty]
      ensures old(model.entries)[bucket].key in old(model.at)
      ensures old(model.at)[old(model.entries)[bucket].key] == bucket
    {
      hide Slot, WellChained, WellKeyed, SameChainsBut, Home, HashFrag, Contents, IsPow2;
      KeyedAt(model, hash, bucket);
      var prev := FindInsertLocation(home, displacement, Reachable());
      ReattachKeyed(model, hash, bucket, prev, empty, displacement);
      PutLinked(buckets[bucket], metadata[bucket].frag, prev, empty, displacement);
      model := Reattached(model, bucket, prev, empty, displacement);
      stray := None;
    }

    /** NAME_evict: moves the key in `bucket`, which belongs elsewhere, to the first empty bucket on
        its own probe path, and changes no other chain. On failure the key is still in `bucket` but
        has lost its place in its chain. */
    method Evict(bucket: nat) returns (ok: bool)
      requires Valid() && Occupied(model.shape, bucket) && !model.shape.meta[bucket].inHome
      modifies this`model, this`stray, metadata, buckets
      ensures ok <==> !old(Exhausted(model.shape, model.shape.home[bucket]))
      ensures ok ==>
                && LaidOutBut(bucket) && WellKeyed(model, hash) && WellChained(model.shape)
                && stray.None? && !Occupied(model.shape, bucket)
                && Map() == old(Map()) && |model.at| == |old(model.at)|
                && SameChainsBut(old(model.shape), model.shape, old(model.shape.home[bucket]))
                && bucket < |old(model.entries)|
                && var k := old(model.entries)[bucket].key;
                && k in model.at && model.at == old(model.at)[k := model.at[k]]
                && k in old(model.at) && old(model.at)[k] == bucket
                && !Occupied(old(model.shape), model.at[k])
      ensures !ok ==>
                && Walkable() && stray == Some(bucket)
                && model.entries == old(model.entries) && model.at == old(model.at)
                && AgreeBut(old(model.shape), model.shape, -1)
                && SameChainsBut(old(model.shape), model.shape, old(model.shape.home[bucket]))
    {
      hide Slot, WellChained, WellKeyed, SameChainsBut, IsPow2, Contents;
      var home := Disconnect(bucket);
      ContentsIgnoresShape(old(model), model.shape);
      assert model == old(model).(shape := model.shape);
      assert SameKey(old(model.shape), model.shape, bucket);
      ExhaustedAgree(old(model.shape), model.shape, home);
      var found, empty, displacement := FindFirstEmpty(home);
      if !found {
        assert forall d: nat :: 1 <= d < DISPLACEMENT_LIMIT ==>
            Occupied(model.shape, Slot(|model.shape.meta|, home, d));
        return false;
      }
      assert SameKey(old(model.shape), model.shape, empty);
      label cut:
      Reattach(bucket, home, empty, displacement);
      SameChainsTransitive(old(model.shape), old@cut(model.shape), model.shape, home);
      ok := true;
    }

    /** The walk along a chain in search of a key, shared by lookup and insertion. */
    method Search(key: K, home: nat) returns (found: bool, bucket: nat)
      requires Walkable() && home == HomeOf(key) && Holds(Reachable(), home, home, 0)
      ensures found <==> key in model.at && stray != Some(model.at[key])
      ensures found ==> bucket == model.at[key] && bucket < Modulus()
    {
      hide Slot, WellChained, WellKeyed, Home, HashFrag, IsPow2;
      ghost var view := Reachable();
      ghost var present := key in model.at && stray != Some(model.at[key]);
      if key in model.at { LocatedIn(model, hash, key); KeyedAt(model, hash, model.at[key]); }
      bucket := home;
      while true
        invariant Occupied(view, bucket) && view.home[bucket] == home
        invariant present ==> view.disp[bucket] <= view.disp[model.at[key]]
        decreases DISPLACEMENT_LIMIT - view.disp[bucket]
      {
        KeyedAt(model, hash, bucket);
        PlacedIn(view, bucket);
        if metadata[bucket].frag == HashFrag(hash(key)) && buckets[bucket].key == key {
          return true, bucket;
        }
        if present {
          PlacedIn(view, model.at[key]);
          OrderedIn(view, bucket, model.at[key]);
        }
        var displacement := metadata[bucket].next;
        if displacement == DISPLACEMENT_LIMIT {
          return false, bucket;
        }
        bucket := Slot(Modulus(), home, displacement);
      }
    }

    /** A key is reachable only if its home bucket is flagged. */
    lemma FlaggedHome(key: K)
      requires Walkable()
      ensures key in model.at && stray != Some(model.at[key]) ==> metadata[HomeOf(key)].inHome
      ensures metadata[HomeOf(key)].inHome ==> Holds(Reachable(), HomeOf(key), HomeOf(key), 0)
    {
      hide Slot, WellChained, WellKeyed, Home, HashFrag, IsPow2;
      var h, view := HomeOf(key), Reachable();
      if key in model.at && stray != Some(model.at[key]) {
        LocatedIn(model, hash, key);
        KeyedAt(model, hash, model.at[key]);
        PlacedIn(view, model.at[key]);
        PlacedIn(view, h);
      }
      if metadata[h].inHome {
        PlacedIn(view, h);
        FlagMeansHome(view, h);
      }
    }

    /** NAME_get */
    method Get(key: K) returns (itr: Iterator)
      requires Walkable()
      ensures !itr.IsEnd() <==> key in model.at && stray != Some(model.at[key])
      ensures !itr.IsEnd() ==> itr == Iterator(model.at[key], Modulus(), Some(HomeOf(key)))
      ensures Valid() ==> (!itr.IsEnd() <==> key in Map())
      ensures !itr.IsEnd() ==>
                itr.bucket < buckets.Length && key in Map() && buckets[itr.bucket] == Entry(key, Map()[key])
    {
      hide Slot, WellChained, WellKeyed, Home, HashFrag, IsPow2, Contents;
      FlaggedHome(key);
      ContentsAt(model, hash, key);
      var home := HomeOf(key);
      if !metadata[home].inHome {
        return END_ITERATOR;
      }
      var found, bucket := Search(key, home);
      if !found {
        return END_ITERATOR;
      }
      itr := Iterator(bucket, Modulus(), Some(home));
    }

    /** The end of case 1 of NAME_insert_raw: the new key takes its vacant home bucket. */
    method Settle(key: K, val: V, home: nat)
      requires LaidOutBut(home) && WellKeyed(model, hash) && WellChained(model.shape) && stray.None?
      requires home == HomeOf(key) && !Occupied(model.shape, home)
      requires key !in model.at && keyCount == |model.at| && !Overloaded()
      modifies this`keyCount, this`model, metadata, buckets
      ensures Valid() && keyCount == old(keyCount) + 1
      ensures model.at == old(model.at)[key := home] && Map() == old(Map())[key := val]
    {
      hide Slot, WellChained, WellKeyed, Home, HashFrag, IsPow2, Contents;
      BeginKeyed(model, hash, home, key, val);
      buckets[home] := Entry(key, val);
      metadata[home] := Metadatum(HashFrag(hash(key)), true, DISPLACEMENT_LIMIT);
      keyCount := keyCount + 1;
      model := Placing(model, Begin(model.shape, home, HashFrag(hash(key))), home, key, val);
    }

    /** The end of case 2 of NAME_insert_raw: the new key goes to the empty bucket found for it and
        is linked into the chain of its home. */
    method Append(key: K, val: V, home: nat, empty: nat, displacement: Displacement)
      requires Valid() && home == HomeOf(key) && Holds(model.shape, home, home, 0)
      requires key !in model.at && !Overloaded()
      requires empty < Modulus() && !Occupied(model.shape, empty)
      requires 1 <= displacement < DISPLACEMENT_LIMIT && displacement < Modulus()
      requires Slot(Modulus(), home, displacement) == empty
      modifies this`keyCount, this`model, metadata, buckets
      ensures Valid() && keyCount == old(keyCount) + 1
      ensures model.at == old(model.at)[key := empty] && Map() == old(Map())[key := val]
    {
      hide Slot, WellChained, WellKeyed, Home, HashFrag, IsPow2, Contents;
      var prev := FindInsertLocation(home, displacement, model.shape);
      LinkKeyed(model, hash, prev, empty, displacement, key, val);
      PutLinked(Entry(key, val), HashFrag(hash(key)), prev, empty, displacement);
      keyCount := keyCount + 1;
      model := Placing(model, Link(model.shape, home, prev, empty, displacement, HashFrag(hash(key))), empty, key, val);
    }

    /** Nothing about the keys has changed, and there is room for no more: the failure of
        NAME_insert_raw. */
    twostate predicate Refused()
      reads this, buckets, metadata
    {
      && Walkable() && keyCount == old(keyCount)
      && model.entries == old(model.entries) && model.at == old(model.at) && Map() == old(Map())
    }

    /** Case 1 of NAME_insert_raw: the home bucket is empty or contains a key that does not belong
        there. */
    method InsertAtHome(key: K, val: V, home: nat) returns (ok: bool)
      requires Valid() && home == HomeOf(key) && !model.shape.meta[home].inHome
      requires key !in model.at
      modifies this`keyCount, this`model, this`stray, metadata, buckets
      ensures ok <==> !old(Overloaded() || Blocked(home))
      ensures ok ==>
                && Valid() && keyCount == old(keyCount) + 1 && Map() == old(Map())[key := val]
                && key in model.at && model.at[key] == home && OthersStay(old(model.at), model.at, home)
      ensures !ok ==> Refused()
      ensures !ok ==> if old(Overloaded()) then model == old(model) && stray.None? else stray == Some(home)
    {
      hide Slot, WellChained, WellKeyed, Home, HashFrag, IsPow2, Contents, AgreeBut;
      if Overloaded() {
        return false;
      }
      if metadata[home] != EMPTY {
        ok := Evict(home);
        if !ok {
          ContentsIgnoresShape(old(model), model.shape);
          assert model == old(model).(shape := model.shape);
          return;
        }
      }
      Settle(key, val, home);
      ok := true;
    }

    /** The rest of case 2 of NAME_insert_raw, for a key that the chain of `home` does not have. */
    method InsertIntoChain(key: K, val: V, home: nat) returns (ok: bool, bucket: nat)
      requires Valid() && home == HomeOf(key) && Holds(model.shape, home, home, 0)
      requires key !in model.at
      modifies this`keyCount, this`model, metadata, buckets
      ensures ok <==> !old(Overloaded() || Blocked(home))
      ensures ok ==>
                && Valid() && keyCount == old(keyCount) + 1 && Map() == old(Map())[key := val]
                && key in model.at && model.at[key] == bucket < Modulus() && OthersStay(old(model.at), model.at, home)
      ensures !ok ==> Refused() && model == old(model)
    {
      hide Slot, WellChained, WellKeyed, Home, HashFrag, IsPow2, Contents;
      if Overloaded() {
        return false, 0;
      }
      var found, empty, displacement := FindFirstEmpty(home);
      if !found {
        assert forall d: nat :: 1 <= d < DISPLACEMENT_LIMIT ==>
            Occupied(model.shape, Slot(|model.shape.meta|, home, d));
        return false, 0;
      }
      Append(key, val, home, empty, displacement);
      return true, empty;
    }

    /** NAME_insert_raw. It fails exactly when the key is absent and either the load limit is reached
        or the probe path it needs is exhausted; only a failed eviction leaves a stray key. */
    method InsertRaw(key: K, val: V, unique: bool, replace: bool) returns (itr: Iterator)
      requires Valid()
      requires unique ==> key !in model.at
      modifies this`keyCount, this`model, this`stray, metadata, buckets
      ensures itr.IsEnd() <==> old(key !in model.at && (Overloaded() || Blocked(HomeOf(key))))
      ensures key in old(model.at) ==>
                && Valid() && keyCount == old(keyCount)
                && model.shape == old(model.shape) && model.at == old(model.at)
                && Map() == if replace then old(Map())[key := val] else old(Map())
      ensures key !in old(model.at) && !itr.IsEnd() ==>
                && Valid() && keyCount == old(keyCount) + 1
                && Map() == old(Map())[key := val]
                && OthersStay(old(model.at), model.at, HomeOf(key))
      ensures !itr.IsEnd() ==>
                key in model.at && itr == Iterator(model.at[key], Modulus(), Some(HomeOf(key)))
      ensures itr.IsEnd() ==> Refused()
      ensures itr.IsEnd() ==> (HomeFlagged(key) <==> old(HomeFlagged(key)))
      ensures itr.IsEnd() ==>
                if old(Overloaded() || model.shape.meta[HomeOf(key)].inHome) then model == old(model) && stray.None?
                else stray == Some(HomeOf(key))
      ensures itr.IsEnd() ==> (Valid() <==> Overloaded() || HomeFlagged(key))
    {
      hide Slot, WellChained, WellKeyed, Home, HashFrag, IsPow2, Contents;
      FlaggedHome(key);
      var home := HomeOf(key);
      if !metadata[home].inHome {
        var ok := InsertAtHome(key, val, home);
        return if ok then Iterator(home, Modulus(), Some(home)) else END_ITERATOR;
      }
      if !unique {
        var found, bucket := Search(key, home);
        if found {
          if replace {
            ReplaceKeyed(model, hash, key, val);
            buckets[bucket] := Entry(key, val);
            model := model.(entries := model.entries[bucket := Entry(key, val)]);
          }
          return Iterator(bucket, Modulus(), Some(home));
        }
      }
      var ok, bucket := InsertIntoChain(key, val, home);
      itr := if ok then Iterator(bucket, Modulus(), Some(home)) else END_ITERATOR;
    }

    /** The walk from an inner key to the last key of its chain, and the one before that. */
    method FindLast(home: nat, bucket: nat) returns (prev: nat, last: nat)
      requires LaidOutBut(-1) && WellChained(model.shape) && Occupied(model.shape, bucket)
      requires model.shape.home[bucket] == home && model.shape.meta[bucket].next < DISPLACEMENT_LIMIT
      ensures Occupied(model.shape, prev) && Occupied(model.shape, last)
      ensures model.shape.home[prev] == home == model.shape.home[last]
      ensures model.shape.meta[prev].next == model.shape.disp[last]
      ensures model.shape.meta[last].next == DISPLACEMENT_LIMIT && last != bucket
    {
      hide Slot, WellChained, IsPow2;
      ghost var s := model.shape;
      PlacedIn(s, bucket);
      last := bucket;
      while true
        invariant Occupied(s, last) && s.home[last] == home && s.meta[last].next < DISPLACEMENT_LIMIT
        invariant s.disp[bucket] <= s.disp[last]
        decreases DISPLACEMENT_LIMIT - s.disp[last]
      {
        prev := last;
        PlacedIn(s, prev);
        last := Slot(Modulus(), home, metadata[prev].next);
        PlacedIn(s, last);
        if metadata[last].next == DISPLACEMENT_LIMIT {
          return;
        }
      }
    }

    /** Case 1 of NAME_erase_itr_raw: the key is the only one in its chain. */
    method EraseOnly(b: nat)
      requires Valid() && Occupied(model.shape, b)
      requires metadata[b].inHome && metadata[b].next == DISPLACEMENT_LIMIT
      modifies this`keyCount, this`model, metadata
      ensures Valid() && keyCount == old(keyCount) - 1
      ensures Erased(old(model), model, b, b)
      ensures b < |old(model.entries)| && Map() == old(Map()) - {old(model.entries)[b].key}
    {
      hide Slot, WellChained, WellKeyed, Home, HashFrag, IsPow2, Contents, Erased;
      EraseSole(model, hash, b);
      keyCount := keyCount - 1;
      metadata[b] := EMPTY;
      model := Removing(model, Vacate(model.shape, b), b);
    }

    /** Case 2 of NAME_erase_itr_raw: the key is the last of a longer chain. */
    method EraseTail(home: nat, b: nat)
      requires Valid() && Occupied(model.shape, b) && home == model.shape.home[b]
      requires model.shape.disp[b] > 0 && metadata[b].next == DISPLACEMENT_LIMIT
      modifies this`keyCount, this`model, metadata
      ensures Valid() && keyCount == old(keyCount) - 1
      ensures Erased(old(model), model, b, b)
      ensures b < |old(model.entries)| && Map() == old(Map()) - {old(model.entries)[b].key}
    {
      hide Slot, WellChained, WellKeyed, Home, HashFrag, IsPow2, Contents, Erased;
      var prev := FindPredecessor(home, b);
      EraseLast(model, hash, prev, b);
      keyCount := keyCount - 1;
      metadata[prev] := metadata[prev].(next := DISPLACEMENT_LIMIT);
      metadata[b] := EMPTY;
      model := Removing(model, Unlink(model.shape, prev, b), b);
    }

    /** The writes of case 3: `last` moves to `b`, and the chain now ends at `prev`. */
    method MoveLast(prev: nat, last: nat, b: nat)
      requires prev < metadata.Length && last < metadata.Length && b < metadata.Length
      requires last < buckets.Length && b < buckets.Length && prev != last && b != last
      modifies metadata, buckets
      ensures forall i :: 0 <= i < buckets.Length && i != b ==> buckets[i] == old(buckets[i])
      ensures buckets[b] == old(buckets[last])
      ensures forall i :: 0 <= i < metadata.Length && i != prev && i != b && i != last ==>
                metadata[i] == old(metadata[i])
      ensures metadata[last] == EMPTY
      ensures metadata[b] ==
                Metadatum(old(metadata[last].frag), old(metadata[b].inHome),
                          if b == prev then DISPLACEMENT_LIMIT else old(metadata[b].next))
      ensures b != prev ==> metadata[prev] == old(metadata[prev]).(next := DISPLACEMENT_LIMIT)
    {
      buckets[b] := buckets[last];
      metadata[b] := metadata[b].(frag := metadata[last].frag);
      metadata[prev] := metadata[prev].(next := DISPLACEMENT_LIMIT);
      metadata[last] := EMPTY;
    }

    /** Case 3 of NAME_erase_itr_raw: the last key of the chain takes the place of the erased one. */
    method EraseAndSwap(home: nat, b: nat) returns (last: nat)
      requires Valid() && Occupied(model.shape, b) && home == model.shape.home[b]
      requires metadata[b].next < DISPLACEMENT_LIMIT
      modifies this`keyCount, this`model, metadata, buckets
      ensures Valid() && keyCount == old(keyCount) - 1
      ensures last != b && Erased(old(model), model, b, last)
      ensures b < |old(model.entries)| && Map() == old(Map()) - {old(model.entries)[b].key}
    {
      hide Slot, WellChained, WellKeyed, Home, HashFrag, IsPow2, Contents, Erased, KeyAt, Swapped;
      var prev;
      prev, last := FindLast(home, b);
      EraseInner(model, hash, prev, last, b);
      PlacedIn(model.shape, prev);
      SwappedBuckets(model, prev, last, b);
      ghost var m := Swapped(model, prev, last, b);
      MoveLast(prev, last, b);
      keyCount := keyCount - 1;
      model := m;
    }

    /** NAME_erase_itr_raw: erases the key in `itr.bucket`. The bucket that becomes empty is
        `emptied`; if that is another one, the last key of the chain has moved from it into
        `itr.bucket`. `advance` tells whether an iteration should now go on to the next bucket. */
    method EraseRaw(itr: Iterator) returns (advance: bool, ghost emptied: nat)
      requires Valid() && Occupied(model.shape, itr.bucket)
      requires itr.home.Some? ==> itr.home.value == model.shape.home[itr.bucket]
      modifies this`keyCount, this`model, metadata, buckets
      ensures Valid() && keyCount == old(keyCount) - 1
      ensures Erased(old(model), model, itr.bucket, emptied)
      ensures itr.bucket < |old(model.entries)| && Map() == old(Map()) - {old(model.entries)[itr.bucket].key}
      ensures advance <==> emptied <= itr.bucket
    {
      hide Slot, WellChained, WellKeyed, Home, HashFrag, IsPow2, Contents, Erased;
      var b := itr.bucket;
      KeyedAt(model, hash, b);
      PlacedIn(model.shape, b);
      FlagMeansHome(model.shape, b);
      if metadata[b].inHome && metadata[b].next == DISPLACEMENT_LIMIT {
        EraseOnly(b);
        return true, b;
      }
      assert buckets[b] == model.entries[b];
      var home := if itr.home.Some? then itr.home.value
                  else if metadata[b].inHome then b else HomeOf(buckets[b].key);
      if metadata[b].next == DISPLACEMENT_LIMIT {
        EraseTail(home, b);
        return true, b;
      }
      var last := EraseAndSwap(home, b);
      return last < b, last;
    }

    /** NAME_erase */
    method Erase(key: K) returns (erased: bool)
      requires Valid()
      modifies this`keyCount, this`model, metadata, buckets
      ensures Valid() && Map() == old(Map()) - {key}
      ensures erased <==> key in old(Map())
      ensures keyCount == old(keyCount) - if erased then 1 else 0
    {
      hide Slot, WellChained, WellKeyed, Home, HashFrag, IsPow2, Contents;
      ContentsAt(model, hash, key);
      var itr := Get(key);
      if itr.IsEnd() {
        assert old(Map()) - {key} == old(Map());
        return false;
      }
      LocatedIn(model, hash, key);
      KeyedAt(model, hash, itr.bucket);
      var _, _ := EraseRaw(itr);
      return true;
    }

    // ---- Growing ----

    /** With at most 2046 keys and below the load limit, no insertion is blocked. */
    lemma SmallTableNeverBlocked(home: nat)
      requires Valid() && keyCount < DISPLACEMENT_LIMIT && !Overloaded()
      ensures !Blocked(home)
    {
      hide Slot, WellKeyed, IsPow2, Exhausted;
      if Occupied(model.shape, home) {
        PlacedIn(model.shape, home);
        NeverExhausted(model, hash, model.shape.home[home]);
      }
    }

    /** The table that NAME_rehash fills: all buckets empty, the stopper behind them. */
    constructor WithBuckets(hash: K -> Word64, allocator: Allocator, bucketCount: nat)
      requires IsPow2(bucketCount) && bucketCount >= MIN_NONZERO_BUCKET_COUNT
      ensures Valid() && Map() == map[] && keyCount == 0 && BucketCount() == bucketCount
      ensures this.hash == hash && this.allocator == allocator
      ensures fresh(buckets) && fresh(metadata)
    {
      this.hash, this.allocator := hash, allocator;
      keyCount, bucketsMask := 0, bucketCount - 1;
      var entries := new Entry<K, V>[bucketCount];
      buckets := entries;
      metadata := new Metadatum[bucketCount + 4](_ => EMPTY);
      model := Model(Blank(bucketCount), entries[..], map[]);
      stray := None;
      new;
      hide WellChained, WellKeyed, Contents, IsPow2, Slot, Home, Exhausted, Holds;
      metadata[bucketCount] := STOPPER;
      assert LaidOutBut(-1);
      BlankModel(model, hash, bucketCount);
    }

    /** The scan of NAME_rehash: puts every key of this table into the empty table `t`, until one
        does not fit; then `crowd` is the table that refused it. */
    method Transfer(t: Table<K, V>) returns (ghost crowd: Model<K, V>)
      requires Scannable() && t.Valid() && t.Map() == map[] && t.hash == hash
      requires t != this && t.buckets != buckets && t.metadata != metadata
      modifies t`keyCount, t`model, t`stray, t.metadata, t.buckets
      ensures t.keyCount <= keyCount
      ensures t.keyCount == keyCount ==> t.Valid() && t.Map() == Map()
      ensures t.keyCount < keyCount ==> TooSmall(crowd, hash, t.Modulus(), Map())
    {
      hide Slot, WellChained, WellKeyed, IsPow2, Contents, Before, Home, HashFrag, TooSmall, LaidOutBut, Map;
      BeforeEnds();
      crowd := t.model;
      for bucket := 0 to BucketCount()
        invariant Scannable() && t.Valid() && t.Map() == Before(model, bucket)
      {
        Skips(bucket);
        if metadata[bucket] != EMPTY {
          crowd := t.model;
          var itr := CarryOver(t, bucket);
          if itr.IsEnd() {
            return;
          }
        }
      }
      SameKeys(t);
    }

    lemma BeforeEnds()
      requires Scannable()
      ensures Before(model, 0) == map[] && Before(model, BucketCount()) == Map()
    {
      BeforeAll(model, hash);
    }

    lemma SameKeys(t: Table<K, V>)
      requires Scannable() && t.Scannable() && t.hash == hash && t.Map() == Map()
      ensures t.keyCount == keyCount
    {
      BeforeAll(model, hash);
      SameSize(t.model, hash, Contents(model));
    }

    lemma Skips(bucket: nat)
      requires Scannable() && bucket < BucketCount()
      ensures bucket < metadata.Length
      ensures metadata[bucket] == EMPTY ==> Before(model, bucket + 1) == Before(model, bucket)
    {
      hide WellKeyed, IsPow2, Before;
      BeforeStep(model, hash, bucket);
    }

    /** One insertion of that scan. */
    method CarryOver(t: Table<K, V>, bucket: nat) returns (itr: Iterator)
      requires Scannable() && t.Valid() && t.hash == hash && bucket < BucketCount()
      requires t != this && t.buckets != buckets && t.metadata != metadata
      requires t.Map() == Before(model, bucket) && bucket < metadata.Length && metadata[bucket] != EMPTY
      modifies t`keyCount, t`model, t`stray, t.metadata, t.buckets
      ensures !itr.IsEnd() ==> t.Valid() && t.Map() == Before(model, bucket + 1)
      ensures itr.IsEnd() ==> t.keyCount < keyCount && TooSmall(old(t.model), hash, t.Modulus(), Map())
    {
      hide Slot, WellChained, WellKeyed, IsPow2, Contents, Before, Home, HashFrag, TooSmall, Exhausted, LaidOutBut;
      Carries(t, bucket);
      itr := t.InsertRaw(buckets[bucket].key, buckets[bucket].val, true, false);
    }

    /** The next key to be carried over is new to `t`, and if `t` refuses it, it is too small. */
    lemma Carries(t: Table<K, V>, bucket: nat)
      requires Scannable() && t.Valid() && t.hash == hash && bucket < BucketCount()
      requires t.Map() == Before(model, bucket)
      ensures bucket < buckets.Length && bucket < metadata.Length
      ensures metadata[bucket] != EMPTY ==>
                var k := buckets[bucket].key;
                && k !in t.model.at && t.keyCount < keyCount
                && Before(model, bucket + 1) == Before(model, bucket)[k := buckets[bucket].val]
                && Sized(t.model.shape)
                && (t.Overloaded() || t.Blocked(t.HomeOf(k)) ==> TooSmall(t.model, hash, t.Modulus(), Map()))
    {
      hide Slot, WellChained, WellKeyed, IsPow2, Contents, Before, Home, HashFrag, TooSmall, Exhausted;
      BeforeStep(model, hash, bucket);
      if metadata[bucket] != EMPTY {
        SameSize(t.model, hash, Before(model, bucket));
        BeforeSmaller(model, hash, bucket);
        ContentsAt(t.model, hash, buckets[bucket].key);
        if t.Overloaded() || t.Blocked(t.HomeOf(buckets[bucket].key)) {
          t.RefusesKey(buckets[bucket].key);
          TooSmallAt(model, hash, bucket, t.model, t.Modulus());
        }
      }
    }

    /** A table in which an insertion fails refuses the key. */
    lemma RefusesKey(key: K)
      requires Valid() && key !in model.at
      requires Overloaded() || Blocked(HomeOf(key))
      ensures Refuses(model, hash, Modulus(), key)
    {
    }

    /** One round of NAME_rehash: a new table of the given size with as many keys as fit. */
    method Rebuild(count: nat) returns (t: Table<K, V>, ghost crowd: Model<K, V>)
      requires Scannable() && IsPow2(count) && count >= MIN_NONZERO_BUCKET_COUNT
      ensures fresh(t) && fresh(t.buckets) && fresh(t.metadata) && t.hash == hash
      ensures t.keyCount <= keyCount && t.BucketCount() == count
      ensures t.keyCount == keyCount ==> t.Valid() && t.Map() == Map()
      ensures t.keyCount < keyCount ==> TooSmall(crowd, hash, count, Map())
    {
      hide WellChained, WellKeyed, Contents, IsPow2, TooSmall;
      t := new Table.WithBuckets(hash, allocator, count);
      crowd := Transfer(t);
    }

    /** `*table = new_table` */
    method Adopt(t: Table<K, V>)
      requires t.Valid() && t.hash == hash && t != this
      modifies this
      ensures Valid() && buckets == t.buckets && metadata == t.metadata
      ensures keyCount == t.keyCount && BucketCount() == t.BucketCount() && Map() == t.Map()
    {
      hide WellChained, WellKeyed, Contents, IsPow2, Slot;
      keyCount, bucketsMask, buckets, metadata := t.keyCount, t.bucketsMask, t.buckets, t.metadata;
      model, stray := t.model, None;
    }

    /** A round of the loop of NAME_rehash: a request for `count` buckets, and the keys put there. */
    method RehashTo(count: nat) returns (granted: bool, ok: bool, ghost crowd: Model<K, V>)
      requires Scannable() && IsPow2(count) && count >= MIN_NONZERO_BUCKET_COUNT
      modifies this, allocator
      ensures allocator.asked == old(allocator.asked) + 1 && granted == allocator.Grants(old(allocator.asked), count)
      ensures !ok ==> unchanged(this)
      ensures granted && !ok ==> TooSmall(crowd, hash, count, Map())
      ensures ok ==>
                && granted && Valid() && Map() == old(Map()) && keyCount == old(keyCount)
                && BucketCount() == count && fresh(buckets) && fresh(metadata)
    {
      hide WellChained, WellKeyed, Contents, IsPow2, Slot, TooSmall, LaidOutBut;
      ok, crowd := false, model;
      granted := allocator.Allocate(count);
      if granted {
        var t;
        t, crowd := Rebuild(count);
        if t.keyCount == keyCount {
          Adopt(t);
          ok := true;
        }
      }
    }

    /** NAME_rehash. It scans the metadata and ignores the links, so a stray key is no obstacle: the
        new table is fully valid. The bucket count doubles until every key fits, or a request is
        refused; it fails in no other case. */
    method Rehash(bucketCount: nat) returns (ok: bool, ghost small: seq<Model<K, V>>)
      requires Scannable() && IsPow2(bucketCount) && bucketCount >= MIN_NONZERO_BUCKET_COUNT
      modifies this, allocator
      ensures allocator.asked == old(allocator.asked) + |small| + 1
      ensures Doublings(allocator, old(allocator.asked), bucketCount, small, hash, old(Map()), ok)
      ensures !ok ==> unchanged(this)
      ensures ok ==>
                && Valid() && Map() == old(Map()) && keyCount == old(keyCount)
                && BucketCount() == Doubled(bucketCount, |small|) >= bucketCount && IsPow2(BucketCount())
                && BucketCount() <= allocator.limit && fresh(buckets) && fresh(metadata)
      ensures keyCount <= DISPLACEMENT_LIMIT && 10 * keyCount <= 9 * bucketCount ==> small == []
    {
      ghost var m, asked := Map(), allocator.asked;
      assert |m| == keyCount by { BeforeAll(model, hash); }
      hide WellChained, WellKeyed, Contents, IsPow2, Slot, TooSmall, AllTooSmall, Scannable, Walkable, Valid,
        LaidOutBut, Reachable, Doublings;
      small := [];
      var count := bucketCount;
      NoneTooSmall<K, V>(allocator, asked, bucketCount, hash, m);
      while true
        invariant unchanged(this) && Scannable()
        invariant IsPow2(count) && count == Doubled(bucketCount, |small|) >= bucketCount
        invariant allocator.asked == asked + |small|
        invariant AllTooSmall(allocator, asked, bucketCount, small, hash, m)
        decreases if count <= allocator.limit then allocator.limit - count + 1 else 0
      {
        var granted;
        ghost var crowd;
        granted, ok, crowd := RehashTo(count);
        if ok || !granted {
          TriesEnd(allocator, asked, bucketCount, small, hash, m, ok);
          break;
        }
        AllTooSmallSnoc(allocator, asked, bucketCount, small, hash, m, crowd);
        DoublePow2(count);
        count := count * 2;
        small := small + [crowd];
      }
      if keyCount <= DISPLACEMENT_LIMIT && 10 * keyCount <= 9 * bucketCount {
        FirstSuffices(allocator, asked, bucketCount, small, hash, m, ok);
      }
    }

    /** The bucket count that a full table grows to. */
    function GrownCount(): nat
      reads this
    {
      if bucketsMask != 0 then BucketCount() * 2 else MIN_NONZERO_BUCKET_COUNT
    }

    /** The rehash that follows a refused insertion: to twice the bucket count, or 8 from none. It
        always makes room below the load limit. */
    method Grow() returns (ok: bool, ghost small: seq<Model<K, V>>)
      requires Scannable()
      modifies this, allocator
      ensures Grown(allocator, old(allocator.asked), allocator.asked, old(BucketCount()), BucketCount(), small,
                    hash, old(Map()), ok)
      ensures !ok ==> unchanged(this)
      ensures ok ==>
                && Valid() && Map() == old(Map()) && keyCount == old(keyCount) && !Overloaded()
                && old(BucketCount()) < BucketCount() <= allocator.limit
                && fresh(buckets) && fresh(metadata)
    {
      GrowPow2();
      GrowthMakesRoom();
      hide WellChained, WellKeyed, Contents, IsPow2, Slot, Home, Doublings, LaidOutBut, Scannable, Walkable, Valid,
        GrownCount;
      ok, small := Rehash(GrownCount());
    }

    lemma GrowthMakesRoom()
      requires Scannable()
      ensures |Map()| == keyCount && 10 * (keyCount + 1) <= 9 * GrownCount()
      ensures BucketCount() < GrownCount() == if BucketCount() == 0 then 8 else 2 * BucketCount()
    {
      BeforeAll(model, hash);
    }

    lemma KeysOfMap(key: K)
      requires Scannable()
      ensures key in Map() <==> key in model.at
    {
      ContentsAt(model, hash, key);
    }

    /** What the buckets hold for a present key. */
    lemma EntryOf(key: K)
      requires Scannable() && key in model.at
      ensures model.at[key] < buckets.Length && key in Map() && keyCount == |Map()|
      ensures buckets[model.at[key]] == Entry(key, Map()[key])
    {
      hide WellKeyed, Contents, IsPow2, Slot, Home;
      ContentsAt(model, hash, key);
      BeforeAll(model, hash);
    }

    /** A table that refuses the key to be inserted is too small for the map with it. */
    lemma TooSmallFor(key: K, val: V)
      requires Valid() && key !in Map()
      ensures Sized(model.shape)
      ensures Overloaded() || Blocked(HomeOf(key)) ==> TooSmall(model, hash, Modulus(), Map()[key := val])
    {
      KeysOfMap(key);
      if Overloaded() || Blocked(HomeOf(key)) {
        RefusesKey(key);
        hide Refuses;
        assert key in Map()[key := val];
      }
    }

    /** The next key fits below the load limit. */
    lemma RoomForOne(key: K, val: V)
      requires Scannable() && !Overloaded()
      ensures IsPow2(BucketCount()) && BucketCount() == Modulus() && 10 * |Map()[key := val]| <= 9 * BucketCount()
    {
      SizeOfMap(key, val);
    }

    /** An insertion of `key` is refused at the present bucket count. */
    ghost predicate Full(key: K)
      reads this
    {
      key !in Map() && (Overloaded() || (Sized(model.shape) && Blocked(HomeOf(key))))
    }

    /** A round of the loop of NAME_insert and NAME_get_or_insert: an insertion, and a rehash if it is
        refused. */
    method InsertOrGrow(key: K, val: V, replace: bool)
      returns (itr: Iterator, grown: bool, ghost small: seq<Model<K, V>>)
      requires Valid()
      modifies this, metadata, buckets, allocator
      ensures itr.IsEnd() <==> old(Full(key))
      ensures !itr.IsEnd() ==>
                && Valid() && key in model.at
                && itr == Iterator(model.at[key], Modulus(), Some(HomeOf(key)))
                && Map() == (if key in old(Map()) && !replace then old(Map()) else old(Map())[key := val])
                && keyCount == old(keyCount) + (if key in old(Map()) then 0 else 1)
                && allocator.asked == old(allocator.asked) && BucketCount() == old(BucketCount())
                && buckets == old(buckets) && metadata == old(metadata)
      ensures itr.IsEnd() ==>
                && Walkable() && Map() == old(Map()) && keyCount == old(keyCount)
                && Grown(allocator, old(allocator.asked), allocator.asked, old(BucketCount()), BucketCount(), small,
                         hash, old(Map()), grown)
                && TooSmall(old(model), hash, old(Modulus()), old(Map())[key := val])
      ensures itr.IsEnd() && grown ==>
                Valid() && !Overloaded() && old(BucketCount()) < BucketCount() <= allocator.limit
                && fresh(buckets) && fresh(metadata)
      ensures itr.IsEnd() && !grown ==>
                buckets == old(buckets) && metadata == old(metadata) && BucketCount() == old(BucketCount())
                && (Valid() <==> Overloaded() || HomeFlagged(key))
                && (Overloaded() <==> old(Overloaded())) && (HomeFlagged(key) <==> old(HomeFlagged(key)))
    {
      KeysOfMap(key);
      hide WellChained, WellKeyed, Contents, IsPow2, Slot, Home, Exhausted, LaidOutBut, TooSmall, Grown;
      if key !in Map() { TooSmallFor(key, val); }
      itr := InsertRaw(key, val, false, replace);
      grown, small := true, [];
      if itr.IsEnd() {
        grown, small := Grow();
      }
    }

    /** The loop of NAME_insert (`replace`) and NAME_get_or_insert (not `replace`). */
    method InsertGrowing(key: K, val: V, replace: bool) returns (itr: Iterator, ghost small: seq<Model<K, V>>)
      requires Valid()
      modifies this, metadata, buckets, allocator
      ensures !itr.IsEnd() ==>
                && Valid() && key in model.at
                && itr == Iterator(model.at[key], Modulus(), Some(HomeOf(key)))
                && Map() == (if key in old(Map()) && !replace then old(Map()) else old(Map())[key := val])
                && keyCount == old(keyCount) + (if key in old(Map()) then 0 else 1)
      ensures itr.IsEnd() ==> Walkable() && Map() == old(Map()) && keyCount == old(keyCount)
      ensures itr.IsEnd() ==> (Valid() <==> Overloaded() || HomeFlagged(key))
      ensures itr.IsEnd() && BucketCount() == old(BucketCount()) ==>
                (Valid() <==> old(Overloaded() || HomeFlagged(key)))
      ensures !old(Full(key)) ==>
                !itr.IsEnd() && buckets == old(buckets) && metadata == old(metadata)
                && allocator.asked == old(allocator.asked) && BucketCount() == old(BucketCount())
      ensures old(Full(key)) ==>
                Grown(allocator, old(allocator.asked), allocator.asked, old(BucketCount()), BucketCount(), small,
                      hash, old(Map())[key := val], !itr.IsEnd())
      ensures (buckets == old(buckets) && metadata == old(metadata)) || (fresh(buckets) && fresh(metadata))
    {
      hide WellChained, WellKeyed, Contents, IsPow2, Slot, Home, Exhausted, LaidOutBut, TooSmall, Doublings, Grown,
        HomeFlagged;
      ghost var from, count, m := allocator.asked, BucketCount(), Map();
      ghost var grew := false;
      small := [];
      while true
        invariant Valid() && Map() == m && keyCount == old(keyCount)
        invariant !grew ==>
                    unchanged(this) && (HomeFlagged(key) <==> old(HomeFlagged(key))) && allocator.asked == from
        invariant grew ==>
                    && old(Full(key)) && !Overloaded() && fresh(buckets) && fresh(metadata) && BucketCount() > count
                    && Grown(allocator, from, allocator.asked, count, BucketCount(), small, hash, m[key := val], true)
        decreases !grew, if BucketCount() <= allocator.limit then allocator.limit - BucketCount() else 0
      {
        if grew { RoomForOne(key, val); }
        ghost var crowd, count', asked := model, BucketCount(), allocator.asked;
        var ok;
        ghost var more;
        itr, ok, more := InsertOrGrow(key, val, replace);
        if !itr.IsEnd() {
          break;
        }
        if grew {
          GrownRound(allocator, from, asked, count, count', small, crowd, allocator.asked, BucketCount(), more,
                     hash, m, key, val, ok);
          small := small + ([crowd] + more);
        } else {
          GrownMore(allocator, from, allocator.asked, count, BucketCount(), more, hash, m, key, val, ok);
          small := more;
        }
        grew := true;
        if !ok {
          break;
        }
      }
    }

    lemma GrowPow2()
      requires LaidOutBut(-1)
      ensures IsPow2(GrownCount()) && GrownCount() >= MIN_NONZERO_BUCKET_COUNT
    {
      if bucketsMask != 0 { DoublePow2(BucketCount()); } else { assert 8 == Pow2(3); }
    }

    /** NAME_insert: an end iterator means that a request for memory was refused. The table is then
        still valid, unless the insertion was refused after its eviction had begun. Memory is requested
        exactly if the key is absent and the load limit or the displacement limit refuses it: twice
        the bucket count (or 8 buckets), and up from there while that is too small. */
    method Insert(key: K, val: V) returns (itr: Iterator, ghost small: seq<Model<K, V>>)
      requires Valid()
      modifies this, metadata, buckets, allocator
      ensures !itr.IsEnd() ==>
                && Valid() && Map() == old(Map())[key := val]
                && keyCount == |Map()| == old(keyCount) + (if key in old(Map()) then 0 else 1)
                && itr.bucket < buckets.Length && buckets[itr.bucket] == Entry(key, val)
      ensures itr.IsEnd() ==> Walkable() && Map() == old(Map())
      ensures itr.IsEnd() ==> (Valid() <==> Overloaded() || HomeFlagged(key))
      ensures itr.IsEnd() && BucketCount() == old(BucketCount()) ==>
                (Valid() <==> old(Overloaded() || HomeFlagged(key)))
      ensures !old(Full(key)) ==>
                !itr.IsEnd() && buckets == old(buckets) && metadata == old(metadata)
                && allocator.asked == old(allocator.asked) && BucketCount() == old(BucketCount())
      ensures old(Full(key)) ==>
                Grown(allocator, old(allocator.asked), allocator.asked, old(BucketCount()), BucketCount(), small,
                      hash, old(Map())[key := val], !itr.IsEnd())
      ensures (buckets == old(buckets) && metadata == old(metadata)) || (fresh(buckets) && fresh(metadata))
    {
      hide WellChained, WellKeyed, Contents, IsPow2, Slot, Home, Exhausted, LaidOutBut, Scannable, Grown;
      itr, small := InsertGrowing(key, val, true);
      if !itr.IsEnd() { EntryOf(key); }
    }

    /** NAME_get_or_insert */
    method GetOrInsert(key: K, val: V) returns (itr: Iterator, ghost small: seq<Model<K, V>>)
      requires Valid()
      modifies this, metadata, buckets, allocator
      ensures !itr.IsEnd() ==>
                && Valid() && Map() == (if key in old(Map()) then old(Map()) else old(Map())[key := val])
                && keyCount == |Map()| == old(keyCount) + (if key in old(Map()) then 0 else 1)
                && itr.bucket < buckets.Length && buckets[itr.bucket] == Entry(key, Map()[key])
      ensures itr.IsEnd() ==> Walkable() && Map() == old(Map())
      ensures itr.IsEnd() ==> (Valid() <==> Overloaded() || HomeFlagged(key))
      ensures itr.IsEnd() && BucketCount() == old(BucketCount()) ==>
                (Valid() <==> old(Overloaded() || HomeFlagged(key)))
      ensures !old(Full(key)) ==>
                !itr.IsEnd() && buckets == old(buckets) && metadata == old(metadata)
                && allocator.asked == old(allocator.asked) && BucketCount() == old(BucketCount())
      ensures old(Full(key)) ==>
                Grown(allocator, old(allocator.asked), allocator.asked, old(BucketCount()), BucketCount(), small,
                      hash, old(Map())[key := val], !itr.IsEnd())
      ensures (buckets == old(buckets) && metadata == old(metadata)) || (fresh(buckets) && fresh(metadata))
    {
      hide WellChained, WellKeyed, Contents, IsPow2, Slot, Home, Exhausted, LaidOutBut, Scannable, Grown;
      itr, small := InsertGrowing(key, val, false);
      if !itr.IsEnd() { EntryOf(key); }
    }

    lemma SizeOfMap(key: K, val: V)
      requires Scannable()
      ensures |Map()| == keyCount && |Map()[key := val]| <= keyCount + 1 && IsPow2(GrownCount())
      ensures 10 * |Map()[key := val]| <= 9 * GrownCount()
    {
      BeforeAll(model, hash);
      GrowPow2();
      var m := Map();
      assert m[key := val].Keys == m.Keys + {key};
      assert |m| == |m.Keys| && |m[key := val]| == |m[key := val].Keys|;
    }

    /** NAME_reserve: after success the load limit cannot be reached before `size` keys are held. Memory
        is requested exactly if there is no room yet: the least sufficient count, and up from there. */
    method Reserve(size: nat) returns (ok: bool, ghost small: seq<Model<K, V>>)
      requires Valid()
      modifies this, allocator
      ensures Valid() && Map() == old(Map()) && keyCount == old(keyCount)
      ensures ok ==> 10 * size <= 9 * BucketCount()
      ensures !ok ==> unchanged(this)
      ensures old(10 * size <= 9 * BucketCount()) ==>
                ok && unchanged(this) && allocator.asked == old(allocator.asked)
      ensures old(10 * size > 9 * BucketCount()) ==>
        var first := LeastBucketCount(size);
          && allocator.asked == old(allocator.asked) + |small| + 1
          && Doublings(allocator, old(allocator.asked), first, small, hash, Map(), ok)
          && (ok ==> BucketCount() == Doubled(first, |small|))
          && (keyCount <= DISPLACEMENT_LIMIT ==> small == [])
      ensures (buckets == old(buckets) && metadata == old(metadata)) || (fresh(buckets) && fresh(metadata))
    {
      hide WellChained, WellKeyed, Contents, Slot, Doublings;
      var bucketCount := MinBucketCount(size);
      if bucketCount <= BucketCount() {
        small := [];
        return true, small;
      }
      ok, small := Rehash(bucketCount);
    }

    /** NAME_shrink: to the least count that suffices, and up from there while that is too small; to
        nothing if there are no keys. */
    method Shrink() returns (ok: bool, ghost small: seq<Model<K, V>>)
      requires Valid()
      modifies this, allocator
      ensures Valid() && Map() == old(Map()) && keyCount == old(keyCount)
      ensures !ok ==> unchanged(this)
      ensures keyCount == 0 ==> ok && BucketCount() == 0 && allocator.asked == old(allocator.asked)
      ensures keyCount > 0 ==>
        var first := LeastBucketCount(keyCount);
          if old(BucketCount()) == first then ok && unchanged(this) && allocator.asked == old(allocator.asked)
          else
            && allocator.asked == old(allocator.asked) + |small| + 1
            && Doublings(allocator, old(allocator.asked), first, small, hash, Map(), ok)
            && (ok ==> BucketCount() == Doubled(first, |small|))
            && (keyCount <= DISPLACEMENT_LIMIT ==> small == [])
      ensures (buckets == old(buckets) && metadata == old(metadata)) || (fresh(buckets) && fresh(metadata))
    {
      hide WellChained, WellKeyed, Contents, Slot, Doublings;
      small := [];
      var bucketCount := MinBucketCount(keyCount);
      if bucketCount == BucketCount() {
        return true, small;
      }
      if bucketCount == 0 {
        BeforeAll(model, hash);
        var t := new Table<K, V>(hash, allocator);
        Adopt(t);
        return true, small;
      }
      ok, small := Rehash(bucketCount);
    }

    /** NAME_clear */
    method Clear()
      requires Scannable()
      modifies this`keyCount, this`model, this`stray, metadata
      ensures Valid() && Map() == map[] && keyCount == 0
    {
      hide Slot, IsPow2;
      if keyCount == 0 {
        EmptyModel(model, hash);
        stray := None;
        return;
      }
      for i := 0 to BucketCount()
        modifies metadata
        invariant forall j :: 0 <= j < i ==> metadata[j] == EMPTY
        invariant metadata[Modulus()] == STOPPER
      {
        metadata[i] := EMPTY;
      }
      keyCount := 0;
      stray := None;
      model := Model(Blank(Modulus()), model.entries, map[]);
      BlankModel(model, hash, Modulus());
      hide WellChained, WellKeyed, Contents;
    }

    // ---- Iterating ----

    /** NAME_fast_forward: reads four metadata at a time, never beyond the four excess ones, and
        stops at the first occupied bucket or at the stopper. */
    method FastForward(start: nat) returns (position: nat)
      requires LaidOutBut(-1) && bucketsMask > 0 && start <= Modulus()
      ensures start <= position <= Modulus()
      ensures position < Modulus() ==> Occupied(model.shape, position)
      ensures forall x: nat :: start <= x < position ==> !Occupied(model.shape, x)
    {
      hide IsPow2;
      position := start;
      while true
        invariant start <= position <= Modulus()
        invariant forall x :: start <= x < position ==> metadata[x] == EMPTY
        decreases Modulus() - position
      {
        var a, b := metadata[position], metadata[position + 1];
        var c, d := metadata[position + 2], metadata[position + 3];
        EmptyIsZero(a);
        EmptyIsZero(b);
        EmptyIsZero(c);
        EmptyIsZero(d);
        if Encode(a) != 0 || Encode(b) != 0 || Encode(c) != 0 || Encode(d) != 0 {
          var offset := FirstNonzero(Encode(a), Encode(b), Encode(c), Encode(d));
          position := position + offset;
          return;
        }
        position := position + 4;
      }
    }

    /** `itr` is at an occupied bucket of this table, or past the last one. */
    ghost predicate Iterates(itr: Iterator)
      reads this
    {
      if itr.IsEnd() then Ahead(model, itr.bucket) == {}
      else
        && itr.end == Modulus() && Occupied(model.shape, itr.bucket) && Sized(model.shape)
        && (itr.home.Some? ==> itr.home.value == model.shape.home[itr.bucket])
    }

    /** NAME_first: all keys are ahead of it. */
    method First() returns (itr: Iterator)
      requires Valid()
      ensures Iterates(itr) && Ahead(model, itr.bucket) == Map().Keys
      ensures itr.bucket <= Modulus() && forall x: nat :: x < itr.bucket ==> !Occupied(model.shape, x)
      ensures itr.IsEnd() <==> Map() == map[]
    {
      hide WellChained, WellKeyed, IsPow2, Slot, Contents;
      BeforeAll(model, hash);
      EmptyModelIff(model, hash);
      if keyCount == 0 {
        return END_ITERATOR;
      }
      var position := FastForward(0);
      AheadSkips(model, hash, 0, position);
      EndAhead(model, hash, Modulus());
      itr := Iterator(position, Modulus(), None);
    }

    /** NAME_next: exactly the key under the iterator is no longer ahead. */
    method Next(itr: Iterator) returns (next: Iterator)
      requires Valid() && bucketsMask > 0 && itr.end == Modulus() && itr.bucket < Modulus()
      ensures Iterates(next) && next.end == Modulus() && itr.bucket < next.bucket <= Modulus()
      ensures forall x: nat :: itr.bucket < x < next.bucket ==> !Occupied(model.shape, x)
      ensures Ahead(model, next.bucket) == Ahead(model, itr.bucket + 1)
    {
      hide WellChained, WellKeyed, IsPow2, Slot;
      var position := FastForward(itr.bucket + 1);
      AheadSkips(model, hash, itr.bucket + 1, position);
      EndAhead(model, hash, Modulus());
      next := Iterator(position, Modulus(), None);
    }

    /** `itr.data->key` */
    method KeyUnder(itr: Iterator) returns (key: K)
      requires Valid() && Iterates(itr) && !itr.IsEnd()
      ensures itr.bucket < |model.entries| && key == model.entries[itr.bucket].key && bucketsMask > 0
      ensures key in Ahead(model, itr.bucket) && Ahead(model, itr.bucket + 1) == Ahead(model, itr.bucket) - {key}
    {
      hide WellChained, WellKeyed, IsPow2, Slot, Ahead;
      AheadSteps(model, hash, itr.bucket);
      key := buckets[itr.bucket].key;
    }

    /** NAME_erase_itr: erases the key under the iterator and moves on. The keys ahead are the same
        as before, without the erased one: none is skipped and none comes back. */
    method EraseItr(itr: Iterator) returns (next: Iterator)
      requires Valid() && Iterates(itr) && !itr.IsEnd()
      modifies this`keyCount, this`model, metadata, buckets
      ensures Valid() && keyCount == old(keyCount) - 1
      ensures itr.bucket < |old(model.entries)|
      ensures Map() == old(Map()) - {old(model.entries)[itr.bucket].key}
      ensures Iterates(next) && itr.bucket <= next.bucket <= Modulus()
      ensures Ahead(model, next.bucket) == old(Ahead(model, itr.bucket)) - {old(model.entries)[itr.bucket].key}
    {
      hide WellChained, WellKeyed, IsPow2, Slot, Contents, Home, HashFrag, Ahead;
      AheadSteps(model, hash, itr.bucket);
      var advance, emptied := EraseRaw(itr);
      AheadErased(old(model), model, itr.bucket, emptied);
      if advance {
        next := Next(itr);
      } else {
        next := itr;
      }
    }
  }

  /** All buckets empty. */
  function Blank(n: nat): Shape {
    Shape(seq(n, _ => EMPTY), seq(n, _ => 0), seq(n, _ => 0))
  }

  lemma BlankModel<K, V>(m: Model<K, V>, hash: K -> Word64, n: nat)
    requires n > 0 && m.shape == Blank(n) && m.at == map[]
    ensures WellKeyed(m, hash) && WellChained(m.shape) && Contents(m) == map[]
    ensures forall b: nat :: !Occupied(m.shape, b)
  {
  }

  /** A table without keys has no occupied bucket. */
  lemma EmptyModel<K, V>(m: Model<K, V>, hash: K -> Word64)
    requires WellKeyed(m, hash) && |m.at| == 0
    ensures forall b: nat :: !Occupied(m.shape, b)
    ensures WellChained(m.shape) && Contents(m) == map[]
  {
    forall b: nat ensures !Occupied(m.shape, b) {
      assert Occupied(m.shape, b) ==> KeyAt(m, hash, b);
    }
  }

  lemma EmptyModelIff<K, V>(m: Model<K, V>, hash: K -> Word64)
    requires WellKeyed(m, hash)
    ensures |m.at| == 0 <==> Contents(m) == map[]
    ensures |m.at| == 0 ==> Ahead(m, 0) == {}
    ensures Ahead(m, 0) == Contents(m).Keys
  {
    forall k | k in m.at ensures Located(m, k) {}
    assert Contents(m).Keys == m.at.Keys;
    if |m.at| == 0 { assert m.at.Keys == {}; }
    if Contents(m) == map[] { assert m.at.Keys == {}; }
  }

  lemma EndAhead<K, V>(m: Model<K, V>, hash: K -> Word64, n: nat)
    requires WellKeyed(m, hash) && n == |m.shape.meta|
    ensures Ahead(m, n) == {}
  {
    forall k | k in m.at ensures Located(m, k) {}
  }

  /** No power of two below `count`, and at least 8, takes `size` keys. */
  ghost predicate NoneSmaller(count: nat, size: nat) {
    && IsPow2(count) && count >= MIN_NONZERO_BUCKET_COUNT
    && forall p: nat :: IsPow2(p) && p >= MIN_NONZERO_BUCKET_COUNT && 10 * size <= 9 * p ==> count <= p
  }

  /** `count` is the least such count that does. */
  ghost predicate IsLeastBucketCount(count: nat, size: nat) {
    NoneSmaller(count, size) && 10 * size <= 9 * count
  }

  lemma NextNoneSmaller(count: nat, size: nat)
    requires NoneSmaller(count, size) && 10 * size > 9 * count
    ensures NoneSmaller(2 * count, size)
  {
    DoublePow2(count);
    forall p: nat | IsPow2(p) && p >= MIN_NONZERO_BUCKET_COUNT && 10 * size <= 9 * p ensures 2 * count <= p {
      NextPow2(count, p);
    }
  }

  ghost function LeastFrom(count: nat, size: nat): (least: nat)
    requires NoneSmaller(count, size)
    ensures IsLeastBucketCount(least, size)
    decreases 10 * size - 9 * count
  {
    if 10 * size <= 9 * count then count
    else
      NextNoneSmaller(count, size);
      LeastFrom(2 * count, size)
  }

  ghost function LeastBucketCount(size: nat): (least: nat)
    ensures IsLeastBucketCount(least, size)
  {
    assert MIN_NONZERO_BUCKET_COUNT == Pow2(3);
    LeastFrom(MIN_NONZERO_BUCKET_COUNT, size)
  }

  /** NAME_min_bucket_count_for_size */
  method MinBucketCount(size: nat) returns (count: nat)
    ensures size == 0 ==> count == 0
    ensures size > 0 ==> IsLeastBucketCount(count, size) && count == LeastBucketCount(size)
  {
    if size == 0 {
      return 0;
    }
    count := MIN_NONZERO_BUCKET_COUNT;
    assert 8 == Pow2(3);
    while 10 * size > 9 * count
      invariant NoneSmaller(count, size)
      decreases 10 * size - 9 * count
    {
      NextNoneSmaller(count, size);
      count := count * 2;
    }
  }

  /** There is no power of two strictly between `n` and `2 * n`. */
  lemma NextPow2(n: nat, p: nat)
    requires IsPow2(n) && IsPow2(p) && n < p
    ensures 2 * n <= p
  {
    var j: nat, k: nat :| n == Pow2(j) && p == Pow2(k);
    if k <= j { Pow2Monotone(k, j); } else { Pow2Monotone(j + 1, k); }
  }

  lemma {:induction false} Pow2Monotone(j: nat, k: nat)
    requires j <= k
    ensures Pow2(j) <= Pow2(k)
  {
    if j < k { Pow2Monotone(j, k - 1); }
  }

  lemma NoneTooSmall<K, V>(a: Allocator, from: nat, first: nat, hash: K -> Word64, m: map<K, V>)
    ensures AllTooSmall(a, from, first, [], hash, m)
  {
  }

  /** The scan of a rehash that stops at bucket `i` shows that the new table is too small. */
  lemma TooSmallAt<K, V>(m: Model<K, V>, hash: K -> Word64, i: nat, crowd: Model<K, V>, count: nat)
    requires WellKeyed(m, hash) && Occupied(m.shape, i) && i < |m.entries|
    requires Contents(crowd) == Before(m, i) && Refuses(crowd, hash, count, m.entries[i].key)
    ensures TooSmall(crowd, hash, count, Contents(m))
  {
    hide Refuses, Home, HashFrag;
    KeyedAt(m, hash, i);
    var k := m.entries[i].key;
    ContentsAt(m, hash, k);
    assert k in Contents(m);
  }

  lemma DoublePow2(n: nat)
    requires IsPow2(n)
    ensures IsPow2(2 * n)
  {
    var k: nat :| n == Pow2(k);
    assert 2 * n == Pow2(k + 1);
  }

  /** No key moves, except the one that was in bucket `b`. */
  ghost predicate OthersStay<K>(at: map<K, nat>, at': map<K, nat>, b: nat) {
    forall k :: k in at ==> k in at' && (at[k] != b ==> at'[k] == at[k])
  }
}
