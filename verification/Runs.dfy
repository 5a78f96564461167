/** Whole runs of table operations, against a plain map. */
module Runs {
  import opened Chains
  import opened Hashing
  import opened Iteration
  import opened Keyed
  import opened Probing
  import opened Tables

  datatype Op<K, V> =
    | Insert(key: K, val: V)
    | GetOrInsert(key: K, val: V)
    | Get(key: K)
    | Erase(key: K)
    | Reserve(size: nat)
    | Shrink
    | Clear
    | Purge(doomed: set<K>)

  datatype Reply<V> = Found(val: V) | Missing | Done(ok: bool) | OutOfMemory

  /** What a caller can know of a table: its contents, its bucket count, and the number of requests for
      memory so far. */
  datatype Plain<K, V> = Plain(contents: map<K, V>, count: nat, asked: nat)

  /** Requests number `from` up to `to` were for `first` buckets, twice that many, and so on. All but
      the last were granted; the last exactly if `ok`, and then the count changed to what it was for. */
  ghost predicate Requests(a: Allocator, from: nat, to: nat, first: nat, ok: bool, count: nat, count': nat) {
    && from < to
    && (forall j: nat {:trigger Doubled(first, j)} :: from + j + 1 < to ==> a.Grants(from + j, Doubled(first, j)))
    && a.Grants(to - 1, Doubled(first, to - from - 1)) == ok
    && (if ok then count' == Doubled(first, to - from - 1) else to == from + 1 ==> count' == count)
  }

  /** Room for one more key: without a request while the load limit allows it, and else with twice the
      buckets, or 8 buckets. From 2047 keys on, more than one request is possible at any load. */
  ghost predicate MakesRoom<K, V>(a: Allocator, s: Plain<K, V>, ok: bool, s': Plain<K, V>) {
    || (10 * (|s.contents| + 1) <= 9 * s.count && ok && s'.count == s.count && s'.asked == s.asked)
    || (&& (10 * (|s.contents| + 1) > 9 * s.count || |s.contents| >= DISPLACEMENT_LIMIT)
        && Requests(a, s.asked, s'.asked, if s.count == 0 then 8 else 2 * s.count, ok, s.count, s'.count)
        && (|s.contents| < DISPLACEMENT_LIMIT ==> s'.asked == s.asked + 1))
  }

  /** Memory for `first` buckets, or more: but up to 2047 keys, no more is needed. */
  ghost predicate Resizes<K, V>(a: Allocator, s: Plain<K, V>, first: nat, ok: bool, s': Plain<K, V>) {
    && Requests(a, s.asked, s'.asked, first, ok, s.count, s'.count)
    && (|s.contents| <= DISPLACEMENT_LIMIT ==> s'.asked == s.asked + 1)
    && (!ok ==> s'.count == s.count)
  }

  /** What one operation may do to a plain map, what it may answer, and what memory it requests. */
  ghost predicate Step<K, V>(a: Allocator, s: Plain<K, V>, op: Op<K, V>, reply: Reply<V>, s': Plain<K, V>) {
    var m := s.contents;
    match op
    case Insert(k, v) =>
      if k in m then reply == Found(v) && s' == s.(contents := m[k := v])
      else
        && s'.contents == (if reply == OutOfMemory then m else m[k := v])
        && reply in {Found(v), OutOfMemory} && MakesRoom(a, s, reply != OutOfMemory, s')
    case GetOrInsert(k, v) =>
      if k in m then reply == Found(m[k]) && s' == s
      else
        && s'.contents == (if reply == OutOfMemory then m else m[k := v])
        && reply in {Found(v), OutOfMemory} && MakesRoom(a, s, reply != OutOfMemory, s')
    case Get(k) => reply == (if k in m then Found(m[k]) else Missing) && s' == s
    case Erase(k) => reply == Done(k in m) && s' == s.(contents := m - {k})
    case Reserve(size) =>
      && reply.Done? && s'.contents == m
      && if 10 * size <= 9 * s.count then reply.ok && s' == s
         else Resizes(a, s, LeastBucketCount(size), reply.ok, s')
    case Shrink =>
      && reply.Done? && s'.contents == m
      && if |m| == 0 then reply.ok && s' == s.(count := 0)
         else if s.count == LeastBucketCount(|m|) then reply.ok && s' == s
         else Resizes(a, s, LeastBucketCount(|m|), reply.ok, s')
    case Clear => reply == Done(true) && s' == s.(contents := map[])
    case Purge(doomed) => reply == Done(true) && s' == s.(contents := m - doomed)
  }

  ghost function View<K(0), V(0)>(t: Table<K, V>): Plain<K, V>
    reads t, t.allocator
  {
    Plain(t.Map(), t.BucketCount(), t.allocator.asked)
  }

  lemma GrownRequests<K, V>(a: Allocator, from: nat, to: nat, count: nat, count': nat, small: seq<Model<K, V>>,
                            hash: K -> Word64, m: map<K, V>, ok: bool)
    requires Grown(a, from, to, count, count', small, hash, m, ok)
    ensures Requests(a, from, to, if count == 0 then 8 else 2 * count, ok, count, count')
    ensures |m| <= DISPLACEMENT_LIMIT ==> to == from + 1
  {
    DoublingsRequests(a, from, to, if count == 0 then 8 else 2 * count, small, hash, m, ok, count, count');
  }

  lemma DoublingsRequests<K, V>(a: Allocator, from: nat, to: nat, first: nat, small: seq<Model<K, V>>,
                                hash: K -> Word64, m: map<K, V>, ok: bool, count: nat, count': nat)
    requires Doublings(a, from, first, small, hash, m, ok) && to == from + |small| + 1
    requires if ok then count' == Doubled(first, |small|) else small == [] ==> count' == count
    ensures Requests(a, from, to, first, ok, count, count')
  {
    hide TooSmall;
    forall j: nat | from + j + 1 < to ensures a.Grants(from + j, Doubled(first, j)) {
      var _ := small[j];
    }
  }

  /** An insertion of an absent key, in terms of what the caller can know. */
  lemma InsertionMakesRoom<K, V>(a: Allocator, s: Plain<K, V>, full: bool, overloaded: bool, key: K, val: V,
                                 small: seq<Model<K, V>>, hash: K -> Word64, ok: bool, s': Plain<K, V>)
    requires key !in s.contents && (overloaded <==> 10 * (|s.contents| + 1) > 9 * s.count)
    requires overloaded ==> full
    requires full && |s.contents| < DISPLACEMENT_LIMIT ==> overloaded
    requires full ==> Grown(a, s.asked, s'.asked, s.count, s'.count, small, hash, s.contents[key := val], ok)
    requires !full ==> ok && s'.asked == s.asked && s'.count == s.count
    ensures MakesRoom(a, s, ok, s')
    ensures !ok && |s.contents| < DISPLACEMENT_LIMIT ==> s'.count == s.count && overloaded
  {
    hide Grown;
    if full {
      var m := s.contents;
      GrownRequests(a, s.asked, s'.asked, s.count, s'.count, small, hash, m[key := val], ok);
      assert m[key := val].Keys == m.Keys + {key};
      assert |m| == |m.Keys| && |m[key := val]| == |m[key := val].Keys|;
    }
  }

  /** NAME_insert (`replace`) or NAME_get_or_insert, and whether the table can still be used. */
  method PerformInsert<K(==, 0), V(==, 0)>(t: Table<K, V>, k: K, v: V, replace: bool)
    returns (reply: Reply<V>, usable: bool)
    requires t.Valid()
    modifies t, t.metadata, t.buckets, t.allocator
    ensures Step(t.allocator, old(View(t)), if replace then Insert(k, v) else GetOrInsert(k, v), reply, View(t))
    ensures t.Walkable() && (usable <==> t.Valid())
    ensures !usable ==> reply.OutOfMemory? && |t.Map()| >= DISPLACEMENT_LIMIT
    ensures t.buckets == old(t.buckets) || fresh(t.buckets)
    ensures t.metadata == old(t.metadata) || fresh(t.metadata)
  {
    hide WellChained, WellKeyed, IsPow2, Slot, Contents, Home, Exhausted, Grown, MakesRoom, t.LaidOutBut;
    ghost var s, full, overloaded := View(t), t.Full(k), t.Overloaded();
    MapSize(t);
    if t.keyCount < DISPLACEMENT_LIMIT && !overloaded { t.SmallTableNeverBlocked(t.HomeOf(k)); }
    hide t.Blocked, t.Overloaded, t.Full, t.HomeFlagged, t.Scannable, t.Modulus;
    var itr;
    ghost var small;
    if replace {
      itr, small := t.Insert(k, v);
    } else {
      itr, small := t.GetOrInsert(k, v);
    }
    if k !in s.contents {
      InsertionMakesRoom(t.allocator, s, full, overloaded, k, v, small, t.hash, !itr.IsEnd(), View(t));
    }
    reply := if itr.IsEnd() then OutOfMemory else Found(t.buckets[itr.bucket].val);
    usable := !itr.IsEnd() || t.Overloaded() || t.HomeFlagged(k);
  }

  method PerformReserve<K(==, 0), V(==, 0)>(t: Table<K, V>, size: nat) returns (reply: Reply<V>)
    requires t.Valid()
    modifies t, t.allocator
    ensures t.Valid() && Step(t.allocator, old(View(t)), Reserve(size), reply, View(t))
    ensures (t.buckets == old(t.buckets) && t.metadata == old(t.metadata)) || (fresh(t.buckets) && fresh(t.metadata))
  {
    hide WellChained, WellKeyed, IsPow2, Slot, Contents, t.LaidOutBut, Doublings, Requests;
    ghost var s := View(t);
    MapSize(t);
    var ok;
    ghost var small;
    ok, small := t.Reserve(size);
    if 10 * size > 9 * s.count {
      DoublingsRequests(t.allocator, s.asked, t.allocator.asked, LeastBucketCount(size), small, t.hash, s.contents, ok,
                        s.count, t.BucketCount());
    }
    reply := Done(ok);
  }

  method PerformShrink<K(==, 0), V(==, 0)>(t: Table<K, V>) returns (reply: Reply<V>)
    requires t.Valid()
    modifies t, t.allocator
    ensures t.Valid() && Step(t.allocator, old(View(t)), Shrink, reply, View(t))
    ensures (t.buckets == old(t.buckets) && t.metadata == old(t.metadata)) || (fresh(t.buckets) && fresh(t.metadata))
  {
    hide WellChained, WellKeyed, IsPow2, Slot, Contents, t.LaidOutBut, Doublings, Requests;
    ghost var s := View(t);
    MapSize(t);
    var ok;
    ghost var small;
    ok, small := t.Shrink();
    if |s.contents| > 0 && s.count != LeastBucketCount(|s.contents|) {
      DoublingsRequests(t.allocator, s.asked, t.allocator.asked, LeastBucketCount(|s.contents|), small, t.hash,
                        s.contents, ok, s.count, t.BucketCount());
    }
    reply := Done(ok);
  }

  lemma MapSize<K(0), V(0)>(t: Table<K, V>)
    requires t.Scannable()
    ensures |t.Map()| == t.keyCount
  {
    BeforeAll(t.model, t.hash);
  }

  /** The operations that leave the arrays where they are. */
  method PerformInPlace<K(==, 0), V(==, 0)>(t: Table<K, V>, op: Op<K, V>) returns (reply: Reply<V>)
    requires t.Valid() && (op.Get? || op.Erase? || op.Clear? || op.Purge?)
    modifies t`keyCount, t`model, t`stray, t.metadata, t.buckets
    ensures t.Valid() && Step(t.allocator, old(View(t)), op, reply, View(t))
  {
    hide WellChained, WellKeyed, IsPow2, Slot, Contents, Home, t.LaidOutBut, t.Scannable;
    match op
    case Get(k) =>
      var itr := t.Get(k);
      reply := if itr.IsEnd() then Missing else Found(t.buckets[itr.bucket].val);
    case Erase(k) =>
      var erased := t.Erase(k);
      reply := Done(erased);
    case Clear =>
      t.Clear();
      reply := Done(true);
    case Purge(doomed) =>
      var _ := EraseWhileIterating(t, doomed);
      reply := Done(true);
  }

  /** One operation on the table is one step of the map. `usable` tells whether the table can still
      be used: after a failure to allocate it can, unless the insertion had begun an eviction, for
      which the table must hold 2047 keys. */
  method Perform<K(==, 0), V(==, 0)>(t: Table<K, V>, op: Op<K, V>) returns (reply: Reply<V>, usable: bool)
    requires t.Valid()
    modifies t, t.metadata, t.buckets, t.allocator
    ensures Step(t.allocator, old(View(t)), op, reply, View(t))
    ensures t.Walkable() && (usable <==> t.Valid())
    ensures !usable ==> reply.OutOfMemory? && |t.Map()| >= DISPLACEMENT_LIMIT
    ensures t.buckets == old(t.buckets) || fresh(t.buckets)
    ensures t.metadata == old(t.metadata) || fresh(t.metadata)
  {
    hide WellChained, WellKeyed, IsPow2, Slot, Contents, Home, t.LaidOutBut, t.Scannable, Step, View;
    usable := true;
    match op
    case Insert(k, v) =>
      reply, usable := PerformInsert(t, k, v, true);
    case GetOrInsert(k, v) =>
      reply, usable := PerformInsert(t, k, v, false);
    case Reserve(size) =>
      reply := PerformReserve(t, size);
    case Shrink =>
      reply := PerformShrink(t);
    case _ =>
      reply := PerformInPlace(t, op);
  }

  /** `trace` is a run of the plain map that gives these replies. */
  ghost predicate Explains<K, V>(a: Allocator, trace: seq<Plain<K, V>>, ops: seq<Op<K, V>>, replies: seq<Reply<V>>) {
    && |trace| == |replies| + 1 && |replies| <= |ops|
    && forall i :: 0 <= i < |replies| ==> Step(a, trace[i], ops[i], replies[i], trace[i + 1])
  }

  /** Every run that starts with an empty table answers as a plain map does and ends with the contents
      of that map. It is cut short only by an insertion that can neither evict nor allocate, into a
      table of 2047 keys or more. */
  method Run<K(==, 0), V(==, 0)>(hash: K -> Word64, allocator: Allocator, ops: seq<Op<K, V>>)
    returns (t: Table<K, V>, replies: seq<Reply<V>>, ghost trace: seq<Plain<K, V>>)
    modifies allocator
    ensures Explains(allocator, trace, ops, replies)
    ensures trace[0] == Plain(map[], 0, old(allocator.asked)) && trace[|replies|] == View(t)
    ensures t.Walkable() && t.allocator == allocator
    ensures |replies| < |ops| ==> !t.Valid()
    ensures !t.Valid() ==> replies != [] && replies[|replies| - 1].OutOfMemory? && |t.Map()| >= DISPLACEMENT_LIMIT
  {
    hide WellChained, WellKeyed, IsPow2, Slot, Contents, Step;
    t := new Table<K, V>(hash, allocator);
    replies, trace := [], [View(t)];
    for i := 0 to |ops|
      invariant fresh(t) && fresh(t.buckets) && fresh(t.metadata) && t.Valid() && t.allocator == allocator
      invariant |replies| == i
      invariant Explains(allocator, trace, ops, replies)
      invariant trace[0] == Plain(map[], 0, old(allocator.asked)) && trace[i] == View(t)
    {
      var reply, usable := Perform(t, ops[i]);
      replies, trace := replies + [reply], trace + [View(t)];
      if !usable {
        return;
      }
    }
  }

  /** While a table holds no more than 2046 keys, an operation has one outcome. */
  lemma StepDetermined<K, V>(a: Allocator, s: Plain<K, V>, op: Op<K, V>, reply: Reply<V>, s': Plain<K, V>,
                             reply': Reply<V>, s'': Plain<K, V>)
    requires |s.contents| < DISPLACEMENT_LIMIT
    requires Step(a, s, op, reply, s') && Step(a, s, op, reply', s'')
    ensures reply == reply' && s' == s''
  {
  }

  /** While a table holds no more than 2046 keys, its replies, its bucket counts and its requests for
      memory all follow from the operations and the answers of the allocator: neither the hash function
      nor where keys collide makes any difference. */
  lemma {:induction false} RunDetermined<K, V>(a: Allocator, ops: seq<Op<K, V>>, trace: seq<Plain<K, V>>,
                                               replies: seq<Reply<V>>, trace': seq<Plain<K, V>>,
                                               replies': seq<Reply<V>>, n: nat)
    requires Explains(a, trace, ops, replies) && Explains(a, trace', ops, replies') && trace[0] == trace'[0]
    requires n <= |replies| && n <= |replies'|
    requires forall i :: 0 <= i < n ==> |trace[i].contents| < DISPLACEMENT_LIMIT
    ensures trace[..n + 1] == trace'[..n + 1] && replies[..n] == replies'[..n]
  {
    hide Step;
    if n > 0 {
      RunDetermined(a, ops, trace, replies, trace', replies', n - 1);
      assert trace[n - 1] == trace[..n][n - 1] == trace'[..n][n - 1] == trace'[n - 1];
      StepDetermined(a, trace[n - 1], ops[n - 1], replies[n - 1], trace[n], replies'[n - 1], trace'[n]);
    }
  }

  /** The map after inserting the entries in order. */
  function InsertedAll<K, V>(m: map<K, V>, entries: seq<Entry<K, V>>): map<K, V> {
    if entries == [] then m
    else
      var n := |entries| - 1;
      InsertedAll(m, entries[..n])[entries[n].key := entries[n].val]
  }

  /** NAME_reserve keeps its promise: once it has succeeded, insertions up to the reserved number of
      keys neither fail nor touch the allocator. (Beyond 2047 keys the displacement limit can force a
      rehash at any load; `Table.Insert` says exactly when.) */
  method ReserveThenInsert<K(==, 0), V(0)>(t: Table<K, V>, size: nat, entries: seq<Entry<K, V>>) returns (ok: bool)
    requires t.Valid() && t.keyCount + |entries| <= size <= DISPLACEMENT_LIMIT
    modifies t, t.metadata, t.buckets, t.allocator
    ensures t.Valid()
    ensures ok <==> old(10 * size <= 9 * t.BucketCount()
                        || t.allocator.Grants(t.allocator.asked, LeastBucketCount(size)))
    ensures t.allocator.asked == old(t.allocator.asked) + if old(10 * size <= 9 * t.BucketCount()) then 0 else 1
    ensures ok ==> t.Map() == InsertedAll(old(t.Map()), entries)
    ensures ok ==> if old(10 * size <= 9 * t.BucketCount()) then t.buckets == old(t.buckets)
                   else t.BucketCount() == LeastBucketCount(size)
    ensures !ok ==> t.Map() == old(t.Map()) && t.buckets == old(t.buckets)
  {
    hide WellChained, WellKeyed, IsPow2, Slot, Contents, Home, Grown, AllTooSmall;
    ghost var small;
    ok, small := t.Reserve(size);
    if !ok {
      return;
    }
    var buckets, metadata := t.buckets, t.metadata;
    ghost var count, asked := t.BucketCount(), t.allocator.asked;
    for i := 0 to |entries|
      invariant t.Valid() && t.buckets == buckets && t.metadata == metadata
      invariant 10 * size <= 9 * t.BucketCount() && t.BucketCount() == count && t.allocator.asked == asked
      invariant t.keyCount + (|entries| - i) <= size
      invariant t.Map() == InsertedAll(old(t.Map()), entries[..i])
    {
      assert entries[..i + 1][..i] == entries[..i];
      t.SmallTableNeverBlocked(t.HomeOf(entries[i].key));
      var itr;
      itr, small := t.Insert(entries[i].key, entries[i].val);
    }
    assert entries[..|entries|] == entries;
  }
}
