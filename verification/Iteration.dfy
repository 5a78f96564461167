/** Whole passes over a table, from NAME_first to the end. */
module Iteration {
  import opened Chains
  import opened Hashing
  import opened Keyed
  import opened Probing
  import opened Tables

  ghost predicate Distinct<T>(s: seq<T>) {
    forall i, j :: 0 <= i < j < |s| ==> s[i] != s[j]
  }

  ghost function Elements<T>(s: seq<T>): set<T> {
    set x | x in s
  }

  lemma {:induction false} DistinctSize<T>(s: seq<T>)
    requires Distinct(s)
    ensures |Elements(s)| == |s|
  {
    if s != [] {
      var init, last := s[..|s| - 1], s[|s| - 1];
      DistinctSize(init);
      assert Elements(s) == Elements(init) + {last};
    }
  }

  /** A bucket-by-bucket scan finds as many buckets as there are keys. */
  lemma ScanCounts<K, V>(m: Model<K, V>, hash: K -> Word64)
    requires WellKeyed(m, hash)
    ensures |Scan(m.shape, 0)| == |m.at|
  {
    hide WellKeyed;
    var order := Scan(m.shape, 0);
    ScanLists(m.shape, 0);
    DistinctSize(order);
    assert Elements(order) == OccupiedSet(m.shape);
    OccupiedCount(m, hash);
  }

  /** NAME_first and NAME_next, four metadata at a time, list what a bucket-by-bucket scan lists. */
  method Enumerate<K(==, 0), V(0)>(t: Table<K, V>) returns (order: seq<nat>)
    requires t.Valid()
    ensures order == Scan(t.model.shape, 0)
    ensures |order| == t.keyCount
  {
    hide WellChained, WellKeyed, IsPow2, Slot, Contents, Ahead;
    ghost var s := t.model.shape;
    var itr := t.First();
    order := [];
    ScanCounts(t.model, t.hash);
    if itr.IsEnd() {
      EmptyModelIff(t.model, t.hash);
      return;
    }
    KeyedAt(t.model, t.hash, itr.bucket);
    ScanSkips(s, 0, itr.bucket);
    while !itr.IsEnd()
      invariant t.Iterates(itr) && itr.end == |s.meta| && itr.bucket <= |s.meta|
      invariant order + Scan(s, itr.bucket) == Scan(s, 0)
      decreases |s.meta| - itr.bucket
    {
      var b := itr.bucket;
      order := order + [b];
      itr := t.Next(itr);
      ScanSkips(s, b + 1, itr.bucket);
    }
  }

  /** The loop that erases while iterating: each key of `doomed` is erased through NAME_erase_itr as
      the pass comes to it. Every key is visited once, and exactly the others remain. */
  method EraseWhileIterating<K(==, 0), V(0)>(t: Table<K, V>, doomed: set<K>) returns (visited: seq<K>)
    requires t.Valid()
    modifies t`keyCount, t`model, t.metadata, t.buckets
    ensures t.Valid() && t.Map() == old(t.Map()) - doomed
    ensures Distinct(visited) && forall k :: k in visited <==> k in old(t.Map())
  {
    hide WellChained, WellKeyed, IsPow2, Slot, Contents, Ahead, t.LaidOutBut;
    var itr := t.First();
    visited := [];
    ghost var seen: set<K> := {};
    while !itr.IsEnd()
      invariant t.Valid() && t.Iterates(itr) && itr.bucket <= t.Modulus()
      invariant Distinct(visited) && forall k :: k in visited <==> k in seen
      invariant seen !! Ahead(t.model, itr.bucket)
      invariant seen + Ahead(t.model, itr.bucket) == old(t.Map()).Keys
      invariant t.Map() == old(t.Map()) - seen * doomed
      decreases t.keyCount + (t.Modulus() - itr.bucket)
    {
      var key := t.KeyUnder(itr);
      visited := visited + [key];
      if key in doomed {
        assert (seen + {key}) * doomed == seen * doomed + {key};
        itr := t.EraseItr(itr);
      } else {
        assert (seen + {key}) * doomed == seen * doomed;
        itr := t.Next(itr);
      }
      seen := seen + {key};
    }
    assert old(t.Map()) - seen * doomed == old(t.Map()) - doomed;
  }
}
