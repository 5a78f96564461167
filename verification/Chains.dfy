/** Chains threaded through the metadata of a bucket array, apart from the keys they hold.

    A `Shape` gives, for every occupied bucket, the home of the key in it and the displacement at
    which it sits. The links in the metadata are right exactly when the link of each bucket is the
    least displacement above its own that a key of the same home occupies. */
module Chains {
  import opened Metadata
  import opened Probing

  datatype Shape = Shape(meta: seq<Metadatum>, home: seq<nat>, disp: seq<nat>)

  predicate Occupied(s: Shape, b: int) {
    0 <= b < |s.meta| && s.meta[b] != EMPTY
  }

  predicate Sized(s: Shape) {
    |s.meta| == |s.home| == |s.disp| > 0
  }

  /** `c` holds a key of home `h` at displacement `d`. */
  predicate Holds(s: Shape, c: int, h: nat, d: nat)
    requires Sized(s)
  {
    Occupied(s, c) && s.home[c] == h && s.disp[c] == d
  }

  /** Bucket `b` sits where its displacement says, its chain begins at its home, and its link
      leads to a bucket of the same chain. */
  predicate Placed(s: Shape, b: nat)
    requires Sized(s) && Occupied(s, b)
  {
    var n, h, d, next := |s.meta|, s.home[b], s.disp[b], s.meta[b].next;
    && h < n
    && d < n && d < DISPLACEMENT_LIMIT
    && Slot(n, h, d) == b
    && (s.meta[b].inHome <==> d == 0)
    && Holds(s, h, h, 0)
    && d < next
    && (next < DISPLACEMENT_LIMIT ==> Holds(s, Slot(n, h, next), h, next))
  }

  /** The link of `b` does not jump over `c`. */
  predicate Ordered(s: Shape, b: nat, c: nat)
    requires Sized(s) && Occupied(s, b) && Occupied(s, c)
  {
    s.home[b] == s.home[c] && s.disp[b] < s.disp[c] ==> s.meta[b].next <= s.disp[c]
  }

  ghost predicate WellChained(s: Shape) {
    && Sized(s)
    && (forall b: nat {:trigger Placed(s, b)} :: Occupied(s, b) ==> Placed(s, b))
    && (forall b: nat, c: nat {:trigger Ordered(s, b, c)} ::
          Occupied(s, b) && Occupied(s, c) ==> Ordered(s, b, c))
  }

  lemma PlacedIn(s: Shape, b: nat)
    requires WellChained(s) && Occupied(s, b)
    ensures Placed(s, b)
  {
  }

  lemma OrderedIn(s: Shape, b: nat, c: nat)
    requires WellChained(s) && Occupied(s, b) && Occupied(s, c)
    ensures Ordered(s, b, c)
  {
  }

  // ---- Primitive updates ----

  /** Let bucket `p` skip over its successor `b`. */
  function Cut(s: Shape, p: nat, b: nat): Shape
    requires p < |s.meta| && b < |s.meta|
  {
    s.(meta := s.meta[p := s.meta[p].(next := s.meta[b].next)])
  }

  /** Take bucket `b` out of the chain in which `p` precedes it, and empty it. */
  function Unlink(s: Shape, p: nat, b: nat): Shape
    requires p < |s.meta| && b < |s.meta|
  {
    Vacate(Cut(s, p, b), b)
  }

  /** Put a key of home `h` into bucket `e`, at displacement `d`, linked behind `p`. */
  function Link(s: Shape, h: nat, p: nat, e: nat, d: Displacement, frag: Nibble): Shape
    requires Sized(s) && p < |s.meta| && e < |s.meta|
  {
    Shape(s.meta[e := Metadatum(frag, false, s.meta[p].next)][p := s.meta[p].(next := d)],
          s.home[e := h], s.disp[e := d])
  }

  /** Start a chain at bucket `e`. */
  function Begin(s: Shape, e: nat, frag: Nibble): Shape
    requires Sized(s) && e < |s.meta|
  {
    Shape(s.meta[e := Metadatum(frag, true, DISPLACEMENT_LIMIT)], s.home[e := e], s.disp[e := 0])
  }

  function Vacate(s: Shape, b: nat): Shape
    requires b < |s.meta|
  {
    s.(meta := s.meta[b := EMPTY])
  }

  function Refragment(s: Shape, b: nat, frag: Nibble): Shape
    requires b < |s.meta|
  {
    s.(meta := s.meta[b := s.meta[b].(frag := frag)])
  }

  /** Within one chain a displacement is used once. */
  lemma SameDisplacement(s: Shape, b: nat, c: nat)
    requires WellChained(s) && Occupied(s, b) && Occupied(s, c)
    requires s.home[b] == s.home[c] && s.disp[b] == s.disp[c]
    ensures b == c
  {
    hide Slot;
    assert Placed(s, b) && Placed(s, c);
  }

  /** A bucket is flagged exactly when it is the home of its own key. */
  lemma FlagMeansHome(s: Shape, b: nat)
    requires WellChained(s) && Occupied(s, b)
    ensures s.meta[b].inHome <==> s.home[b] == b
    ensures s.disp[b] == 0 <==> s.home[b] == b
  {
    hide Slot;
    assert Placed(s, b);
    if s.disp[b] == 0 {
      SlotAtHome(|s.meta|, s.home[b]);
    }
  }

  /** Only one bucket of a chain links to a given displacement. */
  lemma UniquePredecessor(s: Shape, p: nat, x: nat)
    requires WellChained(s) && Occupied(s, p) && Occupied(s, x)
    requires s.home[p] == s.home[x] && s.meta[p].next == s.meta[x].next
    requires s.meta[p].next < DISPLACEMENT_LIMIT
    ensures p == x
  {
    hide Slot;
    assert Placed(s, p) && Placed(s, x);
    assert Ordered(s, p, x) && Ordered(s, x, p);
    if s.disp[p] == s.disp[x] { SameDisplacement(s, p, x); }
  }

  lemma UnlinkKeeps(s: Shape, p: nat, b: nat)
    requires WellChained(s) && Occupied(s, p) && Occupied(s, b)
    requires s.home[p] == s.home[b] && s.meta[p].next == s.disp[b]
    ensures WellChained(Unlink(s, p, b))
  {
    hide Slot;
    var t := Unlink(s, p, b);
    assert Placed(s, p) && Placed(s, b);
    assert forall x: nat :: Occupied(t, x) <==> Occupied(s, x) && x != b;
    forall x: nat | Occupied(t, x) ensures Placed(t, x) {
      assert Placed(s, x);
      if x != p && s.meta[x].next < DISPLACEMENT_LIMIT && Slot(|s.meta|, s.home[x], s.meta[x].next) == b {
        UniquePredecessor(s, p, x);
      }
    }
    forall x: nat, y: nat | Occupied(t, x) && Occupied(t, y) ensures Ordered(t, x, y) {
      assert Ordered(s, x, y) && Ordered(s, b, y);
      if s.home[y] == s.home[b] && s.disp[y] == s.disp[b] { SameDisplacement(s, y, b); }
    }
  }

  lemma LinkKeeps(s: Shape, h: nat, p: nat, e: nat, d: Displacement, frag: Nibble)
    requires WellChained(s) && Occupied(s, p) && e < |s.meta| && !Occupied(s, e)
    requires s.home[p] == h && s.disp[p] < d < s.meta[p].next
    requires d < |s.meta| && Slot(|s.meta|, h, d) == e
    ensures WellChained(Link(s, h, p, e, d, frag))
  {
    hide Slot;
    var t := Link(s, h, p, e, d, frag);
    assert Placed(s, p);
    assert forall x: nat :: Occupied(t, x) <==> Occupied(s, x) || x == e;
    forall x: nat | Occupied(t, x) ensures Placed(t, x) {
      if x != e { assert Placed(s, x); }
    }
    forall x: nat, y: nat | Occupied(t, x) && Occupied(t, y) ensures Ordered(t, x, y) {
      if x != e && y != e {
        assert Ordered(s, x, y);
      } else if x == e && y != e {
        assert Ordered(s, p, y);
      } else if y == e && x != e {
        assert Ordered(s, x, p) && Ordered(s, p, x) && Placed(s, x);
        if s.home[x] == h && s.disp[x] == s.disp[p] { SameDisplacement(s, x, p); }
      }
    }
  }

  lemma BeginKeeps(s: Shape, e: nat, frag: Nibble)
    requires WellChained(s) && e < |s.meta| && !Occupied(s, e)
    ensures WellChained(Begin(s, e, frag))
  {
    hide Slot;
    var t := Begin(s, e, frag);
    SlotAtHome(|s.meta|, e);
    assert forall x: nat :: Occupied(t, x) <==> Occupied(s, x) || x == e;
    forall x: nat | Occupied(t, x) ensures Placed(t, x) {
      if x != e { assert Placed(s, x); }
    }
    forall x: nat, y: nat | Occupied(t, x) && Occupied(t, y) ensures Ordered(t, x, y) {
      if x != e { assert Placed(s, x); }
      if y != e { assert Placed(s, y); }
      if x != e && y != e { assert Ordered(s, x, y); }
    }
  }

  /** Emptying the only bucket of a chain. */
  lemma VacateKeeps(s: Shape, b: nat)
    requires WellChained(s) && Occupied(s, b)
    requires s.disp[b] == 0 && s.meta[b].next == DISPLACEMENT_LIMIT
    ensures WellChained(Vacate(s, b))
  {
    hide Slot;
    var t := Vacate(s, b);
    FlagMeansHome(s, b);
    assert forall x: nat :: Occupied(t, x) <==> Occupied(s, x) && x != b;
    forall x: nat | Occupied(t, x) ensures Placed(t, x) {
      assert Placed(s, x) && Ordered(s, b, x);
      if s.home[x] == b && s.disp[x] == 0 { SameDisplacement(s, x, b); }
    }
    forall x: nat, y: nat | Occupied(t, x) && Occupied(t, y) ensures Ordered(t, x, y) {
      assert Ordered(s, x, y);
    }
  }

  lemma RefragmentKeeps(s: Shape, b: nat, frag: Nibble)
    requires WellChained(s) && Occupied(s, b)
    ensures WellChained(Refragment(s, b, frag))
  {
    hide Slot;
    var t := Refragment(s, b, frag);
    assert Placed(s, b);
    assert forall x: nat :: Occupied(t, x) <==> Occupied(s, x);
    forall x: nat | Occupied(t, x) ensures Placed(t, x) {
      assert Placed(s, x);
    }
    forall x: nat, y: nat | Occupied(t, x) && Occupied(t, y) ensures Ordered(t, x, y) {
      assert Ordered(s, x, y);
    }
  }

  // ---- What following the links visits ----

  /** The buckets visited by following links from `b` to the end of its chain. */
  ghost function Walk(s: Shape, b: nat): (w: seq<nat>)
    requires WellChained(s) && Occupied(s, b)
    decreases DISPLACEMENT_LIMIT - s.disp[b]
  {
    assert Placed(s, b);
    if s.meta[b].next == DISPLACEMENT_LIMIT then [b]
    else [b] + Walk(s, Slot(|s.meta|, s.home[b], s.meta[b].next))
  }

  /** A bucket at or beyond `b` in its chain is `b` itself or at or beyond the next one. */
  lemma BeyondNext(s: Shape, b: nat, c: nat)
    requires WellChained(s) && Occupied(s, b) && Occupied(s, c)
    requires s.home[c] == s.home[b] && s.disp[b] <= s.disp[c]
    ensures c == b || s.meta[b].next <= s.disp[c] < DISPLACEMENT_LIMIT
  {
    hide Slot;
    assert Placed(s, c) && Ordered(s, b, c);
    if s.disp[b] == s.disp[c] { SameDisplacement(s, b, c); }
  }

  /** The walk visits exactly the keys of that home at or beyond `b`. */
  lemma {:induction false} WalkMembers(s: Shape, b: nat, c: nat)
    requires WellChained(s) && Occupied(s, b)
    ensures c in Walk(s, b) <==> Occupied(s, c) && s.home[c] == s.home[b] && s.disp[b] <= s.disp[c]
    decreases DISPLACEMENT_LIMIT - s.disp[b]
  {
    assert Placed(s, b);
    if Occupied(s, c) && s.home[c] == s.home[b] && s.disp[b] <= s.disp[c] { BeyondNext(s, b, c); }
    if s.meta[b].next < DISPLACEMENT_LIMIT {
      WalkMembers(s, Slot(|s.meta|, s.home[b], s.meta[b].next), c);
    }
  }

  /** It visits them by increasing displacement, and the last of them carries the end mark. */
  lemma {:induction false} WalkVisits(s: Shape, b: nat)
    requires WellChained(s) && Occupied(s, b)
    ensures var w := Walk(s, b);
      && |w| > 0 && w[0] == b
      && (forall i :: 0 <= i < |w| ==> Occupied(s, w[i]))
      && (forall i, j :: 0 <= i < j < |w| ==> s.disp[w[i]] < s.disp[w[j]])
      && s.meta[w[|w| - 1]].next == DISPLACEMENT_LIMIT
    decreases DISPLACEMENT_LIMIT - s.disp[b]
  {
    hide Slot;
    assert Placed(s, b);
    var w := Walk(s, b);
    if s.meta[b].next < DISPLACEMENT_LIMIT {
      var next := Slot(|s.meta|, s.home[b], s.meta[b].next);
      WalkVisits(s, next);
      var rest := Walk(s, next);
      assert w == [b] + rest;
      hide Walk, WellChained;
      assert forall i :: 0 < i < |w| ==> w[i] == rest[i - 1];
      forall i, j | 0 <= i < j < |w| ensures s.disp[w[i]] < s.disp[w[j]] {
        assert j > 1 ==> s.disp[rest[0]] < s.disp[rest[j - 1]];
      }
    }
  }

  /** The chain of a home, from its first bucket: all keys of that home, each once. */
  lemma ChainVisitsHome(s: Shape, h: nat)
    requires WellChained(s) && Occupied(s, h) && s.meta[h].inHome
    ensures forall c: nat :: c in Walk(s, h) <==> Occupied(s, c) && s.home[c] == h
    ensures forall i, j :: 0 <= i < j < |Walk(s, h)| ==> Walk(s, h)[i] != Walk(s, h)[j]
  {
    FlagMeansHome(s, h);
    forall c: nat ensures c in Walk(s, h) <==> Occupied(s, c) && s.home[c] == h {
      WalkMembers(s, h, c);
    }
    WalkVisits(s, h);
  }
}
