/** The order in which a list built by front insertions, back insertions and removals is walked. */
module DeciderOrder {

  /** `Front`: LIST_INSERT_FRONT (a decider to be called first), `Back`: LIST_INSERT_BACK,
      `Removal`: LIST_REMOVE. */
  datatype Event<T> = Front(node: T) | Back(node: T) | Removal(node: T)

  function Without<T(==)>(s: seq<T>, x: T): seq<T> {
    if s == [] then [] else (if s[0] == x then [] else [s[0]]) + Without(s[1..], x)
  }

  /** The list after a history of updates, one after the other. */
  function Replay<T(==)>(h: seq<Event<T>>): seq<T> {
    if h == [] then []
    else
      var s := Replay(h[..|h| - 1]);
      match h[|h| - 1]
      case Front(x) => [x] + s
      case Back(x) => s + [x]
      case Removal(x) => Without(s, x)
  }

  lemma ReplayRemoval<T>(h: seq<Event<T>>, x: T)
    ensures Replay(h + [Removal(x)]) == Without(Replay(h), x)
  {
    assert (h + [Removal(x)])[..|h|] == h;
  }

  /** The insertion at position `i` of the history has not been undone. */
  ghost predicate Live<T>(h: seq<Event<T>>, i: nat)
    requires i < |h|
  {
    forall j :: i < j < |h| && h[j].Removal? ==> h[j].node != h[i].node
  }

  /** The live front insertions among the first `i` events, newest first. */
  ghost function LiveFronts<T>(h: seq<Event<T>>, i: nat): seq<T>
    requires i <= |h|
  {
    if i == 0 then []
    else (if h[i - 1].Front? && Live(h, i - 1) then [h[i - 1].node] else []) + LiveFronts(h, i - 1)
  }

  /** The live back insertions among the first `i` events, oldest first. */
  ghost function LiveBacks<T>(h: seq<Event<T>>, i: nat): seq<T>
    requires i <= |h|
  {
    if i == 0 then []
    else LiveBacks(h, i - 1) + (if h[i - 1].Back? && Live(h, i - 1) then [h[i - 1].node] else [])
  }

  lemma {:induction false} WithoutConcat<T>(s: seq<T>, t: seq<T>, x: T)
    ensures Without(s + t, x) == Without(s, x) + Without(t, x)
  {
    if s == [] {
      assert s + t == t;
    } else {
      WithoutConcat(s[1..], t, x);
      assert (s + t)[1..] == s[1..] + t;
      var head := if s[0] == x then [] else [s[0]];
      assert Without(s + t, x) == head + Without(s[1..] + t, x);
      hide Without;
      assert head + (Without(s[1..], x) + Without(t, x)) == (head + Without(s[1..], x)) + Without(t, x);
    }
  }

  lemma WithoutAtMostOne<T>(s: seq<T>, x: T)
    requires |s| <= 1
    ensures Without(s, x) == if s == [] || s[0] == x then [] else s
  {
    if s != [] { assert s == [s[0]] && Without(s[1..], x) == []; }
  }

  lemma {:induction false} WithoutAbsent<T>(s: seq<T>, x: T)
    requires x !in s
    ensures Without(s, x) == s
  {
    if s != [] { WithoutAbsent(s[1..], x); }
  }

  /** An insertion does not end the life of earlier ones. */
  lemma {:induction false} InsertionKeeps<T>(h: seq<Event<T>>, e: Event<T>, i: nat)
    requires i <= |h| && !e.Removal?
    ensures LiveFronts(h + [e], i) == LiveFronts(h, i) && LiveBacks(h + [e], i) == LiveBacks(h, i)
    decreases i
  {
    if i > 0 {
      InsertionKeeps(h, e, i - 1);
      assert Live(h + [e], i - 1) <==> Live(h, i - 1) by {
        assert forall j :: i - 1 < j < |h| ==> (h + [e])[j] == h[j];
      }
    }
  }

  /** A removal ends the life of the insertions of that node, and of no other. */
  lemma {:induction false} RemovalDrops<T>(h: seq<Event<T>>, x: T, i: nat)
    requires i <= |h|
    ensures var h' := h + [Removal(x)];
      LiveFronts(h', i) == Without(LiveFronts(h, i), x) && LiveBacks(h', i) == Without(LiveBacks(h, i), x)
    decreases i
  {
    hide Without;
    var h' := h + [Removal(x)];
    WithoutAtMostOne<T>([], x);
    if i > 0 {
      RemovalDrops(h, x, i - 1);
      assert Live(h', i - 1) <==> Live(h, i - 1) && h[i - 1].node != x by {
        assert h'[|h|] == Removal(x);
        assert forall j :: i - 1 < j < |h| ==> h'[j] == h[j];
      }
      var f := if h[i - 1].Front? && Live(h, i - 1) then [h[i - 1].node] else [];
      var b := if h[i - 1].Back? && Live(h, i - 1) then [h[i - 1].node] else [];
      WithoutAtMostOne(f, x);
      WithoutAtMostOne(b, x);
      WithoutConcat(f, LiveFronts(h, i - 1), x);
      WithoutConcat(LiveBacks(h, i - 1), b, x);
    }
  }

  /** The list is the live front insertions, newest first, then the live back insertions, oldest
      first: the order of calls that section 7.14.1 paragraph 11 of the proposed wording demands. */
  lemma {:induction false} CallOrder<T>(h: seq<Event<T>>)
    ensures Replay(h) == LiveFronts(h, |h|) + LiveBacks(h, |h|)
  {
    if h != [] {
      var n := |h| - 1;
      var g, e := h[..n], h[n];
      assert h == g + [e];
      CallOrder(g);
      match e
      case Removal(x) =>
        RemovalDrops(g, x, n);
        WithoutConcat(LiveFronts(g, n), LiveBacks(g, n), x);
      case _ =>
        InsertionKeeps(g, e, n);
    }
  }

  /** What a walker at `c` has still to visit, itself included. */
  function From<T(==)>(s: seq<T>, c: T): seq<T> {
    if s == [] || s[0] == c then s else From(s[1..], c)
  }

  /** Removing another node takes exactly that node from what remains of a walk. */
  lemma {:induction false} FromWithout<T>(s: seq<T>, c: T, x: T)
    requires c != x
    ensures From(Without(s, x), c) == Without(From(s, c), x)
  {
    if s != [] {
      FromWithout(s[1..], c, x);
      if s[0] == x {
        assert Without(s, x) == Without(s[1..], x);
      } else {
        assert Without(s, x) == [s[0]] + Without(s[1..], x);
        assert Without(s, x)[1..] == Without(s[1..], x);
      }
    }
  }

  lemma {:induction false} FromSuffix<T>(s: seq<T>, k: nat)
    requires k < |s| && forall i :: 0 <= i < k ==> s[i] != s[k]
    ensures From(s, s[k]) == s[k..]
  {
    if k > 0 {
      FromSuffix(s[1..], k - 1);
      assert s[1..][k - 1..] == s[k..];
    }
  }

  lemma {:induction false} WithoutOne<T>(s: seq<T>, k: nat)
    requires k < |s| && forall i, j :: 0 <= i < j < |s| ==> s[i] != s[j]
    ensures Without(s, s[k]) == s[..k] + s[k + 1..]
  {
    if k == 0 {
      WithoutAbsent(s[1..], s[0]);
    } else {
      WithoutOne(s[1..], k - 1);
      assert s[..k] + s[k + 1..] == [s[0]] + (s[1..][..k - 1] + s[1..][k..]);
    }
  }
}
