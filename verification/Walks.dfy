/** Walks along a list of deciders that changes while they are under way. */
module Walks {
  import opened DeciderOrder

  type Node = nat

  /** What the walker at `c` has still to call after `c`. */
  function Rest(list: seq<Node>, c: Node): seq<Node> {
    var f := From(list, c);
    if f == [] then [] else f[1..]
  }

  function Members(s: seq<Node>): set<Node> {
    set x | x in s
  }

  /** The part of a sequence that lies in `keep`. */
  function Keep(s: seq<Node>, keep: set<Node>): seq<Node> {
    if s == [] then [] else (if s[0] in keep then [s[0]] else []) + Keep(s[1..], keep)
  }

  ghost predicate Distinct(list: seq<Node>) {
    forall i, j :: 0 <= i < j < |list| ==> list[i] != list[j]
  }

  // ---- Sequences ----

  lemma {:induction false} KeepConcat(a: seq<Node>, b: seq<Node>, keep: set<Node>)
    ensures Keep(a + b, keep) == Keep(a, keep) + Keep(b, keep)
  {
    if a == [] {
      assert a + b == b;
    } else {
      KeepConcat(a[1..], b, keep);
      assert (a + b)[1..] == a[1..] + b;
      var head := if a[0] in keep then [a[0]] else [];
      assert Keep(a + b, keep) == head + Keep(a[1..] + b, keep);
      hide Keep;
      assert head + (Keep(a[1..], keep) + Keep(b, keep)) == (head + Keep(a[1..], keep)) + Keep(b, keep);
    }
  }

  lemma {:induction false} KeepWithout(s: seq<Node>, keep: set<Node>, x: Node)
    requires x !in keep
    ensures Keep(Without(s, x), keep) == Keep(s, keep)
  {
    if s != [] {
      KeepWithout(s[1..], keep, x);
      var kept := if s[0] == x then [] else [s[0]];
      KeepConcat(kept, Without(s[1..], x), keep);
    }
  }

  lemma {:induction false} WithoutMembers(s: seq<Node>, x: Node, y: Node)
    ensures y in Without(s, x) <==> y in s && y != x
  {
    if s != [] { WithoutMembers(s[1..], x, y); }
  }

  lemma MembersWithout(list: seq<Node>, x: Node)
    ensures Members(Without(list, x)) == Members(list) - {x}
  {
    hide Without;
    forall y ensures y in Without(list, x) <==> y in list && y != x { WithoutMembers(list, x, y); }
  }

  lemma {:induction false} WithoutDistinct(list: seq<Node>, x: Node)
    requires Distinct(list)
    ensures Distinct(Without(list, x))
  {
    if list != [] {
      WithoutDistinct(list[1..], x);
      WithoutMembers(list[1..], x, list[0]);
      var rest := Without(list[1..], x);
      assert forall i :: 0 <= i < |rest| ==> rest[i] in rest;
      assert list[0] !in list[1..];
    }
  }

  /** A walker at `c` has `c` and the rest before it. */
  lemma {:induction false} FromRest(list: seq<Node>, c: Node)
    requires c in list
    ensures From(list, c) == [c] + Rest(list, c)
    ensures forall x :: x in Rest(list, c) ==> x in list
  {
    if list[0] != c { FromRest(list[1..], c); }
  }

  /** The rest is what stands behind `c`. */
  lemma RestAt(list: seq<Node>, p: nat)
    requires Distinct(list) && p < |list|
    ensures Rest(list, list[p]) == list[p + 1..]
  {
    FromSuffix(list, p);
    assert list[p..][1..] == list[p + 1..];
  }

  lemma RestWithout(list: seq<Node>, c: Node, x: Node)
    requires c in list && c != x
    ensures c in Without(list, x) && Rest(Without(list, x), c) == Without(Rest(list, c), x)
  {
    hide Without, From;
    WithoutMembers(list, x, c);
    FromRest(list, c);
    FromRest(Without(list, x), c);
    FromWithout(list, c, x);
    WithoutConcat([c], Rest(list, c), x);
    WithoutAtMostOne([c], x);
  }

  lemma {:induction false} FromAppend(list: seq<Node>, c: Node, x: Node)
    requires c in list
    ensures From(list + [x], c) == From(list, c) + [x]
  {
    if list[0] != c {
      FromAppend(list[1..], c, x);
      assert (list + [x])[1..] == list[1..] + [x];
    }
  }

  lemma RestOfNext(list: seq<Node>, c: Node)
    requires Distinct(list) && c in list && Rest(list, c) != []
    ensures var n := Rest(list, c)[0];
      && n in list && n != c && Rest(list, n) == Rest(list, c)[1..] && n !in Rest(list, n)
  {
    var p: nat :| p < |list| && list[p] == c;
    RestAt(list, p);
    RestAt(list, p + 1);
    assert list[p + 1..][1..] == list[p + 2..];
  }

  // ---- Walks ----

  /** A walk has made the calls `calls` and is now at `c`. Of the deciders in `stay`, the calls made and
      the calls to come are the list; no decider is called twice. `owned`: all deciders so far. */
  ghost predicate OnCourse(list: seq<Node>, owned: set<Node>, c: Node, calls: seq<Node>, stay: set<Node>) {
    && c in list && Members(list) <= owned && Members(calls) <= owned
    && Keep(calls, stay) + Keep(Rest(list, c), stay) == Keep(list, stay)
    && Distinct(calls) && (forall x :: x in calls ==> x !in Rest(list, c))
  }

  /** A walk starts with the first decider of the list. */
  lemma CourseStarts(list: seq<Node>, owned: set<Node>, stay: set<Node>)
    requires Distinct(list) && list != [] && Members(list) <= owned
    ensures OnCourse(list, owned, list[0], [list[0]], stay)
  {
    RestAt(list, 0);
    assert list == [list[0]] + list[1..];
    KeepConcat([list[0]], list[1..], stay);
  }

  /** A decider that is not in `stay` leaves the list. */
  lemma CourseAfterRemoval(list: seq<Node>, owned: set<Node>, c: Node, calls: seq<Node>, stay: set<Node>, x: Node)
    requires OnCourse(list, owned, c, calls, stay) && x != c && x !in stay
    ensures OnCourse(Without(list, x), owned, c, calls, stay) && Keep(Without(list, x), stay) == Keep(list, stay)
  {
    hide Keep, Without, From, Rest;
    RestWithout(list, c, x);
    KeepWithout(Rest(list, c), stay, x);
    KeepWithout(list, stay, x);
    MembersWithout(list, x);
    forall y ensures y in Without(Rest(list, c), x) <==> y in Rest(list, c) && y != x {
      WithoutMembers(Rest(list, c), x, y);
    }
  }

  lemma RestOfLonger(list: seq<Node>, c: Node, x: Node)
    requires c in list && c != x
    ensures Rest([x] + list, c) == Rest(list, c) && Rest(list + [x], c) == Rest(list, c) + [x]
  {
    assert ([x] + list)[1..] == list;
    FromAppend(list, c, x);
    FromRest(list, c);
  }

  lemma KeepOfLonger(list: seq<Node>, stay: set<Node>, x: Node)
    requires x !in stay
    ensures Keep([x] + list, stay) == Keep(list, stay) == Keep(list + [x], stay)
  {
    assert Keep([x], stay) == [];
    KeepConcat([x], list, stay);
    KeepConcat(list, [x], stay);
  }

  lemma MembersOfLonger(list: seq<Node>, x: Node)
    ensures Members([x] + list) == Members(list) + {x} == Members(list + [x])
  {
  }

  lemma NotOwned(s: seq<Node>, owned: set<Node>, x: Node)
    requires Members(s) <= owned && x !in owned
    ensures x !in s
  {
    assert x in s <==> x in Members(s);
  }

  /** A new decider enters the list, at the front or at the back. */
  lemma CourseAfterInsertion(list: seq<Node>, list': seq<Node>, owned: set<Node>, c: Node, calls: seq<Node>,
                             stay: set<Node>, x: Node)
    requires OnCourse(list, owned, c, calls, stay) && x !in owned && x !in stay
    requires list' == [x] + list || list' == list + [x]
    ensures OnCourse(list', owned + {x}, c, calls, stay) && Keep(list', stay) == Keep(list, stay)
  {
    hide Keep, Rest, Members, From;
    NotOwned(list, owned, x);
    NotOwned(calls, owned, x);
    MembersOfLonger(list, x);
    RestOfLonger(list, c, x);
    KeepOfLonger(list, stay, x);
    KeepOfLonger(Rest(list, c), stay, x);
    assert Keep(Rest(list', c), stay) == Keep(Rest(list, c), stay);
  }

  /** The walk goes on to the next decider. */
  lemma CourseAfterStep(list: seq<Node>, owned: set<Node>, c: Node, calls: seq<Node>, stay: set<Node>)
    requires OnCourse(list, owned, c, calls, stay) && Distinct(list) && Rest(list, c) != []
    ensures var n := Rest(list, c)[0];
      n in list && n != c && OnCourse(list, owned, n, calls + [n], stay)
  {
    var rest := Rest(list, c);
    var n := rest[0];
    RestOfNext(list, c);
    assert rest == [n] + rest[1..];
    KeepConcat(calls, [n], stay);
    KeepConcat([n], rest[1..], stay);
    assert n in Members(list) && Members(calls + [n]) == Members(calls) + {n};
    hide Keep, Rest, Members;
    assert Keep(calls + [n], stay) + Keep(rest[1..], stay) == Keep(calls, stay) + Keep(rest, stay);
    DistinctSnoc(calls, n);
  }

  lemma DistinctSnoc(s: seq<Node>, x: Node)
    requires Distinct(s) && x !in s
    ensures Distinct(s + [x])
  {
  }
}
