/** The intrusive doubly linked list of global deciders. */
module LinkedLists {
  import opened DeciderOrder

  class Node {
    var next: Node?
    var prev: Node?

    constructor ()
      ensures next == null && prev == null
    {
      next, prev := null, null;
    }
  }

  /** Both ends and the links in both directions agree with the sequence `s`. */
  ghost predicate WellLinked(front: Node?, back: Node?, s: seq<Node>)
    reads s
  {
    && (forall i, j :: 0 <= i < j < |s| ==> s[i] != s[j])
    && front == (if s == [] then null else s[0])
    && back == (if s == [] then null else s[|s| - 1])
    && (forall i {:trigger s[i].next} :: 0 <= i < |s| ==> s[i].next == if i == |s| - 1 then null else s[i + 1])
    && (forall i {:trigger s[i].prev} :: 0 <= i < |s| ==> s[i].prev == if i == 0 then null else s[i - 1])
  }

  class List {
    var front: Node?
    var back: Node?

    /** The updates made so far; the list is what they replay to. */
    ghost var history: seq<Event<Node>>

    /** The nodes in list order. */
    ghost var nodes: seq<Node>

    ghost predicate Valid()
      reads this, nodes
    {
      nodes == Replay(history) && WellLinked(front, back, nodes)
    }

    constructor ()
      ensures Valid() && history == [] && nodes == []
    {
      front, back, history, nodes := null, null, [], [];
    }

    /** LIST_INSERT_FRONT. Into an empty list the links of `item` are not written, so the result is
        well linked exactly if they were null. */
    method InsertFront(item: Node)
      requires Valid() && item !in nodes
      modifies this, item, if front == null then {} else {front}
      ensures history == old(history) + [Front(item)] && nodes == [item] + old(nodes)
      ensures Valid() <==> old(nodes != [] || (item.next == null && item.prev == null))
    {
      if front == null {
        assert back == null;
        front := item;
        back := item;
      } else {
        assert front != null && back != null;
        item.prev := null;
        item.next := front;
        front.prev := item;
        front := item;
      }
      history, nodes := history + [Front(item)], [item] + nodes;
      assert history[..|history| - 1] == old(history);
    }

    /** LIST_INSERT_BACK */
    method InsertBack(item: Node)
      requires Valid() && item !in nodes
      modifies this, item, if back == null then {} else {back}
      ensures history == old(history) + [Back(item)] && nodes == old(nodes) + [item]
      ensures Valid() <==> old(nodes != [] || (item.next == null && item.prev == null))
    {
      if front == null {
        assert back == null;
        front := item;
        back := item;
      } else {
        assert front != null && back != null;
        item.next := null;
        item.prev := back;
        back.next := item;
        back := item;
      }
      history, nodes := history + [Back(item)], nodes + [item];
      assert history[..|history| - 1] == old(history);
    }

    /** The writes of LIST_REMOVE: only the two neighbours of `item`, or an end of the list, come to
        refer to something else. */
    method Detach(item: Node, ghost k: nat)
      requires WellLinked(front, back, nodes) && k < |nodes| && nodes[k] == item
      modifies this`front, this`back, nodes
      ensures front == if k == 0 then old(item.next) else old(front)
      ensures back == if k == |nodes| - 1 then old(item.prev) else old(back)
      ensures forall i {:trigger nodes[i].next} :: 0 <= i < |nodes| && i != k ==>
                nodes[i].next == if i == k - 1 then old(item.next) else old(nodes[i].next)
      ensures forall i {:trigger nodes[i].prev} :: 0 <= i < |nodes| && i != k ==>
                nodes[i].prev == if i == k + 1 then old(item.prev) else old(nodes[i].prev)
      ensures item.next == null && item.prev == null
    {
      if front == item && back == item {
        front := null;
        back := null;
      } else if front == item {
        front := item.next;
        front.prev := null;
      } else if back == item {
        back := item.prev;
        back.next := null;
      } else {
        item.next.prev := item.prev;
        item.prev.next := item.next;
      }
      item.next, item.prev := null, null;
    }

    /** After LIST_REMOVE the list is well linked without the node at position `k`. */
    method Excise(item: Node, ghost k: nat, ghost t: seq<Node>)
      requires WellLinked(front, back, nodes) && k < |nodes| && nodes[k] == item
      requires t == nodes[..k] + nodes[k + 1..]
      modifies this`front, this`back, nodes
      ensures WellLinked(front, back, t) && item !in t
      ensures item.next == null && item.prev == null
    {
      ghost var s := nodes;
      assert forall i :: 0 <= i < |t| ==> t[i] == if i < k then s[i] else s[i + 1];
      assert forall i, j :: 0 <= i < j < |t| ==> t[i] != t[j];
      Detach(item, k);
      forall i | 0 <= i < |t| ensures t[i].next == if i == |t| - 1 then null else t[i + 1] {
        assert s[if i < k then i else i + 1].next == if i == |t| - 1 then null else t[i + 1];
      }
      forall i | 0 <= i < |t| ensures t[i].prev == if i == 0 then null else t[i - 1] {
        assert s[if i < k then i else i + 1].prev == if i == 0 then null else t[i - 1];
      }
    }

    /** LIST_REMOVE: takes out exactly `item` and leaves its links null, as an insertion into an
        empty list needs them. */
    method Remove(item: Node)
      requires Valid() && item in nodes
      modifies this, nodes
      ensures Valid() && history == old(history) + [Removal(item)]
      ensures nodes == Without(old(nodes), item) && item !in nodes
      ensures item.next == null && item.prev == null
    {
      hide Replay, Without;
      ghost var k :| 0 <= k < |nodes| && nodes[k] == item;
      WithoutOne(nodes, k);
      ReplayRemoval(history, item);
      hide WellLinked;
      ghost var t := nodes[..k] + nodes[k + 1..];
      Excise(item, k, t);
      history, nodes := history + [Removal(item)], t;
    }

    /** The list is in call order: live front insertions, newest first, then live back insertions,
        oldest first. */
    lemma NodesInCallOrder()
      requires Valid()
      ensures nodes == LiveFronts(history, |history|) + LiveBacks(history, |history|)
    {
      CallOrder(history);
    }

    /** Following `next` from a node of the list visits the rest of the list in order. */
    method Walk(start: Node) returns (walk: seq<Node>)
      requires Valid() && start in nodes
      ensures walk == From(nodes, start)
    {
      hide Replay, From;
      ghost var s := nodes;
      ghost var k :| 0 <= k < |s| && s[k] == start;
      FromSuffix(s, k);
      walk := [];
      var current: Node? := start;
      ghost var i := k;
      while current != null
        invariant k <= i <= |s| && walk == s[k..i]
        invariant current == if i == |s| then null else s[i]
        decreases |s| - i
      {
        walk := walk + [current];
        current := current.next;
        i := i + 1;
      }
    }

    /** Removing a node while a walker is at another one drops that node from the walk. */
    method RemoveDuringWalk(current: Node, item: Node) returns (rest: seq<Node>)
      requires Valid() && current in nodes && item in nodes && current != item
      modifies this, nodes
      ensures Valid() && rest == From(nodes, current) == Without(old(From(nodes, current)), item)
    {
      FromWithout(nodes, current, item);
      WithoutKeeps(nodes, item, current);
      Remove(item);
      rest := Walk(current);
    }
  }

  /** LIST_REMOVE from one list, then LIST_INSERT_BACK into another, which may be empty: the removal
      leaves the null links that the insertion needs. */
  method Retire(registered: List, deferred: List, item: Node)
    requires registered.Valid() && deferred.Valid() && registered != deferred
    requires item in registered.nodes && forall n :: n in registered.nodes ==> n !in deferred.nodes
    modifies registered, deferred, registered.nodes, deferred.nodes
    ensures registered.Valid() && registered.nodes == Without(old(registered.nodes), item)
    ensures deferred.Valid() && deferred.nodes == old(deferred.nodes) + [item]
  {
    hide Replay, Without;
    ghost var waiting := deferred.nodes;
    registered.Remove(item);
    WithoutSubset(old(registered.nodes), item);
    assert deferred.nodes == waiting && deferred.history == old(deferred.history);
    assert forall n :: n in waiting ==> n.next == old(n.next) && n.prev == old(n.prev);
    assert deferred.Valid();
    ghost var rest := registered.nodes;
    assert forall n :: n in rest ==> n != item && n !in waiting;
    assert deferred.back != null ==> deferred.back in waiting;
    label removed:
    deferred.InsertBack(item);
    assert forall n :: n in rest ==> n.next == old@removed(n.next) && n.prev == old@removed(n.prev);
  }

  lemma {:induction false} WithoutSubset<T>(s: seq<T>, x: T)
    ensures forall y :: y in Without(s, x) ==> y in s
  {
    if s != [] { WithoutSubset(s[1..], x); }
  }

  lemma {:induction false} WithoutKeeps<T>(s: seq<T>, x: T, y: T)
    requires x != y && y in s
    ensures y in Without(s, x)
  {
    if s[0] != y { WithoutKeeps(s[1..], x, y); }
  }
}
