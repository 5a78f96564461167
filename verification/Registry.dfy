/** The global deciders of one installed signal, shared by raises that call them without the lock.

    A raise walks the list of deciders. It pins the current one by its reference count, releases the
    lock for the call, and unpins it afterwards; whoever drops the last reference takes the decider
    out of the list. Each step below is one stretch of code under the lock. */
module Registry {
  import opened DeciderOrder
  import opened Walks

  type Thread = nat

  /** `list`: the registered deciders. `deferred`: those waiting to be freed. `handles`: those whose
      owner has not destroyed them. `refs`: the reference counts. `calling`: the raises that are under
      way, each with the decider it is calling. */
  datatype State = State(
    list: seq<Node>,
    deferred: seq<Node>,
    freed: set<Node>,
    handles: set<Node>,
    refs: map<Node, nat>,
    calling: map<Thread, Node>)

  const EMPTY := State([], [], {}, {}, map[], map[])

  datatype Step =
    | Create(node: Node, callFirst: bool)
    | Begin(thread: Thread)
    | Return(thread: Thread, decided: bool)
    | Destroy(node: Node)

  function Refs(s: State, x: Node): nat {
    if x in s.refs then s.refs[x] else 0
  }

  predicate Enabled(s: State, step: Step) {
    match step
    case Create(x, _) => x !in s.list && x !in s.deferred && x !in s.freed
    case Begin(t) => t !in s.calling
    case Return(t, _) => t in s.calling
    case Destroy(x) => x in s.handles
  }

  /** LIST_REMOVE from the registered deciders. */
  function Unregister(s: State, x: Node): State {
    s.(list := Without(s.list, x))
  }

  function Pin(s: State, x: Node): State {
    s.(refs := s.refs[x := Refs(s, x) + 1])
  }

  /** Drops a reference; a reference that does not exist would make the count wrap. */
  function Unpin(s: State, x: Node): State {
    s.(refs := s.refs[x := if Refs(s, x) == 0 then 0 else Refs(s, x) - 1])
  }

  /** Frees everything that waits to be freed. */
  function Drain(s: State): State {
    s.(deferred := [], freed := s.freed + Members(s.deferred))
  }

  /** The raise `t` pins `x` and calls it. */
  function Call(s: State, t: Thread, x: Node): State {
    Pin(s, x).(calling := s.calling[t := x])
  }

  /** The raise `t` has unpinned its decider and goes on to `rest`, or ends. */
  function Advance(s: State, t: Thread, rest: seq<Node>, decided: bool): State {
    if decided || rest == [] then s.(calling := s.calling - {t})
    else Call(s, t, rest[0])
  }

  function Apply(s: State, step: Step): State
    requires Enabled(s, step)
  {
    match step
    case Create(x, callFirst) =>
      s.(list := if callFirst then [x] + s.list else s.list + [x],
         refs := s.refs[x := 1], handles := s.handles + {x})
    case Begin(t) =>
      if s.list == [] then s else Call(s, t, s.list[0])
    case Return(t, decided) =>
      var c := s.calling[t];
      var rest := Rest(s.list, c);
      var u := Unpin(s, c);
      if Refs(u, c) == 0 then
        var v := Unregister(u, c);
        Advance(v.(deferred := v.deferred + [c]), t, rest, decided)
      else
        Advance(u, t, rest, decided)
    case Destroy(x) =>
      var u := Unpin(Drain(s), x).(handles := s.handles - {x});
      if Refs(u, x) == 0 then
        var v := Unregister(u, x);
        v.(freed := v.freed + {x})
      else u
  }

  /** The raises that are calling `x`. */
  ghost function Callers(s: State, x: Node): set<Thread> {
    set t | t in s.calling && s.calling[t] == x
  }

  ghost predicate Disjoint(s: State) {
    && Distinct(s.list) && Distinct(s.deferred)
    && (forall x :: x in s.list ==> x !in s.deferred && x !in s.freed)
    && (forall x :: x in s.deferred ==> x !in s.freed)
  }

  /** The count of a registered decider is its handle plus its callers, and there is one. */
  ghost predicate Counted(s: State, x: Node) {
    Refs(s, x) == |Callers(s, x)| + (if x in s.handles then 1 else 0) > 0
  }

  ghost predicate Valid(s: State) {
    && Disjoint(s)
    && s.handles <= Members(s.list)
    && (forall x {:trigger Counted(s, x)} :: x in s.list ==> Counted(s, x))
    && (forall t :: t in s.calling ==> s.calling[t] in s.list)
  }

  // ---- What the steps do to the counts ----

  lemma CallersPut(s: State, t: Thread, c: Node, x: Node)
    ensures Callers(s.(calling := s.calling[t := c]), x) == (Callers(s, x) - {t}) + (if c == x then {t} else {})
    ensures Callers(s.(calling := s.calling - {t}), x) == Callers(s, x) - {t}
  {
  }

  lemma CallKeeps(s: State, t: Thread, c: Node)
    requires Valid(s) && t !in s.calling && c in s.list
    ensures Valid(Call(s, t, c))
  {
    var s' := Call(s, t, c);
    forall x | x in s.list ensures Counted(s', x) {
      assert Counted(s, x);
      CallersPut(s, t, c, x);
      assert Callers(s', x) == Callers(s.(calling := s.calling[t := c]), x);
      assert t !in Callers(s, x);
    }
  }

  /** Valid, except that nothing refers to the registered decider `x` any more. */
  ghost predicate Abandoned(s: State, x: Node) {
    && Disjoint(s) && x in s.list && x !in s.handles && Callers(s, x) == {}
    && s.handles <= Members(s.list)
    && (forall y {:trigger Counted(s, y)} :: y in s.list && y != x ==> Counted(s, y))
    && (forall t :: t in s.calling ==> s.calling[t] in s.list)
  }

  /** Such a decider can be taken out of the list, and be freed now or later. */
  lemma UnregisterKeeps(s: State, x: Node)
    requires Abandoned(s, x)
    ensures var v := Unregister(s, x);
      Valid(v.(deferred := v.deferred + [x])) && Valid(v.(freed := v.freed + {x}))
  {
    hide Without;
    var v := Unregister(s, x);
    WithoutDistinct(s.list, x);
    forall y ensures y in v.list <==> y in s.list && y != x { WithoutMembers(s.list, x, y); }
    forall t | t in v.calling ensures v.calling[t] in v.list {
      assert t in Callers(s, x) <==> s.calling[t] == x;
    }
    var later, now := v.(deferred := v.deferred + [x]), v.(freed := v.freed + {x});
    forall y | y in v.list ensures Counted(later, y) && Counted(now, y) {
      assert Counted(s, y);
      assert Callers(later, y) == Callers(s, y) == Callers(now, y);
    }
  }

  /** The raise `t` drops its reference. */
  function Released(s: State, t: Thread): State
    requires t in s.calling
  {
    Unpin(s, s.calling[t]).(calling := s.calling - {t})
  }

  lemma ReleasedCallers(s: State, t: Thread, x: Node)
    requires t in s.calling
    ensures |Callers(Released(s, t), x)| == |Callers(s, x)| - if x == s.calling[t] then 1 else 0
  {
    CallersPut(s, t, s.calling[t], x);
    assert Callers(Released(s, t), x) == Callers(s.(calling := s.calling - {t}), x) == Callers(s, x) - {t};
    assert t in Callers(s, x) <==> x == s.calling[t];
  }

  /** A decider that is being called is registered and counted. */
  lemma CurrentCounted(s: State, t: Thread)
    requires Valid(s) && t in s.calling
    ensures var c := s.calling[t];
      c in s.list && Counted(s, c) && |Callers(s, c)| > 0 && Refs(s, c) > 0
  {
    assert Counted(s, s.calling[t]) && t in Callers(s, s.calling[t]);
  }

  lemma ReleaseCounts(s: State, t: Thread)
    requires Valid(s) && t in s.calling
    ensures var c, u := s.calling[t], Released(s, t);
      && (forall x :: x in s.list && (x != c || Refs(s, c) > 1) ==> Counted(u, x))
      && (Refs(s, c) == 1 ==> Callers(u, c) == {} && c !in s.handles)
  {
    hide Callers;
    CurrentCounted(s, t);
    var c, u := s.calling[t], Released(s, t);
    forall x | x in s.list && (x != c || Refs(s, c) > 1) ensures Counted(u, x) {
      assert Counted(s, x);
      ReleasedCallers(s, t, x);
    }
    ReleasedCallers(s, t, c);
  }

  lemma ReleaseKeeps(s: State, t: Thread)
    requires Valid(s) && t in s.calling
    ensures var c, u := s.calling[t], Released(s, t);
      if Refs(s, c) == 1 then Abandoned(u, c) else Valid(u)
  {
    hide Counted;
    CurrentCounted(s, t);
    ReleaseCounts(s, t);
    var c, u := s.calling[t], Released(s, t);
    assert forall k :: k in u.calling ==> u.calling[k] == s.calling[k];
  }

  /** What a raise does when it ends, in terms of `Released`. */
  lemma LeaveIsRelease(s: State, t: Thread)
    requires t in s.calling && Refs(s, s.calling[t]) > 0
    ensures var c, u, s' := s.calling[t], Released(s, t), Apply(s, Return(t, true));
      s' == if Refs(s, c) == 1 then (var v := Unregister(u, c); v.(deferred := v.deferred + [c])) else u
  {
    hide Without, From, Rest;
  }

  /** A raise unpins its current decider and ends. */
  lemma LeaveKeeps(s: State, t: Thread)
    requires Valid(s) && t in s.calling
    ensures Valid(Apply(s, Return(t, true)))
  {
    CurrentCounted(s, t);
    ReleaseKeeps(s, t);
    LeaveIsRelease(s, t);
    hide Valid, Abandoned, Apply, Unregister;
    var c, u := s.calling[t], Released(s, t);
    if Refs(s, c) == 1 { UnregisterKeeps(u, c); }
  }

  lemma DisjointIn(s: State)
    requires Valid(s)
    ensures Disjoint(s) && Distinct(s.list)
  {
  }

  /** A raise that goes on does what ending and calling the next decider do. */
  lemma ReturnKeeps(s: State, t: Thread, decided: bool)
    requires Valid(s) && t in s.calling
    ensures Valid(Apply(s, Return(t, decided)))
  {
    hide Without, From, Rest, Valid;
    LeaveKeeps(s, t);
    CurrentCounted(s, t);
    DisjointIn(s);
    var c, left := s.calling[t], Apply(s, Return(t, true));
    var rest := Rest(s.list, c);
    if decided || rest == [] {
      assert Apply(s, Return(t, decided)) == left;
    } else {
      RestOfNext(s.list, c);
      WithoutMembers(s.list, c, rest[0]);
      assert Apply(s, Return(t, decided)) == Call(left, t, rest[0]);
      CallKeeps(left, t, rest[0]);
    }
  }

  lemma CreateKeeps(s: State, x: Node, callFirst: bool)
    requires Valid(s) && Enabled(s, Create(x, callFirst))
    ensures Valid(Apply(s, Create(x, callFirst)))
  {
    var s' := Apply(s, Create(x, callFirst));
    assert forall y :: y in s'.list <==> y == x || y in s.list;
    forall y | y in s'.list ensures Counted(s', y) {
      assert Callers(s', y) == Callers(s, y);
      if y != x { assert Counted(s, y); } else { assert Callers(s, x) == {}; }
    }
  }

  lemma BeginKeeps(s: State, t: Thread)
    requires Valid(s) && t !in s.calling
    ensures Valid(Apply(s, Begin(t)))
  {
    if s.list != [] { CallKeeps(s, t, s.list[0]); }
  }

  lemma DestroyKeeps(s: State, x: Node)
    requires Valid(s) && x in s.handles
    ensures Valid(Apply(s, Destroy(x)))
  {
    hide Without;
    var u := Unpin(Drain(s), x).(handles := s.handles - {x});
    assert Counted(s, x);
    forall y | y in s.list ensures Callers(u, y) == Callers(s, y) && (y != x ==> Counted(u, y)) {
      assert Counted(s, y);
      assert Callers(u, y) == Callers(s, y);
    }
    if Refs(u, x) == 0 {
      assert |Callers(s, x)| == 0;
      UnregisterKeeps(u, x);
    } else {
      assert Counted(u, x);
    }
  }

  /** Every step keeps the registry valid. */
  lemma StepKeeps(s: State, step: Step)
    requires Valid(s) && Enabled(s, step)
    ensures Valid(Apply(s, step))
  {
    hide Valid;
    match step
    case Create(x, callFirst) => CreateKeeps(s, x, callFirst);
    case Begin(t) => BeginKeeps(s, t);
    case Return(t, decided) => ReturnKeeps(s, t, decided);
    case Destroy(x) => DestroyKeeps(s, x);
  }

  // ---- No decider is lost ----

  /** The deciders that are registered, waiting to be freed, or freed. */
  ghost function Owned(list: seq<Node>, deferred: seq<Node>, freed: set<Node>): set<Node> {
    Members(list) + Members(deferred) + freed
  }

  ghost function All(s: State): set<Node> {
    Owned(s.list, s.deferred, s.freed)
  }

  lemma OwnedGrows(list: seq<Node>, deferred: seq<Node>, freed: set<Node>, x: Node)
    ensures Owned([x] + list, deferred, freed) == Owned(list, deferred, freed) + {x}
    ensures Owned(list + [x], deferred, freed) == Owned(list, deferred, freed) + {x}
  {
    MembersOfLonger(list, x);
  }

  /** A decider that leaves the list stays owned, and so does one that is freed. */
  lemma OwnedMoves(list: seq<Node>, deferred: seq<Node>, freed: set<Node>, x: Node)
    ensures Owned(list, [], freed + Members(deferred)) == Owned(list, deferred, freed)
    ensures x in list ==> Owned(Without(list, x), deferred + [x], freed) == Owned(list, deferred, freed)
    ensures x in list ==> Owned(Without(list, x), deferred, freed + {x}) == Owned(list, deferred, freed)
  {
    MembersWithout(list, x);
    hide Without;
    assert Members([]) == {} && Members(deferred + [x]) == Members(deferred) + {x};
    assert x in list ==> x in Members(list);
    hide Members;
  }

  /** What the end of a call does to the three collections. */
  lemma ReturnMoves(s: State, t: Thread, decided: bool)
    requires t in s.calling && Refs(s, s.calling[t]) > 0
    ensures var c, s' := s.calling[t], Apply(s, Return(t, decided));
      && s'.freed == s.freed
      && if Refs(s, c) == 1 then s'.list == Without(s.list, c) && s'.deferred == s.deferred + [c]
         else s'.list == s.list && s'.deferred == s.deferred
  {
    hide Without, From, Rest;
  }

  lemma DestroyMoves(s: State, x: Node)
    requires x in s.handles && Refs(s, x) > 0
    ensures var s' := Apply(s, Destroy(x));
      && s'.deferred == []
      && if Refs(s, x) == 1 then s'.list == Without(s.list, x) && s'.freed == s.freed + Members(s.deferred) + {x}
         else s'.list == s.list && s'.freed == s.freed + Members(s.deferred)
  {
    hide Without, Members;
  }

  lemma ReturnKeepsAll(s: State, t: Thread, decided: bool)
    requires Valid(s) && t in s.calling
    ensures All(Apply(s, Return(t, decided))) == All(s) && Apply(s, Return(t, decided)).freed == s.freed
  {
    hide Apply, Without, Owned, Valid, Rest, From, Callers;
    CurrentCounted(s, t);
    ReturnMoves(s, t, decided);
    OwnedMoves(s.list, s.deferred, s.freed, s.calling[t]);
  }

  lemma DestroyKeepsAll(s: State, x: Node)
    requires Valid(s) && x in s.handles
    ensures var s' := Apply(s, Destroy(x));
      && All(s') == All(s) && s'.deferred == []
      && s'.freed == s.freed + Members(s.deferred) + (if Callers(s, x) == {} then {x} else {})
  {
    assert x in s.list && Counted(s, x);
    DestroyMoves(s, x);
    hide Apply, Without, Owned, Members, Valid;
    OwnedMoves(s.list, s.deferred, s.freed, x);
    OwnedMoves(s.list, [], s.freed + Members(s.deferred), x);
  }

  lemma CreateKeepsAll(s: State, x: Node, callFirst: bool)
    requires Enabled(s, Create(x, callFirst))
    ensures All(Apply(s, Create(x, callFirst))) == All(s) + {x}
  {
    hide Owned;
    OwnedGrows(s.list, s.deferred, s.freed, x);
  }

  /** No step loses a decider or frees one twice: what leaves the list waits or is freed, once. Only
      destruction frees: everything that waits, and the decider itself unless it is being called. */
  lemma NothingLost(s: State, step: Step)
    requires Valid(s) && Enabled(s, step)
    ensures var s' := Apply(s, step);
      && Disjoint(s')
      && All(s') == All(s) + (if step.Create? then {step.node} else {})
      && if step.Destroy? then
           && s'.deferred == []
           && s'.freed == s.freed + Members(s.deferred) + (if Callers(s, step.node) == {} then {step.node} else {})
         else s'.freed == s.freed
  {
    StepKeeps(s, step);
    DisjointIn(Apply(s, step));
    hide Valid, Disjoint;
    match step
    case Create(x, callFirst) => CreateKeepsAll(s, x, callFirst);
    case Begin(_) =>
    case Return(t, decided) => ReturnKeepsAll(s, t, decided);
    case Destroy(x) => DestroyKeepsAll(s, x);
  }

  // ---- Which decider a raise calls next ----

  /** After a call, a raise ends exactly if that decided or nothing is behind the decider in the list;
      else it calls the next one, whether or not the decider that returned leaves the list. */
  lemma NextAfter(s: State, t: Thread, decided: bool, p: nat)
    requires Valid(s) && t in s.calling && p < |s.list| && s.list[p] == s.calling[t]
    ensures Apply(s, Return(t, decided)).calling ==
              if decided || p + 1 == |s.list| then s.calling - {t} else s.calling[t := s.list[p + 1]]
  {
    hide Without, From, Rest;
    RestAt(s.list, p);
  }

  /** A raise begins with the first decider, and goes on as above. No step touches the other raises. */
  lemma NextCall(s: State, step: Step)
    requires Valid(s) && Enabled(s, step)
    ensures var s' := Apply(s, step);
      match step
      case Begin(t) => s'.calling == if s.list == [] then s.calling else s.calling[t := s.list[0]]
      case Return(t, decided) =>
        forall p: nat :: p < |s.list| && s.list[p] == s.calling[t] ==>
          s'.calling == if decided || p + 1 == |s.list| then s.calling - {t} else s.calling[t := s.list[p + 1]]
      case _ => s'.calling == s.calling
  {
    hide Without, From, Rest;
    if step.Return? {
      forall p: nat | p < |s.list| && s.list[p] == s.calling[step.thread]
        ensures Rest(s.list, s.calling[step.thread]) == s.list[p + 1..]
      {
        RestAt(s.list, p);
      }
    }
  }
}
