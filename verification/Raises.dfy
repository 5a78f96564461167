/** Whole behaviours of the registry: the order of the deciders, and the calls that a raise makes while
    other threads create and destroy deciders and raise signals themselves. */
module Raises {
  import opened DeciderOrder
  import opened Registry
  import opened Walks

  /** The states that the steps lead through, in the order in which the lock was held for them. */
  ghost predicate Behaviour(states: seq<State>, steps: seq<Step>) {
    && |states| == |steps| + 1 && states[0] == EMPTY
    && forall i :: 0 <= i < |steps| ==> Enabled(states[i], steps[i]) && states[i + 1] == Apply(states[i], steps[i])
  }

  lemma {:induction false} AlwaysValid(states: seq<State>, steps: seq<Step>, n: nat)
    requires Behaviour(states, steps) && n <= |steps|
    ensures Valid(states[n])
  {
    if n > 0 {
      AlwaysValid(states, steps, n - 1);
      StepKeeps(states[n - 1], steps[n - 1]);
    }
  }

  /** In every reachable state: no raise is calling a decider that has been freed or waits to be; the
      count of a registered decider is its handle plus its callers; and a decider without either is
      no longer registered. */
  lemma CallsAreSafe(states: seq<State>, steps: seq<Step>, n: nat)
    requires Behaviour(states, steps) && n <= |steps|
    ensures var s := states[n];
      && (forall t :: t in s.calling ==>
            s.calling[t] in s.list && s.calling[t] !in s.freed && s.calling[t] !in s.deferred)
      && (forall x :: x in s.list ==> Refs(s, x) == |Callers(s, x)| + (if x in s.handles then 1 else 0) > 0)
      && (forall x :: x in s.handles ==> x in s.list)
  {
    AlwaysValid(states, steps, n);
    var s := states[n];
    forall x | x in s.list ensures Refs(s, x) == |Callers(s, x)| + (if x in s.handles then 1 else 0) > 0 {
      assert Counted(s, x);
    }
    forall x | x in s.handles ensures x in s.list { assert x in Members(s.list); }
  }

  // ---- The order of the list ----

  /** What happens to the list in a step: a creation, or the departure of the decider that the step
      lets go of. */
  function Events(s: State, step: Step, s': State): seq<Event<Node>> {
    match step
    case Create(x, callFirst) => [if callFirst then Front(x) else Back(x)]
    case Begin(_) => []
    case Return(t, _) => if t in s.calling then Departure(s.list, s.calling[t], s'.list) else []
    case Destroy(x) => Departure(s.list, x, s'.list)
  }

  function Departure(list: seq<Node>, x: Node, list': seq<Node>): seq<Event<Node>> {
    if x in list && x !in list' then [Removal(x)] else []
  }

  function History(states: seq<State>, steps: seq<Step>, n: nat): seq<Event<Node>>
    requires n <= |steps| < |states|
  {
    if n == 0 then [] else History(states, steps, n - 1) + Events(states[n - 1], steps[n - 1], states[n])
  }

  /** `list'` is the list after these events, of which there is one at most. */
  ghost predicate Follows(list: seq<Node>, events: seq<Event<Node>>, list': seq<Node>) {
    if events == [] then list' == list
    else
      && |events| == 1
      && match events[0]
         case Front(x) => list' == [x] + list
         case Back(x) => list' == list + [x]
         case Removal(x) => x in list && list' == Without(list, x)
  }

  lemma ListFollows(s: State, step: Step)
    requires Valid(s) && Enabled(s, step)
    ensures Follows(s.list, Events(s, step, Apply(s, step)), Apply(s, step).list)
  {
    match step
    case Create(_, _) =>
    case Begin(_) =>
    case Return(t, decided) =>
      CurrentCounted(s, t);
      ReturnMoves(s, t, decided);
      WithoutMembers(s.list, s.calling[t], s.calling[t]);
      hide Apply, Without;
    case Destroy(x) =>
      assert x in s.list && Counted(s, x);
      DestroyMoves(s, x);
      WithoutMembers(s.list, x, x);
      hide Apply, Without;
  }

  lemma {:induction false} ListReplays(states: seq<State>, steps: seq<Step>, n: nat)
    requires Behaviour(states, steps) && n <= |steps|
    ensures states[n].list == Replay(History(states, steps, n))
  {
    hide Valid, Apply, Without, Events;
    if n > 0 {
      ListReplays(states, steps, n - 1);
      AlwaysValid(states, steps, n - 1);
      ListFollows(states[n - 1], steps[n - 1]);
      var h, e := History(states, steps, n - 1), Events(states[n - 1], steps[n - 1], states[n]);
      if e != [] { assert (h + e)[..|h + e| - 1] == h; } else { assert h + e == h; }
    }
  }

  /** The deciders are always in the order of calls that section 7.14.1 paragraph 11 of the proposed
      wording demands: those created to be called first that are still registered, the newest first,
      then the others, the oldest first. */
  lemma ListInCallOrder(states: seq<State>, steps: seq<Step>, n: nat)
    requires Behaviour(states, steps) && n <= |steps|
    ensures var h := History(states, steps, n);
      states[n].list == LiveFronts(h, |h|) + LiveBacks(h, |h|)
  {
    ListReplays(states, steps, n);
    CallOrder(History(states, steps, n));
  }

  // ---- The calls of a raise ----

  /** The decider that thread `t` starts to call in step `k`, if any. */
  function StartedCall(states: seq<State>, steps: seq<Step>, t: Thread, k: nat): seq<Node>
    requires k < |steps| < |states|
  {
    if steps[k] in {Begin(t), Return(t, true), Return(t, false)} && t in states[k + 1].calling
    then [states[k + 1].calling[t]] else []
  }

  /** The deciders that thread `t` starts to call in the steps from `i` up to `j`. */
  function Calls(states: seq<State>, steps: seq<Step>, t: Thread, i: nat, j: nat): seq<Node>
    requires j <= |steps| < |states|
  {
    if j <= i then [] else Calls(states, steps, t, i, j - 1) + StartedCall(states, steps, t, j - 1)
  }

  /** A raise of thread `t` begins with step `i` and is still under way after step `j - 1`. */
  ghost predicate Raising(states: seq<State>, steps: seq<Step>, t: Thread, i: nat, j: nat) {
    && i < j <= |steps| < |states| && steps[i] == Begin(t)
    && forall k :: i < k <= j ==> t in states[k].calling
  }

  /** The deciders in `stay` are registered from before step `i` until after step `j - 1`. */
  ghost predicate Registered(states: seq<State>, stay: set<Node>, i: nat, j: nat)
    requires j < |states|
  {
    forall k :: i <= k <= j ==> stay <= Members(states[k].list)
  }

  /** What a step does to the list leaves a walk on course. */
  lemma CourseFollows(s: State, step: Step, c: Node, calls: seq<Node>, stay: set<Node>)
    requires Valid(s) && Enabled(s, step) && OnCourse(s.list, All(s), c, calls, stay)
    requires c in Apply(s, step).list && stay <= Members(s.list) && stay <= Members(Apply(s, step).list)
    ensures var s' := Apply(s, step);
      OnCourse(s'.list, All(s'), c, calls, stay) && Keep(s'.list, stay) == Keep(s.list, stay)
  {
    ListFollows(s, step);
    NothingLost(s, step);
    var s', e := Apply(s, step), Events(s, step, Apply(s, step));
    if e != [] {
      var x := e[0].node;
      if e[0].Removal? {
        MembersWithout(s.list, x);
        assert c != x && x !in stay by { assert c in Members(s'.list); }
        CourseAfterRemoval(s.list, All(s), c, calls, stay, x);
      } else {
        assert step.Create? && x !in All(s);
        assert x !in stay by { assert Members(s.list) <= All(s); }
        CourseAfterInsertion(s.list, s'.list, All(s), c, calls, stay, x);
      }
    }
  }

  /** The raise goes on to its next decider. */
  lemma CourseGoesOn(s: State, t: Thread, decided: bool, calls: seq<Node>, stay: set<Node>)
    requires Valid(s) && Enabled(s, Return(t, decided)) && t in Apply(s, Return(t, decided)).calling
    requires OnCourse(s.list, All(s), s.calling[t], calls, stay)
    ensures var n := Apply(s, Return(t, decided)).calling[t]; OnCourse(s.list, All(s), n, calls + [n], stay)
  {
    var c := s.calling[t];
    DisjointIn(s);
    CurrentCounted(s, t);
    var p: nat :| p < |s.list| && s.list[p] == c;
    NextAfter(s, t, decided, p);
    hide Valid, Apply, OnCourse, All, Rest;
    RestAt(s.list, p);
    CourseAfterStep(s.list, All(s), c, calls, stay);
  }

  /** A step keeps a raise of thread `t` on course. */
  lemma CourseStep(s: State, step: Step, t: Thread, calls: seq<Node>, stay: set<Node>)
    requires Valid(s) && Enabled(s, step) && t in s.calling && t in Apply(s, step).calling
    requires OnCourse(s.list, All(s), s.calling[t], calls, stay)
    requires stay <= Members(s.list) && stay <= Members(Apply(s, step).list)
    ensures var s' := Apply(s, step);
      var more := if step.Return? && step.thread == t then [s'.calling[t]] else [];
      OnCourse(s'.list, All(s'), s'.calling[t], calls + more, stay) && Keep(s'.list, stay) == Keep(s.list, stay)
  {
    var s' := Apply(s, step);
    StepKeeps(s, step);
    CurrentCounted(s', t);
    if step.Return? && step.thread == t {
      CourseGoesOn(s, t, step.decided, calls, stay);
      hide Valid, Apply, OnCourse, All, Keep;
      CourseFollows(s, step, s'.calling[t], calls + [s'.calling[t]], stay);
    } else {
      OthersGoOn(s, step, t);
      hide Valid, Apply, OnCourse, All, Keep;
      assert calls + [] == calls;
      CourseFollows(s, step, s.calling[t], calls, stay);
    }
  }

  lemma OthersGoOn(s: State, step: Step, t: Thread)
    requires Enabled(s, step) && t in s.calling && !(step.Return? && step.thread == t)
    ensures t in Apply(s, step).calling && Apply(s, step).calling[t] == s.calling[t]
  {
    hide Without, Rest;
  }

  lemma CourseBegins(s: State, t: Thread, stay: set<Node>)
    requires Valid(s) && Enabled(s, Begin(t)) && t in Apply(s, Begin(t)).calling
    ensures var s' := Apply(s, Begin(t));
      OnCourse(s'.list, All(s'), s'.calling[t], [s'.calling[t]], stay) && Keep(s'.list, stay) == Keep(s.list, stay)
  {
    CourseStarts(s.list, All(s), stay);
  }

  lemma {:induction false} StaysOnCourse(states: seq<State>, steps: seq<Step>, t: Thread, i: nat, j: nat,
                                         stay: set<Node>)
    requires Behaviour(states, steps) && Raising(states, steps, t, i, j) && Registered(states, stay, i, j)
    ensures OnCourse(states[j].list, All(states[j]), states[j].calling[t], Calls(states, steps, t, i, j), stay)
    ensures Keep(states[j].list, stay) == Keep(states[i].list, stay)
    decreases j
  {
    hide Valid, Apply, OnCourse, All, Keep;
    AlwaysValid(states, steps, j - 1);
    var s, step := states[j - 1], steps[j - 1];
    if i + 1 == j {
      CourseBegins(s, t, stay);
      assert Calls(states, steps, t, i, j) == [states[j].calling[t]];
    } else {
      StaysOnCourse(states, steps, t, i, j - 1, stay);
      assert states[j] == Apply(s, step) && t in s.calling && t in states[j].calling;
      assert stay <= Members(s.list) && stay <= Members(states[j].list);
      CourseStep(s, step, t, Calls(states, steps, t, i, j - 1), stay);
    }
  }

  /** The course of a raise, at any time: of the deciders that have stayed registered since it began, it
      has called exactly those that stand in the list up to the one that it is calling, in list order;
      and it has called no decider twice. */
  lemma RaiseOnCourse(states: seq<State>, steps: seq<Step>, t: Thread, i: nat, j: nat, stay: set<Node>, p: nat)
    requires Behaviour(states, steps) && Raising(states, steps, t, i, j) && Registered(states, stay, i, j)
    requires p < |states[j].list| && states[j].list[p] == states[j].calling[t]
    ensures Keep(Calls(states, steps, t, i, j), stay) == Keep(states[j].list[..p + 1], stay)
    ensures Keep(states[j].list, stay) == Keep(states[i].list, stay)
    ensures Distinct(Calls(states, steps, t, i, j))
  {
    hide Valid, Apply, Keep, Rest, All, Calls, Members;
    StaysOnCourse(states, steps, t, i, j, stay);
    AlwaysValid(states, steps, j);
    DisjointIn(states[j]);
    var list := states[j].list;
    RestAt(list, p);
    KeepConcat(list[..p + 1], list[p + 1..], stay);
    assert list == list[..p + 1] + list[p + 1..];
    SamePrefix(Keep(Calls(states, steps, t, i, j), stay), Keep(list[..p + 1], stay), Keep(list[p + 1..], stay));
  }

  lemma SamePrefix(a: seq<Node>, b: seq<Node>, c: seq<Node>)
    requires a + c == b + c
    ensures a == b
  {
    assert |a| == |b|;
    assert a == (a + c)[..|a|] && b == (b + c)[..|b|];
  }

  /** A raise that ends without a decision has called every decider that was registered all the while,
      exactly once, in list order. */
  lemma RaiseCallsAll(states: seq<State>, steps: seq<Step>, t: Thread, i: nat, j: nat, stay: set<Node>)
    requires Behaviour(states, steps) && Raising(states, steps, t, i, j) && Registered(states, stay, i, j)
    requires j < |steps| && steps[j] == Return(t, false) && t !in states[j + 1].calling
    ensures Keep(Calls(states, steps, t, i, j + 1), stay) == Keep(states[j].list, stay)
    ensures Keep(states[j].list, stay) == Keep(states[i].list, stay)
    ensures Distinct(Calls(states, steps, t, i, j + 1))
  {
    hide Apply, Valid, Keep, Members;
    AlwaysValid(states, steps, j);
    EndsAtLast(states[j], t);
    var list := states[j].list;
    RaiseOnCourse(states, steps, t, i, j, stay, |list| - 1);
    assert list[..|list|] == list;
    assert Calls(states, steps, t, i, j + 1) == Calls(states, steps, t, i, j);
  }

  lemma GoesOn(s: State, t: Thread, p: nat)
    requires Valid(s) && t in s.calling && p + 1 < |s.list| && s.list[p] == s.calling[t]
    ensures t in Apply(s, Return(t, false)).calling
  {
    NextAfter(s, t, false, p);
  }

  lemma EndsAtLast(s: State, t: Thread)
    requires Valid(s) && t in s.calling && t !in Apply(s, Return(t, false)).calling
    ensures s.list != [] && s.list[|s.list| - 1] == s.calling[t]
  {
    CurrentCounted(s, t);
    var p: nat :| p < |s.list| && s.list[p] == s.calling[t];
    if p + 1 < |s.list| { GoesOn(s, t, p); } else { assert p == |s.list| - 1; }
  }
}
