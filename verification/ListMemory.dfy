/** The list macros as programs of single assignments over a memory of links. */
module ListMemory {
  import opened DeciderOrder

  type Id = nat

  datatype Pointer = Null | To(id: Id)

  /** The two ends of the list and the links of all nodes; a link that was never written is null. */
  datatype Memory = Memory(front: Pointer, back: Pointer, next: map<Id, Pointer>, prev: map<Id, Pointer>)

  const ZEROED := Memory(Null, Null, map[], map[])

  function Link(links: map<Id, Pointer>, id: Id): Pointer {
    if id in links then links[id] else Null
  }

  /** What the macros assign to and read from: `Item` is the node given to the macro. */
  datatype Expr = NullPointer | Item | FrontEnd | BackEnd | NextOf(of: Expr) | PrevOf(of: Expr)

  datatype Stmt =
    | Assign(target: Expr, source: Expr)
    | AssertNull(e: Expr)
    | AssertNonNull(e: Expr)

  datatype Result<T> = Fault | Value(value: T)

  /** Following a link of the null pointer is a fault. */
  function Eval(e: Expr, item: Id, m: Memory): Result<Pointer> {
    match e
    case NullPointer => Value(Null)
    case Item => Value(To(item))
    case FrontEnd => Value(m.front)
    case BackEnd => Value(m.back)
    case NextOf(of) =>
      (match Eval(of, item, m)
       case Value(To(id)) => Value(Link(m.next, id))
       case _ => Fault)
    case PrevOf(of) =>
      (match Eval(of, item, m)
       case Value(To(id)) => Value(Link(m.prev, id))
       case _ => Fault)
  }

  function Store(target: Expr, p: Pointer, item: Id, m: Memory): Result<Memory> {
    match target
    case FrontEnd => Value(m.(front := p))
    case BackEnd => Value(m.(back := p))
    case NextOf(of) =>
      (match Eval(of, item, m)
       case Value(To(id)) => Value(m.(next := m.next[id := p]))
       case _ => Fault)
    case PrevOf(of) =>
      (match Eval(of, item, m)
       case Value(To(id)) => Value(m.(prev := m.prev[id := p]))
       case _ => Fault)
    case _ => Fault
  }

  /** One statement; a failing assertion is a fault. */
  function Perform(s: Stmt, item: Id, m: Memory): Result<Memory> {
    match s
    case Assign(target, source) =>
      (match Eval(source, item, m)
       case Value(p) => Store(target, p, item, m)
       case Fault => Fault)
    case AssertNull(e) => if Eval(e, item, m) == Value(Null) then Value(m) else Fault
    case AssertNonNull(e) => if Eval(e, item, m).Value? && Eval(e, item, m) != Value(Null) then Value(m) else Fault
  }

  /** The first `i` statements of a program. */
  function Execute(code: seq<Stmt>, i: nat, item: Id, m: Memory): Result<Memory>
    requires i <= |code|
  {
    if i == 0 then Value(m)
    else
      match Execute(code, i - 1, item, m)
      case Value(m') => Perform(code[i - 1], item, m')
      case Fault => Fault
  }

  /** The statements that a macro executes; its conditions are evaluated first. */
  function Code(u: Event<Id>, m: Memory): seq<Stmt> {
    match u
    case Front(_) =>
      if m.front == Null then
        [AssertNull(BackEnd), Assign(BackEnd, Item), Assign(FrontEnd, BackEnd)]
      else
        [AssertNonNull(FrontEnd), AssertNonNull(BackEnd),
         Assign(PrevOf(Item), NullPointer), Assign(NextOf(Item), FrontEnd),
         Assign(PrevOf(FrontEnd), Item), Assign(FrontEnd, Item)]
    case Back(_) =>
      if m.front == Null then
        [AssertNull(BackEnd), Assign(BackEnd, Item), Assign(FrontEnd, BackEnd)]
      else
        [AssertNonNull(FrontEnd), AssertNonNull(BackEnd),
         Assign(NextOf(Item), NullPointer), Assign(PrevOf(Item), BackEnd),
         Assign(NextOf(BackEnd), Item), Assign(BackEnd, Item)]
    case Removal(x) =>
      (if m.front == To(x) && m.back == To(x) then
         [Assign(BackEnd, NullPointer), Assign(FrontEnd, BackEnd)]
       else if m.front == To(x) then
         [Assign(FrontEnd, NextOf(Item)), Assign(PrevOf(FrontEnd), NullPointer)]
       else if m.back == To(x) then
         [Assign(BackEnd, PrevOf(Item)), Assign(NextOf(BackEnd), NullPointer)]
       else
         [Assign(PrevOf(NextOf(Item)), PrevOf(Item)), Assign(NextOf(PrevOf(Item)), NextOf(Item))])
      + [Assign(PrevOf(Item), NullPointer), Assign(NextOf(Item), PrevOf(Item))]
  }

  /** A whole macro, run without interruption. */
  function Update(u: Event<Id>, m: Memory): Result<Memory> {
    Execute(Code(u, m), |Code(u, m)|, u.node, m)
  }

  /** Macros one after the other. */
  function Serial(log: seq<Event<Id>>): Result<Memory> {
    if log == [] then Value(ZEROED)
    else
      match Serial(log[..|log| - 1])
      case Value(m) => Update(log[|log| - 1], m)
      case Fault => Fault
  }

  function Pos(s: seq<Id>, i: int): Pointer {
    if 0 <= i < |s| then To(s[i]) else Null
  }

  /** The memory holds the list `s`, linked in both directions, and all other links are null. */
  ghost predicate Represents(m: Memory, s: seq<Id>) {
    && (forall i, j :: 0 <= i < j < |s| ==> s[i] != s[j])
    && m.front == Pos(s, 0) && m.back == Pos(s, |s| - 1)
    && (forall i: nat {:trigger LinkedAt(m, s, i)} :: i < |s| ==> LinkedAt(m, s, i))
    && (forall id: Id {:trigger Unlinked(m, id)} :: id !in s ==> Unlinked(m, id))
  }

  predicate LinkedAt(m: Memory, s: seq<Id>, i: nat)
    requires i < |s|
  {
    Link(m.next, s[i]) == Pos(s, i + 1) && Link(m.prev, s[i]) == Pos(s, i - 1)
  }

  predicate Unlinked(m: Memory, id: Id) {
    Link(m.next, id) == Null && Link(m.prev, id) == Null
  }

  /** The update makes sense for the list `s`: what is inserted is not there, what is removed is. */
  predicate Fitting(u: Event<Id>, s: seq<Id>) {
    u.Removal? <==> u.node in s
  }

  lemma Unroll2(a: Stmt, b: Stmt, item: Id, m: Memory, i: nat, code: seq<Stmt>)
    requires i + 2 <= |code| && code[i] == a && code[i + 1] == b
    ensures Execute(code, i + 1, item, m) ==
              match Execute(code, i, item, m) { case Value(m') => Perform(a, item, m') case Fault => Fault }
    ensures Execute(code, i + 2, item, m) ==
              match Execute(code, i + 1, item, m) { case Value(m') => Perform(b, item, m') case Fault => Fault }
  {
  }

  lemma EvalItem(item: Id, m: Memory)
    ensures Eval(NextOf(Item), item, m) == Value(Link(m.next, item))
    ensures Eval(PrevOf(Item), item, m) == Value(Link(m.prev, item))
  {
    assert Eval(Item, item, m) == Value(To(item));
  }

  // ---- The memory after each branch of each macro ----

  lemma {:induction false} InsertEmpty(u: Event<Id>, m: Memory)
    requires !u.Removal? && m.front == Null && m.back == Null
    ensures Update(u, m) == Value(m.(front := To(u.node), back := To(u.node)))
  {
    var code := Code(u, m);
    assert Execute(code, 0, u.node, m) == Value(m);
    Unroll2(code[0], code[1], u.node, m, 0, code);
  }

  lemma {:induction false} InsertFrontNonempty(x: Id, m: Memory)
    requires m.front.To? && m.back.To? && m.front != To(x)
    ensures Update(Front(x), m) ==
              Value(Memory(To(x), m.back, m.next[x := m.front], m.prev[x := Null][m.front.id := To(x)]))
  {
    var code := Code(Front(x), m);
    assert Execute(code, 0, x, m) == Value(m);
    Unroll2(code[0], code[1], x, m, 0, code);
    Unroll2(code[2], code[3], x, m, 2, code);
    Unroll2(code[4], code[5], x, m, 4, code);
  }

  lemma {:induction false} InsertBackNonempty(x: Id, m: Memory)
    requires m.front.To? && m.back.To? && m.back != To(x)
    ensures Update(Back(x), m) ==
              Value(Memory(m.front, To(x), m.next[x := Null][m.back.id := To(x)], m.prev[x := m.back]))
  {
    var code := Code(Back(x), m);
    assert Execute(code, 0, x, m) == Value(m);
    Unroll2(code[0], code[1], x, m, 0, code);
    Unroll2(code[2], code[3], x, m, 2, code);
    Unroll2(code[4], code[5], x, m, 4, code);
  }

  /** What LIST_REMOVE does to the ends and to the links of the neighbours of `x`. */
  function Bypass(x: Id, m: Memory): Memory {
    var n, p := Link(m.next, x), Link(m.prev, x);
    Memory(if m.front == To(x) then n else m.front,
           if m.back == To(x) then p else m.back,
           (if p.To? then m.next[p.id := n] else m.next)[x := Null],
           (if n.To? then m.prev[n.id := p] else m.prev)[x := Null])
  }

  lemma {:induction false} RemoveAny(x: Id, m: Memory)
    requires m.front == To(x) <==> Link(m.prev, x) == Null
    requires m.back == To(x) <==> Link(m.next, x) == Null
    requires Link(m.next, x) != To(x) && Link(m.prev, x) != To(x)
    ensures Update(Removal(x), m) == Value(Bypass(x, m))
  {
    var code := Code(Removal(x), m);
    assert |code| == 4;
    assert code[2] == Assign(PrevOf(Item), NullPointer) && code[3] == Assign(NextOf(Item), PrevOf(Item));
    if m.front == To(x) && m.back == To(x) {
      assert code[0] == Assign(BackEnd, NullPointer) && code[1] == Assign(FrontEnd, BackEnd);
    } else if m.front == To(x) {
      assert code[0] == Assign(FrontEnd, NextOf(Item)) && code[1] == Assign(PrevOf(FrontEnd), NullPointer);
    } else if m.back == To(x) {
      assert code[0] == Assign(BackEnd, PrevOf(Item)) && code[1] == Assign(NextOf(BackEnd), NullPointer);
    } else {
      assert code[0] == Assign(PrevOf(NextOf(Item)), PrevOf(Item));
      assert code[1] == Assign(NextOf(PrevOf(Item)), NextOf(Item));
    }
    assert Execute(code, 0, x, m) == Value(m);
    Unroll2(code[0], code[1], x, m, 0, code);
    var n, p := Link(m.next, x), Link(m.prev, x);
    EvalItem(x, m);
    if Execute(code, 1, x, m).Value? { EvalItem(x, Execute(code, 1, x, m).value); }
    var mid := Memory(if m.front == To(x) then n else m.front, if m.back == To(x) then p else m.back,
                      if p.To? then m.next[p.id := n] else m.next,
                      if n.To? then m.prev[n.id := p] else m.prev);
    assert Execute(code, 2, x, m) == Value(mid);
    EvalItem(x, mid);
    EvalItem(x, mid.(prev := mid.prev[x := Null]));
    Unroll2(code[2], code[3], x, m, 2, code);
  }

  // ---- Each macro keeps the list represented ----

  lemma SingleRepresents(x: Id, m: Memory)
    requires Represents(m, [])
    ensures Represents(m.(front := To(x), back := To(x)), [x])
  {
    var m' := m.(front := To(x), back := To(x));
    assert Unlinked(m, x);
    assert LinkedAt(m', [x], 0);
    forall id: Id | id !in [x] ensures Unlinked(m', id) { assert Unlinked(m, id); }
  }

  lemma OnlyOneGone(s: seq<Id>, k: nat, id: Id)
    requires k < |s| && id != s[k] && id !in s[..k] + s[k + 1..]
    ensures id !in s
  {
    assert s == s[..k] + [s[k]] + s[k + 1..];
  }

  lemma FrontRepresents(x: Id, m: Memory, s: seq<Id>)
    requires Represents(m, s) && x !in s && s != []
    ensures Represents(Memory(To(x), m.back, m.next[x := m.front], m.prev[x := Null][s[0] := To(x)]), [x] + s)
  {
    var m' := Memory(To(x), m.back, m.next[x := m.front], m.prev[x := Null][s[0] := To(x)]);
    var t := [x] + s;
    assert forall i :: 0 < i < |t| ==> t[i] == s[i - 1];
    forall i: nat | i < |t| ensures LinkedAt(m', t, i) {
      if i > 0 { assert LinkedAt(m, s, i - 1); }
    }
    forall id: Id | id !in t ensures Unlinked(m', id) { assert Unlinked(m, id); }
  }

  lemma BackRepresents(x: Id, m: Memory, s: seq<Id>)
    requires Represents(m, s) && x !in s && s != []
    ensures Represents(Memory(m.front, To(x), m.next[x := Null][s[|s| - 1] := To(x)], m.prev[x := m.back]), s + [x])
  {
    var m' := Memory(m.front, To(x), m.next[x := Null][s[|s| - 1] := To(x)], m.prev[x := m.back]);
    var t := s + [x];
    assert forall i :: 0 <= i < |s| ==> t[i] == s[i];
    forall i: nat | i < |t| ensures LinkedAt(m', t, i) {
      if i < |s| { assert LinkedAt(m, s, i); }
    }
    forall id: Id | id !in t ensures Unlinked(m', id) { assert Unlinked(m, id); }
  }

  lemma BypassLink(m: Memory, s: seq<Id>, k: nat, i: nat)
    requires Represents(m, s) && k < |s| && i < |s| - 1
    ensures LinkedAt(Bypass(s[k], m), s[..k] + s[k + 1..], i)
  {
    var t, m' := s[..k] + s[k + 1..], Bypass(s[k], m);
    var j := if i < k then i else i + 1;
    assert LinkedAt(m, s, k) && LinkedAt(m, s, j) && t[i] == s[j];
    assert Pos(t, i + 1) == if i == k - 1 then Pos(s, k + 1) else Pos(s, j + 1);
    assert Pos(t, i - 1) == if i == k then Pos(s, k - 1) else Pos(s, j - 1);
    assert i == k - 1 <==> Pos(s, k - 1) == To(s[j]);
    assert i == k <==> Pos(s, k + 1) == To(s[j]);
  }

  lemma BypassRepresents(m: Memory, s: seq<Id>, k: nat)
    requires Represents(m, s) && k < |s|
    ensures Represents(Bypass(s[k], m), s[..k] + s[k + 1..])
  {
    var x, m' := s[k], Bypass(s[k], m);
    var t := s[..k] + s[k + 1..];
    assert LinkedAt(m, s, k);
    assert forall i :: 0 <= i < |t| ==> t[i] == if i < k then s[i] else s[i + 1];
    assert forall i, j :: 0 <= i < j < |t| ==> t[i] != t[j];
    assert m'.front == Pos(t, 0) && m'.back == Pos(t, |t| - 1);
    forall i: nat | i < |t| ensures LinkedAt(m', t, i) {
      BypassLink(m, s, k, i);
    }
    forall id: Id | id !in t ensures Unlinked(m', id) {
      if id != x {
        OnlyOneGone(s, k, id);
        assert Unlinked(m, id);
      }
    }
  }

  /** The list after one update. */
  function Updated(u: Event<Id>, s: seq<Id>): seq<Id> {
    match u
    case Front(x) => [x] + s
    case Back(x) => s + [x]
    case Removal(x) => Without(s, x)
  }

  /** A fitting update runs without a null dereference and without a failing assertion, and leaves
      the updated list. */
  lemma UpdateRepresents(u: Event<Id>, m: Memory, s: seq<Id>)
    requires Represents(m, s) && Fitting(u, s)
    ensures Update(u, m).Value? && Represents(Update(u, m).value, Updated(u, s))
  {
    hide Update;
    match u
    case Front(x) =>
      if s == [] {
        InsertEmpty(u, m);
        SingleRepresents(x, m);
        assert Updated(u, s) == [x];
      } else {
        InsertFrontNonempty(x, m);
        FrontRepresents(x, m, s);
      }
    case Back(x) =>
      if s == [] {
        InsertEmpty(u, m);
        SingleRepresents(x, m);
        assert Updated(u, s) == [x];
      } else {
        InsertBackNonempty(x, m);
        BackRepresents(x, m, s);
      }
    case Removal(x) =>
      var k :| 0 <= k < |s| && s[k] == x;
      assert LinkedAt(m, s, k);
      RemoveAny(x, m);
      BypassRepresents(m, s, k);
      WithoutOne(s, k);
  }

  /** All updates of the log fit the list that the ones before them leave. */
  ghost predicate FittingLog(log: seq<Event<Id>>) {
    forall i :: 0 <= i < |log| ==> Fitting(log[i], Replay(log[..i]))
  }

  /** Macros run one after the other leave the list that the history replays to. */
  lemma {:induction false} SerialRepresents(log: seq<Event<Id>>)
    requires FittingLog(log)
    ensures Serial(log).Value? && Represents(Serial(log).value, Replay(log))
  {
    if log != [] {
      var n := |log| - 1;
      var before, last := log[..n], log[n];
      forall i | 0 <= i < n ensures Fitting(before[i], Replay(before[..i])) {
        assert before[..i] == log[..i];
      }
      SerialRepresents(before);
      UpdateRepresents(last, Serial(before).value, Replay(before));
    }
  }
}
