/** The spinlock, step by step, for any number of threads, around updates of the shared list. */
module Spinlock {
  import opened DeciderOrder
  import opened ListMemory

  type Thread = nat

  /** Where a thread is. `Spinning`: before the relaxed load. `Trying`: the load has seen zero, the
      compare-exchange comes next. `Entered`: LOCK is done. `Updating`: `done` statements of the list
      macro have been executed. */
  datatype Where =
    | Outside
    | Spinning(update: Event<Id>)
    | Trying(update: Event<Id>)
    | Entered(update: Event<Id>)
    | Updating(update: Event<Id>, code: seq<Stmt>, done: nat)

  /** `word`: the lock. `memory`: the list under it, `Fault` after a fault. `asserted`: no assertion of
      UNLOCK has failed. `log`: the updates in the order in which the lock was held for them. */
  datatype State = State(
    threads: map<Thread, Where>,
    word: nat,
    memory: Result<Memory>,
    asserted: bool,
    log: seq<Event<Id>>)

  datatype Step =
    | Begin(thread: Thread, update: Event<Id>)
    | Load(thread: Thread)
    | CompareExchange(thread: Thread, spurious: bool)
    | Decide(thread: Thread)
    | Execute1(thread: Thread)
    | Continue(thread: Thread, update: Event<Id>)
    | Unlock(thread: Thread)

  predicate Enabled(s: State, step: Step) {
    && step.thread in s.threads
    && var w := s.threads[step.thread];
    match step
    case Begin(_, _) => w.Outside?
    case Load(_) => w.Spinning?
    case CompareExchange(_, _) => w.Trying?
    case Decide(_) => w.Entered?
    case Execute1(_) => w.Updating? && w.done < |w.code|
    case Continue(_, _) => w.Updating? && w.done == |w.code|
    case Unlock(_) => w.Updating? && w.done == |w.code|
  }

  function At(s: State, t: Thread, w: Where): State {
    s.(threads := s.threads[t := w])
  }

  function Apply(s: State, step: Step): State
    requires Enabled(s, step)
  {
    var t := step.thread;
    var w := s.threads[t];
    match step
    case Begin(_, u) => At(s, t, Spinning(u))
    // A nonzero value sends the thread round the loop again.
    case Load(_) => if s.word != 0 then s else At(s, t, Trying(w.update))
    // The weak compare-exchange fails if the word is not zero, and may fail anyway.
    case CompareExchange(_, spurious) =>
      if s.word != 0 || spurious then At(s, t, Spinning(w.update))
      else At(s, t, Entered(w.update)).(word := 1, log := s.log + [w.update])
    case Decide(_) =>
      if s.memory.Fault? then At(s, t, Updating(w.update, [], 0))
      else At(s, t, Updating(w.update, Code(w.update, s.memory.value), 0))
    case Execute1(_) =>
      At(s, t, Updating(w.update, w.code, w.done + 1)).(
        memory := if s.memory.Fault? then Fault else Perform(w.code[w.done], w.update.node, s.memory.value))
    // A thread may make several updates before it unlocks.
    case Continue(_, u) => At(s, t, Entered(u)).(log := s.log + [u])
    // The exchange returns the former value, which is asserted to be 1; without assertions it is a
    // plain store with the same effect on the word.
    case Unlock(_) => At(s, t, Outside).(word := 0, asserted := s.asserted && s.word == 1)
  }

  predicate Initial(s: State) {
    && (forall t :: t in s.threads ==> s.threads[t].Outside?)
    && s.word == 0 && s.memory == Value(ZEROED) && s.asserted && s.log == []
  }

  /** `s` is reached from `init` by some interleaving of the steps of all threads. */
  ghost predicate Run(init: State, steps: seq<Step>, s: State)
    decreases |steps|
  {
    if steps == [] then s == init
    else
      var n := |steps| - 1;
      exists r :: Run(init, steps[..n], r) && Enabled(r, steps[n]) && s == Apply(r, steps[n])
  }

  /** `t` is between LOCK and UNLOCK. */
  predicate Holds(s: State, t: Thread) {
    t in s.threads && (s.threads[t].Entered? || s.threads[t].Updating?)
  }

  /** The memory that a lock holder found, and what it has made of it so far. */
  ghost predicate Progress(s: State, t: Thread)
    requires Holds(s, t)
  {
    var w := s.threads[t];
    && s.log != [] && s.log[|s.log| - 1] == w.update
    && var before := Serial(s.log[..|s.log| - 1]);
    match w
    case Entered(_) => s.memory == before
    case Updating(u, code, done) =>
      if before.Fault? then s.memory == Fault && code == [] && done == 0
      else
        && code == Code(u, before.value) && done <= |code|
        && s.memory == Execute(code, done, u.node, before.value)
    case _ => false
  }

  ghost predicate Invariant(s: State) {
    && s.word <= 1 && s.asserted
    && (forall t {:trigger Holds(s, t)} :: Holds(s, t) ==> s.word == 1 && Progress(s, t))
    && (forall t, u {:trigger Holds(s, t), Holds(s, u)} :: Holds(s, t) && Holds(s, u) ==> t == u)
    && (s.word == 1 ==> exists t :: Holds(s, t))
    && (s.word == 0 ==> s.memory == Serial(s.log))
  }

  lemma InvariantInitially(s: State)
    requires Initial(s)
    ensures Invariant(s)
  {
  }

  lemma HoldsAfter(s: State, step: Step, t: Thread)
    requires Enabled(s, step)
    ensures t != step.thread ==> (Holds(Apply(s, step), t) <==> Holds(s, t))
    ensures t in s.threads && t != step.thread ==> Apply(s, step).threads[t] == s.threads[t]
    ensures Holds(Apply(s, step), step.thread) <==>
              || step.Decide? || step.Execute1? || step.Continue?
              || (step.CompareExchange? && s.word == 0 && !step.spurious)
  {
  }

  /** Every step of every thread keeps the invariant. */
  lemma InvariantStep(s: State, step: Step)
    requires Invariant(s) && Enabled(s, step)
    ensures Invariant(Apply(s, step))
  {
    var s', t := Apply(s, step), step.thread;
    forall u: Thread ensures Holds(s', u) ==> (u == t || Holds(s, u)) { HoldsAfter(s, step, u); }
    match step
    case Begin(_, _) => Unaffected(s, step);
    case Load(_) => Unaffected(s, step);
    case CompareExchange(_, spurious) =>
      if s.word != 0 || spurious {
        Unaffected(s, step);
      } else {
        Acquire(s, step);
      }
    case Decide(_) => Inside(s, step);
    case Execute1(_) => Inside(s, step);
    case Continue(_, _) => Proceed(s, step);
    case Unlock(_) => Release(s, step);
  }

  /** Steps of a thread that does not hold the lock and does not get it. */
  lemma Unaffected(s: State, step: Step)
    requires Invariant(s) && Enabled(s, step)
    requires step.Begin? || step.Load? || (step.CompareExchange? && (s.word != 0 || step.spurious))
    ensures Invariant(Apply(s, step))
  {
    var s' := Apply(s, step);
    forall u: Thread ensures Holds(s', u) <==> Holds(s, u) { HoldsAfter(s, step, u); }
    forall u | Holds(s', u) ensures Progress(s', u) {
      HoldsAfter(s, step, u);
      assert Holds(s, u);
    }
  }

  lemma Acquire(s: State, step: Step)
    requires Invariant(s) && Enabled(s, step)
    requires step.CompareExchange? && s.word == 0 && !step.spurious
    ensures Invariant(Apply(s, step))
  {
    var s', t := Apply(s, step), step.thread;
    forall u: Thread ensures Holds(s', u) <==> u == t {
      HoldsAfter(s, step, u);
      assert !Holds(s, u);
    }
    assert s'.log[..|s'.log| - 1] == s.log;
    assert Holds(s', t) && Progress(s', t);
  }

  lemma Inside(s: State, step: Step)
    requires Invariant(s) && Enabled(s, step) && (step.Decide? || step.Execute1?)
    ensures Invariant(Apply(s, step))
  {
    var s', t := Apply(s, step), step.thread;
    assert Holds(s, t);
    forall u: Thread ensures Holds(s', u) <==> u == t {
      HoldsAfter(s, step, u);
      assert Holds(s, u) ==> u == t;
    }
    assert Holds(s', t) && Progress(s', t);
  }

  /** A holder that has executed all its statements has made a whole update. */
  lemma Finished(s: State, t: Thread)
    requires Invariant(s) && Holds(s, t) && s.threads[t].Updating? && s.threads[t].done == |s.threads[t].code|
    ensures s.memory == Serial(s.log)
  {
    var w, before := s.threads[t], Serial(s.log[..|s.log| - 1]);
    if before.Value? { assert Serial(s.log) == Update(w.update, before.value); }
  }

  lemma Proceed(s: State, step: Step)
    requires Invariant(s) && Enabled(s, step) && step.Continue?
    ensures Invariant(Apply(s, step))
  {
    var s', t := Apply(s, step), step.thread;
    assert Holds(s, t);
    Finished(s, t);
    forall u: Thread ensures Holds(s', u) <==> u == t {
      HoldsAfter(s, step, u);
      assert Holds(s, u) ==> u == t;
    }
    assert s'.log[..|s'.log| - 1] == s.log;
    assert Holds(s', t) && Progress(s', t);
  }

  lemma Release(s: State, step: Step)
    requires Invariant(s) && Enabled(s, step) && step.Unlock?
    ensures Invariant(Apply(s, step))
  {
    var s', t := Apply(s, step), step.thread;
    assert Holds(s, t);
    Finished(s, t);
    forall u: Thread ensures !Holds(s', u) {
      HoldsAfter(s, step, u);
      assert Holds(s, u) ==> u == t;
    }
  }

  lemma {:induction false} InvariantAlways(init: State, steps: seq<Step>, s: State)
    requires Initial(init) && Run(init, steps, s)
    ensures Invariant(s)
    decreases |steps|
  {
    if steps == [] {
      InvariantInitially(s);
    } else {
      var n := |steps| - 1;
      var r :| Run(init, steps[..n], r) && Enabled(r, steps[n]) && s == Apply(r, steps[n]);
      InvariantAlways(init, steps[..n], r);
      InvariantStep(r, steps[n]);
    }
  }

  /** Safety of the lock in every reachable state. */
  lemma MutualExclusion(init: State, steps: seq<Step>, s: State)
    requires Initial(init) && Run(init, steps, s)
    ensures forall t, u :: Holds(s, t) && Holds(s, u) ==> t == u
    ensures s.word == 1 <==> exists t :: Holds(s, t)
    ensures s.word <= 1 && s.asserted
  {
    InvariantAlways(init, steps, s);
  }

  // ---- What the steps alone tell ----

  /** The threads between LOCK and UNLOCK: the exchange that takes the lock is one that does not fail
      spuriously while no thread has it. */
  function Holders(steps: seq<Step>): set<Thread> {
    if steps == [] then {}
    else
      var n := |steps| - 1;
      HoldersAfter(Holders(steps[..n]), steps[n])
  }

  function HoldersAfter(before: set<Thread>, step: Step): set<Thread> {
    match step
    case CompareExchange(t, spurious) => if before == {} && !spurious then {t} else before
    case Unlock(_) => {}
    case _ => before
  }

  lemma HoldersStep(s: State, step: Step, before: set<Thread>)
    requires Invariant(s) && Enabled(s, step) && forall t :: Holds(s, t) <==> t in before
    ensures forall t :: Holds(Apply(s, step), t) <==> t in HoldersAfter(before, step)
    ensures s.word == 0 <==> before == {}
  {
    assert s.word == 0 <==> before == {};
    hide Progress, Apply;
    forall t ensures Holds(Apply(s, step), t) <==> t in HoldersAfter(before, step) {
      HoldsAfter(s, step, t);
      assert Holds(s, t) <==> t in before;
      if step.Unlock? { assert Holds(s, step.thread) && (Holds(s, t) ==> t == step.thread); }
    }
  }

  /** The update that `t` last asked for, if any. */
  function LastAsk(steps: seq<Step>, t: Thread): (ask: seq<Event<Id>>)
    ensures |ask| <= 1
  {
    if steps == [] then []
    else
      var n := |steps| - 1;
      if (steps[n].Begin? || steps[n].Continue?) && steps[n].thread == t then [steps[n].update]
      else LastAsk(steps[..n], t)
  }

  lemma AskStep(s: State, step: Step, t: Thread)
    requires Enabled(s, step) && t in Apply(s, step).threads && !Apply(s, step).threads[t].Outside?
    ensures t in s.threads
    ensures var u := Apply(s, step).threads[t].update;
      if (step.Begin? || step.Continue?) && step.thread == t then u == step.update
      else !s.threads[t].Outside? && u == s.threads[t].update
  {
  }

  /** One update for every time the lock is taken, the one that the taker asked for, and one for every
      continuation. */
  function Asked(steps: seq<Step>): seq<Event<Id>> {
    if steps == [] then []
    else
      var n := |steps| - 1;
      Asked(steps[..n]) + Entry(Holders(steps[..n]), LastAsk(steps[..n], steps[n].thread), steps[n])
  }

  function Entry(before: set<Thread>, ask: seq<Event<Id>>, step: Step): seq<Event<Id>> {
    match step
    case CompareExchange(_, spurious) => if before == {} && !spurious then ask else []
    case Continue(_, u) => [u]
    case _ => []
  }

  lemma LogStep(s: State, step: Step, before: set<Thread>, ask: seq<Event<Id>>)
    requires Enabled(s, step) && (s.word == 0 <==> before == {})
    requires step.CompareExchange? ==> ask == [s.threads[step.thread].update]
    ensures Apply(s, step).log == s.log + Entry(before, ask, step)
  {
  }

  /** In every reachable state the lock is held by the thread that the steps tell, every thread that is
      not outside carries the update that it last asked for, and the log is what the threads asked for,
      in the order in which they got the lock. */
  lemma {:induction false} StepsTell(init: State, steps: seq<Step>, s: State)
    requires Initial(init) && Run(init, steps, s)
    ensures forall t :: Holds(s, t) <==> t in Holders(steps)
    ensures forall t :: t in s.threads && !s.threads[t].Outside? ==> LastAsk(steps, t) == [s.threads[t].update]
    ensures s.log == Asked(steps)
    decreases |steps|
  {
    if steps != [] {
      var n := |steps| - 1;
      var r :| Run(init, steps[..n], r) && Enabled(r, steps[n]) && s == Apply(r, steps[n]);
      StepsTell(init, steps[..n], r);
      InvariantAlways(init, steps[..n], r);
      hide Run, Invariant, Progress, Initial, HoldersAfter, Holds, Apply, Entry;
      HoldersStep(r, steps[n], Holders(steps[..n]));
      LogStep(r, steps[n], Holders(steps[..n]), LastAsk(steps[..n], steps[n].thread));
      forall t | t in s.threads && !s.threads[t].Outside? ensures LastAsk(steps, t) == [s.threads[t].update] {
        AskStep(r, steps[n], t);
      }
    }
  }

  /** Whenever the lock is free, the list is what the updates that the threads asked for leave when they
      are run one after the other in acquisition order: linked in both directions, live front insertions
      newest first, then live back insertions oldest first. No update has faulted on the way. */
  lemma SerializedUpdates(init: State, steps: seq<Step>, s: State)
    requires Initial(init) && Run(init, steps, s) && FittingLog(Asked(steps)) && Holders(steps) == {}
    ensures s.memory == Serial(Asked(steps)) && s.memory.Value?
    ensures var h := Asked(steps); Represents(s.memory.value, LiveFronts(h, |h|) + LiveBacks(h, |h|))
  {
    InvariantAlways(init, steps, s);
    StepsTell(init, steps, s);
    MutualExclusion(init, steps, s);
    SerialRepresents(Asked(steps));
    CallOrder(Asked(steps));
  }

  // ---- No deadlock ----

  lemma {:induction false} RunConcat(init: State, steps: seq<Step>, r: State, more: seq<Step>, s: State)
    requires Run(init, steps, r) && Run(r, more, s)
    ensures Run(init, steps + more, s)
    decreases |more|
  {
    if more == [] {
      assert steps + more == steps;
    } else {
      var n := |more| - 1;
      var q :| Run(r, more[..n], q) && Enabled(q, more[n]) && s == Apply(q, more[n]);
      RunConcat(init, steps, r, more[..n], q);
      assert (steps + more)[..|steps + more| - 1] == steps + more[..n];
    }
  }

  lemma RunOne(s: State, step: Step)
    requires Enabled(s, step)
    ensures Run(s, [step], Apply(s, step))
  {
    assert [step][..0] == [];
    assert Run(s, [], s);
  }

  /** The next step of a thread that holds the lock: it is nearer to unlocking, or has unlocked. */
  lemma HolderStep(s: State, h: Thread) returns (step: Step)
    requires Invariant(s) && Holds(s, h)
    ensures Enabled(s, step) && step.thread == h
    ensures var s', w := Apply(s, step), s.threads[h];
      if step.Unlock? then s'.word == 0
      else
        && Holds(s', h) && s'.threads[h].Updating?
        && (w.Updating? ==> s'.threads[h].code == w.code && s'.threads[h].done == w.done + 1 <= |w.code|)
  {
    assert Progress(s, h);
    var w := s.threads[h];
    step := if w.Entered? then Decide(h) else if w.done < |w.code| then Execute1(h) else Unlock(h);
  }

  /** A holder can always execute what is left of its update and unlock. */
  lemma {:induction false} HolderLeaves(s: State, h: Thread) returns (more: seq<Step>, s': State)
    requires Invariant(s) && Holds(s, h)
    ensures Run(s, more, s') && s'.word == 0
    ensures forall t :: t in s.threads && t != h ==> t in s'.threads && s'.threads[t] == s.threads[t]
    decreases if s.threads[h].Entered? then 1 else 0,
              if s.threads[h].Updating? then |s.threads[h].code| - s.threads[h].done else 0
  {
    var step := HolderStep(s, h);
    InvariantStep(s, step);
    RunOne(s, step);
    forall t | t in s.threads ensures t in Apply(s, step).threads { HoldsAfter(s, step, t); }
    forall t | t in s.threads && t != h ensures Apply(s, step).threads[t] == s.threads[t] { HoldsAfter(s, step, t); }
    hide Run, Invariant, Progress, Apply;
    if step.Unlock? {
      more, s' := [step], Apply(s, step);
    } else {
      more, s' := HolderLeaves(Apply(s, step), h);
      RunConcat(s, [step], Apply(s, step), more, s');
      more := [step] + more;
    }
  }

  /** A thread that waits for a free lock can take it. */
  lemma WaiterEnters(s: State, t: Thread) returns (more: seq<Step>, s': State)
    requires s.word == 0 && t in s.threads && (s.threads[t].Spinning? || s.threads[t].Trying?)
    ensures Run(s, more, s') && Holds(s', t)
  {
    var r := s;
    more := [];
    if s.threads[t].Spinning? {
      RunOne(s, Load(t));
      r, more := Apply(s, Load(t)), [Load(t)];
    }
    assert Run(s, more, r) && r.word == 0 && t in r.threads && r.threads[t].Trying?;
    var exchange := CompareExchange(t, false);
    RunOne(r, exchange);
    s' := Apply(r, exchange);
    assert Holds(s', t);
    hide Run, Apply;
    RunConcat(s, more, r, [exchange], s');
    more := more + [exchange];
  }

  /** From every reachable state, every thread that waits for the lock can still get it: no step of any
      thread leads into a deadlock. */
  lemma WaiterCanEnter(init: State, steps: seq<Step>, s: State, t: Thread)
    requires Initial(init) && Run(init, steps, s)
    requires t in s.threads && (s.threads[t].Spinning? || s.threads[t].Trying?)
    ensures exists more: seq<Step>, s' :: Run(init, steps + more, s') && Holds(s', t)
  {
    InvariantAlways(init, steps, s);
    var some, free, more, s' := [], s, [], s;
    if s.word != 0 {
      var h :| Holds(s, h);
      hide Run, Invariant, Initial;
      some, free := HolderLeaves(s, h);
    }
    assert Run(s, some, free);
    hide Run, Invariant, Initial;
    more, s' := WaiterEnters(free, t);
    RunConcat(s, some, free, more, s');
    RunConcat(init, steps, s, some + more, s');
  }
}
