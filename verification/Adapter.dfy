/**
 The gvisor adapter, tun2socks_adapter/main.go: the atomic `running` flag around the engine,
 first as the two functions of the source, then interleaved at its atomic operations.

 engine.Start and engine.Stop take no handle, so only the order of the calls says whether the engine is
 up: it is after a start, and it is not after a stop, whichever start that stop was meant for.
 */
module Adapter {

  /** The argument test of startTun2Socks. */
  predicate ValidArguments(tunFd: int, hostEmpty: bool, port: int, mtu: int) {
    tunFd >= 0 && !hostEmpty && port > 0 && mtu > 0
  }

  datatype Call = StartCall | StopCall

  /** The flag, and the calls made to the engine so far, oldest first. */
  datatype Engine = Engine(running: bool, calls: seq<Call>)

  predicate Up(e: Engine) { e.calls != [] && e.calls[|e.calls| - 1] == StartCall }

  function Count(calls: seq<Call>, c: Call): nat {
    if calls == [] then 0
    else Count(calls[..|calls| - 1], c) + Bit(calls[|calls| - 1] == c)
  }

  function Bit(b: bool): nat { if b then 1 else 0 }

  function Starts(e: Engine): nat { Count(e.calls, StartCall) }

  function Stops(e: Engine): nat { Count(e.calls, StopCall) }

  lemma CountSnoc(calls: seq<Call>, c: Call)
    ensures Count(calls + [c], StartCall) == Count(calls, StartCall) + Bit(c.StartCall?)
    ensures Count(calls + [c], StopCall) == Count(calls, StopCall) + Bit(c.StopCall?)
  {
    assert (calls + [c])[..|calls|] == calls;
  }

  function Started(e: Engine, valid: bool): Engine {
    if e.running || !valid then e else Engine(true, e.calls + [StartCall])
  }

  function Stopped(e: Engine): Engine {
    if e.running then Engine(false, e.calls + [StopCall]) else e
  }

  class Tun2Socks {
    var running: bool
    var engineCalls: seq<Call>

    ghost function Value(): Engine
      reads this
    {
      Engine(running, engineCalls)
    }

    constructor ()
      ensures Value() == Engine(false, [])
    {
      running, engineCalls := false, [];
    }

    method Start(tunFd: int, hostEmpty: bool, port: int, mtu: int) returns (ok: bool)
      modifies this
      ensures Value() == Started(old(Value()), ValidArguments(tunFd, hostEmpty, port, mtu))
      ensures ok <==> running
      ensures ok <==> old(running) || (tunFd >= 0 && !hostEmpty && port >= 1 && mtu >= 1)
      ensures engineCalls == old(engineCalls) + (if ok && !old(running) then [StartCall] else [])
    {
      if running {
        return true;
      }
      if tunFd < 0 || hostEmpty || port <= 0 || mtu <= 0 {
        return false;
      }
      engineCalls := engineCalls + [StartCall];
      running := true;
      return true;
    }

    method Stop()
      modifies this
      ensures Value() == Stopped(old(Value()))
    {
      var swapped := running;
      running := false;
      if swapped {
        engineCalls := engineCalls + [StopCall];
      }
    }
  }

  // ---- Interleaving: one starter, any number of detached stops

  /** Where the starter is: outside, past a Load that saw false, or past engine.Start. */
  datatype Starter = Outside | Checked | EngineUp

  /**
   `waiting` stops are about to Swap, `stopping` ones have swapped true out and owe an engine.Stop.
   `owed` is history: how many were owed when the engine was last started.
   */
  datatype State = State(engine: Engine, starter: Starter, waiting: nat, stopping: nat, owed: nat)

  datatype Event = CallStart(valid: bool) | EngineStart | StoreTrue | Detach | Swap | EngineStop

  /** One atomic operation; an event that is not enabled changes nothing. */
  function Step(s: State, e: Event): State {
    match e
    case CallStart(valid) =>
      if s.starter.Outside? && !s.engine.running && valid then s.(starter := Checked) else s
    case EngineStart =>
      if s.starter.Checked? then
        s.(starter := EngineUp, engine := s.engine.(calls := s.engine.calls + [StartCall]), owed := s.stopping)
      else s
    case StoreTrue =>
      if s.starter.EngineUp? then s.(starter := Outside, engine := s.engine.(running := true)) else s
    case Detach => s.(waiting := s.waiting + 1)
    case Swap =>
      if s.waiting == 0 then s
      else if s.engine.running then
        s.(waiting := s.waiting - 1, stopping := s.stopping + 1, engine := s.engine.(running := false))
      else s.(waiting := s.waiting - 1)
    case EngineStop =>
      if s.stopping == 0 then s
      else s.(stopping := s.stopping - 1, engine := s.engine.(calls := s.engine.calls + [StopCall]))
  }

  function Run(s: State, events: seq<Event>): State
    decreases |events|
  {
    if events == [] then s else Run(Step(s, events[0]), events[1..])
  }

  const INITIAL: State := State(Engine(false, []), Outside, 0, 0, 0)

  /** A start is under way or in force: the flag is up, or about to be stored. */
  predicate InForce(s: State) { s.engine.running || s.starter.EngineUp? }

  /**
   Every start is accounted for exactly once: stopped, being stopped, flagged, or not yet flagged. While a
   start is in force, the stops still owed are among those owed when it was made, and the engine is
   up exactly if all of them still are. Otherwise an engine that is up has a stop owed.
   */
  predicate Balanced(s: State) {
    && Starts(s.engine) == Stops(s.engine) + s.stopping + Bit(s.engine.running) + Bit(s.starter.EngineUp?)
    && (s.starter != Outside ==> !s.engine.running)
    && (InForce(s) ==> s.stopping <= s.owed && (Up(s.engine) <==> s.stopping == s.owed))
    && (!InForce(s) && Up(s.engine) ==> s.stopping > 0)
  }

  lemma StepBalanced(s: State, e: Event)
    requires Balanced(s)
    ensures Balanced(Step(s, e))
  {
    CountSnoc(s.engine.calls, StartCall);
    CountSnoc(s.engine.calls, StopCall);
    hide Count;
  }

  lemma {:induction false} RunBalanced(s: State, events: seq<Event>)
    requires Balanced(s)
    ensures Balanced(Run(s, events))
    decreases |events|
  {
    if events != [] {
      StepBalanced(s, events[0]);
      hide Step, Balanced;
      RunBalanced(Step(s, events[0]), events[1..]);
    }
  }

  lemma InitiallyBalanced()
    ensures Balanced(INITIAL)
  {
  }

  /** Whatever the interleaving, engine.Stop never runs more often than engine.Start. */
  lemma {:induction false} StopsMatchStarts(events: seq<Event>, initial: State, s: State)
    requires initial == INITIAL && s == Run(initial, events)
    ensures Stops(s.engine) <= Starts(s.engine)
    ensures s.starter.Outside? && s.stopping == 0 ==> Starts(s.engine) - Stops(s.engine) == Bit(s.engine.running)
  {
    InitiallyBalanced();
    hide Run, Step, Starts, Stops;
    RunBalanced(initial, events);
  }

  /**
   The flag does not always tell the engine's state. With nothing in flight an engine that is up has its flag
   up. Flag and engine agree exactly if the flag is down, or no engine.Stop was owed when the engine was
   last started; else that stop has run after the start, and taken the engine down under the flag.
   */
  lemma {:induction false} FlagTellsEngine(events: seq<Event>, initial: State, s: State)
    requires initial == INITIAL && s == Run(initial, events)
    requires s.starter.Outside? && s.stopping == 0
    ensures Up(s.engine) <==> s.engine.running && s.owed == 0
    ensures (Up(s.engine) <==> s.engine.running) <==> !s.engine.running || s.owed == 0
  {
    InitiallyBalanced();
    hide Run, Step, Starts, Stops, Up;
    RunBalanced(initial, events);
  }

  // ---- A start is one step

  /** The same machine with a start as a single step. */
  datatype Atomic = Start(valid: bool) | Other(event: Event)

  function AtomicStart(s: State, valid: bool): State {
    if s.engine.running || !valid then s else s.(engine := Started(s.engine, valid), owed := s.stopping)
  }

  lemma AtomicStartBalanced(s: State, valid: bool)
    requires Balanced(s) && s.starter.Outside?
    ensures Balanced(AtomicStart(s, valid))
  {
    CountSnoc(s.engine.calls, StartCall);
    hide Count;
  }

  function AtomicStep(s: State, a: Atomic): State {
    match a
    case Start(valid) => AtomicStart(s, valid)
    case Other(event) => Step(s, event)
  }

  function AtomicRun(s: State, atoms: seq<Atomic>): State
    decreases |atoms|
  {
    if atoms == [] then s else AtomicStep(AtomicRun(s, atoms[..|atoms| - 1]), atoms[|atoms| - 1])
  }

  lemma AtomicSnoc(s: State, atoms: seq<Atomic>, a: Atomic)
    ensures AtomicRun(s, atoms + [a]) == AtomicStep(AtomicRun(s, atoms), a)
  {
    assert (atoms + [a])[..|atoms|] == atoms;
    hide AtomicStep;
  }

  lemma {:induction false} AtomicAppend(s: State, a: seq<Atomic>, b: seq<Atomic>)
    ensures AtomicRun(s, a + b) == AtomicRun(AtomicRun(s, a), b)
  {
    if b == [] {
      assert a + b == a;
    } else {
      var n := |b| - 1;
      assert a + b == (a + b[..n]) + [b[n]] && b == b[..n] + [b[n]];
      hide AtomicStep;
      AtomicAppend(s, a, b[..n]);
      AtomicSnoc(s, a + b[..n], b[n]);
    }
  }

  /**
   The atomic steps found so far: `done`, and while the starter is past engine.Start, a start and then
   the engine stops that ran after it.
   */
  datatype Line = Line(done: seq<Atomic>, late: seq<Atomic>)

  function Whole(s: State, l: Line): seq<Atomic> {
    if s.starter.EngineUp? then l.done + [Start(true)] + l.late else l.done
  }

  /** A start takes effect at its EngineStart; a Swap between that and the store finds the flag down, and is moved before it. */
  function Extended(s: State, l: Line, e: Event): Line {
    match e
    case CallStart(_) => l
    case EngineStart => l
    case StoreTrue => if s.starter.EngineUp? then Line(Whole(s, l), []) else l
    case EngineStop => if s.starter.EngineUp? then l.(late := l.late + [Other(e)]) else l.(done := l.done + [Other(e)])
    case _ => l.(done := l.done + [Other(e)])
  }

  function Linearized(s: State, events: seq<Event>, l: Line): Line
    decreases |events|
  {
    if events == [] then l else Linearized(Step(s, events[0]), events[1..], Extended(s, l, events[0]))
  }

  predicate OnlyEngineStops(atoms: seq<Atomic>) { forall a | a in atoms :: a == Other(EngineStop) }

  predicate OnlyWholeStarts(atoms: seq<Atomic>) {
    forall a | a in atoms && a.Other? :: !a.event.CallStart? && !a.event.EngineStart? && !a.event.StoreTrue?
  }

  /** The state as the atomic machine sees it: no starter inside, and a start that ran already flagged. */
  function Seen(s: State): State {
    s.(starter := Outside, engine := s.engine.(running := InForce(s)))
  }

  predicate Linked(first: State, s: State, l: Line) {
    && OnlyWholeStarts(l.done) && OnlyEngineStops(l.late)
    && AtomicRun(first, Whole(s, l)) == Seen(s)
    && (s.starter.EngineUp? ==> !AtomicRun(first, l.done).engine.running)
    && (!s.starter.EngineUp? ==> l.late == [])
  }

  lemma {:induction false} StopsIgnoreWaiting(s: State, atoms: seq<Atomic>, w: nat)
    requires OnlyEngineStops(atoms)
    ensures AtomicRun(s.(waiting := w), atoms) == AtomicRun(s, atoms).(waiting := w)
    ensures AtomicRun(s, atoms).waiting == s.waiting
  {
    if atoms != [] {
      var n := |atoms| - 1;
      assert atoms[n] in atoms && forall a | a in atoms[..n] :: a in atoms;
      StopsIgnoreWaiting(s, atoms[..n], w);
    }
  }

  lemma WholeIs(first: State, l: Line)
    ensures AtomicRun(first, l.done + [Start(true)] + l.late) == AtomicRun(AtomicStart(AtomicRun(first, l.done), true), l.late)
  {
    hide AtomicStart;
    AtomicAppend(first, l.done + [Start(true)], l.late);
    AtomicSnoc(first, l.done, Start(true));
  }

  lemma SameWaiting(s: State, a: State, late: seq<Atomic>)
    requires OnlyEngineStops(late) && AtomicRun(AtomicStart(a, true), late) == Seen(s)
    ensures a.waiting == s.waiting
  {
    StopsIgnoreWaiting(AtomicStart(a, true), late, 0);
    hide AtomicRun, InForce;
  }

  lemma MoveWaiting(s: State, a: State, late: seq<Atomic>, w: nat)
    requires OnlyEngineStops(late) && AtomicRun(AtomicStart(a, true), late) == Seen(s) && !a.engine.running
    ensures AtomicRun(AtomicStart(a.(waiting := w), true), late) == Seen(s.(waiting := w))
  {
    StopsIgnoreWaiting(AtomicStart(a, true), late, w);
    hide AtomicRun;
    assert AtomicStart(a.(waiting := w), true) == AtomicStart(a, true).(waiting := w);
  }

  /** With the flag down, a Detach or a Swap moves `waiting` and nothing else. */
  function MovedWaiting(waiting: nat, e: Event): nat {
    if e.Detach? then waiting + 1 else if waiting == 0 then 0 else waiting - 1
  }

  lemma WaitingStep(s: State, e: Event)
    requires !s.engine.running && (e.Detach? || e.Swap?)
    ensures Step(s, e) == s.(waiting := MovedWaiting(s.waiting, e))
  {
  }

  lemma LateSeen(first: State, s: State, l: Line)
    requires Linked(first, s, l) && s.starter.EngineUp?
    ensures AtomicRun(AtomicStart(AtomicRun(first, l.done), true), l.late) == Seen(s)
  {
    hide AtomicRun, AtomicStart, Seen;
    WholeIs(first, l);
  }

  lemma WaitingSeen(first: State, s: State, l: Line, e: Event)
    requires !s.engine.running && Linked(first, s, l) && s.starter.EngineUp? && (e.Detach? || e.Swap?)
    ensures AtomicRun(first, l.done + [Other(e)]) ==
            AtomicRun(first, l.done).(waiting := MovedWaiting(s.waiting, e))
    ensures AtomicRun(first, l.done + [Other(e)] + [Start(true)] + l.late) ==
            Seen(s.(waiting := MovedWaiting(s.waiting, e)))
  {
    LateSeen(first, s, l);
    hide AtomicRun, AtomicStart, Seen, Step, MovedWaiting, OnlyWholeStarts, Whole;
    var a := AtomicRun(first, l.done);
    SameWaiting(s, a, l.late);
    WaitingStep(a, e);
    AtomicSnoc(first, l.done, Other(e));
    MoveWaiting(s, a, l.late, MovedWaiting(s.waiting, e));
    WholeIs(first, Line(l.done + [Other(e)], l.late));
  }

  /** A Detach or a Swap while the starter is past engine.Start only moves `waiting`, before the start as after it. */
  lemma LinkWaiting(first: State, s: State, l: Line, e: Event)
    requires Balanced(s) && Linked(first, s, l) && s.starter.EngineUp? && (e.Detach? || e.Swap?)
    ensures Linked(first, Step(s, e), Extended(s, l, e))
  {
    assert !s.engine.running;
    hide AtomicRun, Seen, Balanced, Step, MovedWaiting;
    WaitingStep(s, e);
    WaitingSeen(first, s, l, e);
  }

  lemma LinkLateStop(first: State, s: State, l: Line)
    requires Balanced(s) && Linked(first, s, l) && s.starter.EngineUp?
    ensures Linked(first, Step(s, EngineStop), Extended(s, l, EngineStop))
  {
    hide AtomicRun, Balanced, Count;
    var next := Extended(s, l, EngineStop);
    assert Whole(s, next) == Whole(s, l) + [Other(EngineStop)];
    AtomicSnoc(first, Whole(s, l), Other(EngineStop));
  }

  lemma LinkStart(first: State, s: State, l: Line)
    requires Balanced(s) && Linked(first, s, l) && s.starter.Checked?
    ensures Linked(first, Step(s, EngineStart), Extended(s, l, EngineStart))
  {
    assert l.done + [Start(true)] + [] == l.done + [Start(true)];
    AtomicSnoc(first, l.done, Start(true));
    hide AtomicRun, Count;
  }

  lemma LinkStore(first: State, s: State, l: Line)
    requires Balanced(s) && Linked(first, s, l) && s.starter.EngineUp?
    ensures Linked(first, Step(s, StoreTrue), Extended(s, l, StoreTrue))
  {
    hide AtomicRun, Balanced, Count;
  }

  lemma LinkOther(first: State, s: State, l: Line, e: Event)
    requires Balanced(s) && Linked(first, s, l)
    requires !s.starter.EngineUp? && (e.Detach? || e.Swap? || e.EngineStop?)
    ensures Linked(first, Step(s, e), Extended(s, l, e))
  {
    AtomicSnoc(first, l.done, Other(e));
    hide AtomicRun, Balanced, Count;
  }

  lemma LinkStep(first: State, s: State, l: Line, e: Event)
    requires Balanced(s) && Linked(first, s, l)
    ensures Linked(first, Step(s, e), Extended(s, l, e))
  {
    if s.starter.EngineUp? && (e.Detach? || e.Swap?) {
      LinkWaiting(first, s, l, e);
    } else if s.starter.EngineUp? && e.EngineStop? {
      LinkLateStop(first, s, l);
    } else if s.starter.EngineUp? && e.StoreTrue? {
      LinkStore(first, s, l);
    } else if s.starter.Checked? && e.EngineStart? {
      LinkStart(first, s, l);
    } else if e.Detach? || e.Swap? || e.EngineStop? {
      LinkOther(first, s, l, e);
    } else {
      hide AtomicRun, Balanced;
    }
  }

  lemma {:induction false} LinkRun(first: State, s: State, events: seq<Event>, l: Line)
    requires Balanced(s) && Linked(first, s, l)
    ensures Balanced(Run(s, events)) && Linked(first, Run(s, events), Linearized(s, events, l))
    decreases |events|
  {
    if events != [] {
      StepBalanced(s, events[0]);
      LinkStep(first, s, l, events[0]);
      hide Step, Balanced, Linked, Extended;
      LinkRun(first, Step(s, events[0]), events[1..], Extended(s, l, events[0]));
    }
  }

  /**
   Every interleaved run ends as a run whose starts are single steps, up to a starter still on its way. As the
   state holds the engine calls in order, the calls are the same ones in the same order.
   */
  lemma {:induction false} Linearizable(s: State, events: seq<Event>)
    requires Balanced(s) && s.starter.Outside?
    ensures var t := Run(s, events);
      var atoms := Whole(t, Linearized(s, events, Line([], [])));
      OnlyWholeStarts(atoms) && AtomicRun(s, atoms) == Seen(t)
  {
    var l := Line([], []);
    assert Linked(s, s, l) by {
      assert AtomicRun(s, []) == s;
    }
    hide Run, Linearized, AtomicRun, Balanced, Seen;
    LinkRun(s, s, events, l);
  }

  // ---- How long a start lasts

  /** Only steps of stops that were detached already. */
  predicate StopsOnly(events: seq<Event>) { forall e | e in events :: e.Swap? || e.EngineStop? }

  /** Some Swap is followed by an EngineStop. */
  predicate SwapThenStop(events: seq<Event>)
    decreases |events|
  {
    events != [] && ((events[0].Swap? && EngineStop in events[1..]) || SwapThenStop(events[1..]))
  }

  lemma {:induction false} NoStopNoSwapThenStop(events: seq<Event>)
    ensures SwapThenStop(events) ==> EngineStop in events
  {
    if events != [] {
      assert forall e :: e in events <==> e == events[0] || e in events[1..];
      NoStopNoSwapThenStop(events[1..]);
    }
  }

  lemma {:induction false} StaysDown(s: State, events: seq<Event>)
    requires StopsOnly(events)
    ensures !s.engine.running ==> !Run(s, events).engine.running
    ensures !Up(s.engine) ==> !Up(Run(s, events).engine)
    decreases |events|
  {
    if events != [] {
      assert events[0] in events && forall e | e in events[1..] :: e in events;
      StaysDown(Step(s, events[0]), events[1..]);
    }
  }

  /** A flag that is up survives a schedule exactly if no stop was waiting or none reaches its Swap. */
  lemma {:induction false} FlagSurvives(s: State, events: seq<Event>)
    requires s.engine.running && StopsOnly(events)
    ensures Run(s, events).engine.running <==> s.waiting == 0 || Swap !in events
    decreases |events|
  {
    if events != [] {
      var next, rest := Step(s, events[0]), events[1..];
      assert events[0] in events && forall e :: e in events <==> e == events[0] || e in rest;
      if next.engine.running {
        FlagSurvives(next, rest);
      } else {
        StaysDown(next, rest);
      }
    }
  }

  /** With the flag down, the engine stays up exactly if no stop was owed or none is made. */
  lemma {:induction false} OwedStopsRun(s: State, events: seq<Event>)
    requires !s.engine.running && StopsOnly(events)
    ensures Up(Run(s, events).engine) <==> Up(s.engine) && (s.stopping == 0 || EngineStop !in events)
    decreases |events|
  {
    if events != [] {
      var next, rest := Step(s, events[0]), events[1..];
      assert events[0] in events && forall e :: e in events <==> e == events[0] || e in rest;
      if Up(next.engine) {
        OwedStopsRun(next, rest);
      } else {
        StaysDown(next, rest);
      }
    }
  }

  /**
   With the flag up, the engine survives a schedule of the stops detached before exactly if it was up, none of
   the stops already past their Swap is made, and none of the waiting ones gets through both its steps.
   */
  lemma {:induction false} SurvivesExactly(s: State, events: seq<Event>)
    requires s.engine.running && StopsOnly(events)
    ensures Up(Run(s, events).engine) <==>
      Up(s.engine) && (s.stopping == 0 || EngineStop !in events) && (s.waiting == 0 || !SwapThenStop(events))
    decreases |events|
  {
    if events != [] {
      var next, rest := Step(s, events[0]), events[1..];
      assert events[0] in events && forall e :: e in events <==> e == events[0] || e in rest;
      NoStopNoSwapThenStop(rest);
      if !Up(next.engine) {
        StaysDown(next, rest);
      } else if next.engine.running {
        SurvivesExactly(next, rest);
      } else {
        OwedStopsRun(next, rest);
      }
    }
  }

  lemma {:induction false} OwedAreMade(s: State, events: seq<Event>)
    requires StopsOnly(events) && s.stopping > 0 && Run(s, events).stopping == 0
    ensures EngineStop in events
    decreases |events|
  {
    assert events[0] in events && forall e :: e in events <==> e == events[0] || e in events[1..];
    if events[0] != EngineStop {
      OwedAreMade(Step(s, events[0]), events[1..]);
    }
  }

  lemma {:induction false} WaitingAreDone(s: State, events: seq<Event>)
    requires StopsOnly(events) && s.engine.running && s.waiting > 0
    requires Run(s, events).waiting == 0 && Run(s, events).stopping == 0
    ensures SwapThenStop(events)
    decreases |events|
  {
    assert events[0] in events && forall e :: e in events <==> e == events[0] || e in events[1..];
    if events[0].Swap? {
      OwedAreMade(Step(s, events[0]), events[1..]);
    } else {
      WaitingAreDone(Step(s, events[0]), events[1..]);
    }
  }

  /** Once all of them have run, the engine is up exactly if it was and there were none. */
  lemma WhenStopsAreDone(s: State, events: seq<Event>)
    requires s.engine.running && StopsOnly(events)
    requires Run(s, events).waiting == 0 && Run(s, events).stopping == 0
    ensures Up(Run(s, events).engine) <==> Up(s.engine) && s.waiting == 0 && s.stopping == 0
  {
    hide Run, Up;
    SurvivesExactly(s, events);
    if s.stopping > 0 {
      OwedAreMade(s, events);
    }
    if s.waiting > 0 {
      WaitingAreDone(s, events);
    }
  }

  // ---- Without interference, and with it

  /** Without interference the atomic steps of a start and of a stop are the two functions. */
  lemma StepsAreFunctions(s: State, valid: bool)
    requires s.starter.Outside?
    ensures Run(s, [CallStart(valid), EngineStart, StoreTrue]).engine == Started(s.engine, valid)
    ensures s.stopping == 0 ==> Run(s, [Detach, Swap, EngineStop]).engine == Stopped(s.engine)
  {
    RunThree(s, CallStart(valid), EngineStart, StoreTrue);
    RunThree(s, Detach, Swap, EngineStop);
  }

  lemma RunThree(s: State, a: Event, b: Event, c: Event)
    ensures Run(s, [a, b, c]) == Step(Step(Step(s, a), b), c)
  {
    var events := [a, b, c];
    assert events[1..] == [b, c] && [b, c][1..] == [c] && [c][1..] == [];
    assert Run(Step(Step(s, a), b), [c]) == Step(Step(Step(s, a), b), c);
  }

  lemma {:induction false} RunAppend(s: State, a: seq<Event>, b: seq<Event>)
    ensures Run(s, a + b) == Run(Run(s, a), b)
    decreases |a|
  {
    if a == [] {
      assert a + b == b;
    } else {
      assert a + b == [a[0]] + (a[1..] + b);
      RunAppend(Step(s, a[0]), a[1..], b);
    }
  }

  /** The steps of a start and of a stop, undisturbed. */
  const A_START: seq<Event> := [CallStart(true), EngineStart, StoreTrue]

  lemma FirstStart(initial: State)
    requires initial == INITIAL
    ensures Run(initial, A_START) == State(Engine(true, [StartCall]), Outside, 0, 0, 0)
  {
    RunThree(initial, CallStart(true), EngineStart, StoreTrue);
  }

  /**
   A stop detached before a start that returned success takes the engine down after it: the start finds
   the flag still up and does nothing, and then the stop swaps it and stops the engine.
   */
  lemma LateStopWins(initial: State)
    requires initial == INITIAL
    ensures Run(initial, A_START + [Detach] + A_START + [Swap, EngineStop]).engine == Engine(false, [StartCall, StopCall])
  {
    var up := State(Engine(true, [StartCall]), Outside, 1, 0, 0);
    hide Run;
    FirstStart(initial);
    RunAppend(initial, A_START, [Detach]);
    RunOne(Run(initial, A_START), Detach);
    RunAppend(initial, A_START + [Detach], A_START);
    RunThree(up, CallStart(true), EngineStart, StoreTrue);
    RunAppend(initial, A_START + [Detach] + A_START, [Swap, EngineStop]);
    RunTwo(up, Swap, EngineStop);
    assert [StartCall] + [StopCall] == [StartCall, StopCall];
  }

  /**
   So does one that had swapped the flag out before the start: the start finds the flag down and starts
   the engine, and the stop that was owed then takes it down, with the flag left up.
   */
  lemma OwedStopWins(initial: State)
    requires initial == INITIAL
    ensures var s := Run(initial, A_START + [Detach, Swap] + A_START + [EngineStop]);
      s.engine == Engine(true, [StartCall, StartCall, StopCall]) && !Up(s.engine) && s.waiting == 0 && s.stopping == 0
  {
    var owing := State(Engine(false, [StartCall]), Outside, 0, 1, 0);
    hide Run;
    FirstStart(initial);
    RunAppend(initial, A_START, [Detach, Swap]);
    RunTwo(Run(initial, A_START), Detach, Swap);
    RunAppend(initial, A_START + [Detach, Swap], A_START);
    RunThree(owing, CallStart(true), EngineStart, StoreTrue);
    RunAppend(initial, A_START + [Detach, Swap] + A_START, [EngineStop]);
    RunOne(Run(owing, A_START), EngineStop);
    assert [StartCall] + [StartCall] + [StopCall] == [StartCall, StartCall, StopCall];
  }

  lemma RunOne(s: State, a: Event)
    ensures Run(s, [a]) == Step(s, a)
  {
    assert [a][1..] == [];
    hide Step;
    assert Run(Step(s, a), []) == Step(s, a);
  }

  lemma RunTwo(s: State, a: Event, b: Event)
    ensures Run(s, [a, b]) == Step(Step(s, a), b)
  {
    assert [a, b] == [a] + [b];
    hide Run, Step;
    RunAppend(s, [a], [b]);
    RunOne(s, a);
    RunOne(Step(s, a), b);
  }
}
