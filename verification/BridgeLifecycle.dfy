/** The libraries, the asset directory and the two cores over runs of the bridge. */
module BridgeLifecycle {
  import opened JsText
  import opened Loader
  import opened Bridge
  import opened BridgeSafety
  import Adapter
  import SingBox

  // ---- Published libraries

  predicate ImageKept(before: Image, after: Image) { before.handle != 0 ==> after == before }

  /** Every published library is as it was, and with Xray's published its environment is too. */
  predicate Kept(s: State, t: State) {
    && ImageKept(s.xray.core, t.xray.core) && ImageKept(s.sing.core, t.sing.core)
    && ImageKept(s.plane.tun2socks, t.plane.tun2socks) && ImageKept(s.plane.hev, t.plane.hev)
    && (s.xray.core.handle != 0 ==> t.xray.writes == s.xray.writes)
  }

  lemma StepKept(s: State, e: Event)
    requires Safe(s)
    ensures Kept(s, Step(s, e))
  {
    if e.StartXray? || e.StopXray? || e.XrayCall? {
      XrayKept(s, e);
    } else if e.SingboxStart? || e.SingboxStop? {
      SingKept(s, e);
    } else {
      PlaneKept(s, e);
    }
  }

  lemma XrayKept(s: State, e: Event)
    requires XraySafe(s.xray) && (e.StartXray? || e.StopXray? || e.XrayCall?)
    ensures Kept(s, Step(s, e))
  {
    LoadStep(s.xray.core, e.lookup);
    hide Loaded, Resolved;
  }

  lemma SingKept(s: State, e: Event)
    requires SingSafe(s.sing) && (e.SingboxStart? || e.SingboxStop?)
    ensures Kept(s, Step(s, e))
  {
    LoadStep(s.sing.core, e.lookup);
    hide Loaded, Resolved, SingBox.Succeeded, SingBox.StartReply, SingBox.StopReply, SingBox.StartError;
  }

  lemma PlaneKept(s: State, e: Event)
    requires PlaneSafe(s.plane)
    requires e.StartTun2Socks? || e.StartHevTun? || e.StopTun2Socks? || e.DetachedSwap? || e.DetachedStop? || e.HevReturns?
    ensures Kept(s, Step(s, e))
  {
    if e.StartTun2Socks? || e.StopTun2Socks? {
      LoadStep(s.plane.tun2socks, e.lookup);
    } else if e.StartHevTun? {
      LoadStep(s.plane.hev, e.lookup);
    }
    hide Loaded, Resolved, Adapter.Step, Adapter.Balanced;
  }

  /**
   Over every run from a reachable state: a published handle and its required symbols never change,
   none of them is ever null, the asset directory is written at most once, and never again
   once the Xray handle is published.
   */
  lemma {:induction false} PublishedForever(s: State, events: seq<Event>)
    requires Safe(s)
    ensures Safe(Run(s, events)) && Kept(s, Run(s, events))
    ensures Run(s, events).xray.writes <= 1
    decreases |events|
  {
    if events != [] {
      StepKeeps(s, events[0]);
      StepKept(s, events[0]);
      hide Step, Safe;
      PublishedForever(Step(s, events[0]), events[1..]);
      assert Run(s, events) == Run(Step(s, events[0]), events[1..]);
    } else {
      assert XraySafe(s.xray);
    }
  }

  // ---- The asset directory

  /** Starting Xray writes after dlopen exactly if an earlier load opened the library but missed a symbol. */
  lemma LateWriteExactly(x: Xray, e: Event)
    requires e.StartXray?
    ensures XrayStarted(x, e).lateWrites > x.lateWrites <==>
            !e.configEmpty && !x.running && !e.dirEmpty && !x.assetSet && x.core.handle == 0 && x.core.wasOpened
  {
    hide Loaded, Ready;
  }

  /** A start that succeeds runs with its asset directory set exactly if no other call had published the core. */
  lemma AssetSetWhenStarted(x: Xray, e: Event)
    requires e.StartXray? && !x.running && XrayStarted(x, e).running
    ensures XrayStarted(x, e).assetSet <==> x.assetSet || x.core.handle == 0
  {
    hide Loaded, Ready;
  }

  predicate Complete(k: Lookup) { Opened(k) != 0 ==> Resolved(k.symbols) }

  predicate CompleteXray(e: Event) {
    match e
    case StartXray(_, _, lookup, _) => Complete(lookup)
    case StopXray(lookup, _) => Complete(lookup)
    case XrayCall(lookup) => Complete(lookup)
    case _ => true
  }

  predicate NeverLate(x: Xray) { x.lateWrites == 0 && (x.core.wasOpened ==> x.core.handle != 0) }

  lemma NeverLateStep(s: State, e: Event)
    requires Safe(s) && NeverLate(s.xray) && CompleteXray(e)
    ensures NeverLate(Step(s, e).xray)
  {
    hide Resolved, HevStarted, GvisorStarted, PlaneStopped, SingStarted, SingBox.Succeeded, SingBox.StopReply, Adapter.Step;
  }

  /** If whatever dlopen returns has its symbols, no run writes the environment after dlopen. */
  lemma {:induction false} NeverLateRun(s: State, events: seq<Event>)
    requires Safe(s) && NeverLate(s.xray)
    requires forall e | e in events :: CompleteXray(e)
    ensures Run(s, events).xray.lateWrites == 0
    decreases |events|
  {
    if events != [] {
      assert events[0] in events && forall e | e in events[1..] :: e in events;
      StepKeeps(s, events[0]);
      NeverLateStep(s, events[0]);
      hide Step, Safe, CompleteXray;
      NeverLateRun(Step(s, events[0]), events[1..]);
    }
  }

  const MISSING: Lookup := Lookup(1, 0, [0])
  const FOUND: Lookup := Lookup(1, 0, [1])

  lemma RunTwo(s: State, a: Event, b: Event)
    ensures Run(s, [a, b]) == Step(Step(s, a), b)
  {
    var events := [a, b];
    assert events[1..] == [b] && [b][1..] == [];
    hide Step;
    assert Run(Step(s, a), [b]) == Run(Step(Step(s, a), b), []);
  }

  /** The environment written after dlopen, and Xray started without it: two calls suffice for either. */
  lemma AssetDirectoryCanFail(initial: State, start: Event)
    requires initial == INITIAL && start == StartXray(false, false, FOUND, true)
    ensures Run(initial, [XrayCall(MISSING), start]).xray.lateWrites == 1
    ensures Run(initial, [XrayCall(FOUND), start]).xray.running
    ensures !Run(initial, [XrayCall(FOUND), start]).xray.assetSet
  {
    RunTwo(initial, XrayCall(MISSING), start);
    RunTwo(initial, XrayCall(FOUND), start);
    hide Run;
    assert MISSING.symbols[0] == 0 && !Resolved(MISSING.symbols);
    assert Loaded(initial.xray.core, MISSING) == Image(0, [0], true);
    assert Loaded(initial.xray.core, FOUND) == Image(1, [1], true);
  }

  // ---- Two planes

  const HEV_START: Event := StartHevTun(3, false, FOUND, true)

  lemma StopClearsFlag(s: State, stop: Event)
    requires stop.StopXray? && !s.xray.running
    ensures Step(s, stop).plane == s.plane.(running := false)
  {
  }

  lemma HevStartOnFound(p: Plane)
    requires !p.running && (p.hev == UNLOADED || p.hev == FOUND_IMAGE)
    ensures HevStarted(p, HEV_START) == Spawned(Joined(p.(hev := FOUND_IMAGE), false)).(running := true, engine := Hev)
  {
    FoundLoads(FOUND);
    hide Loaded, Ready, Joined, Spawned;
  }

  lemma GvisorThenHev(p: Plane, start: Event)
    requires p == INITIAL.plane && start == StartTun2Socks(3, false, 10808, 1400, FOUND, true)
    ensures Planes(HevStarted(GvisorStarted(p, start).(running := false), HEV_START)) == 2
  {
    GvisorStartOnFound(p, start);
    var q := GvisorStarted(p, start).(running := false);
    HevStartOnFound(q);
    hide GvisorStarted, HevStarted;
    var after := Spawned(Joined(q.(hev := FOUND_IMAGE), false));
    assert after.live == {1};
    Adapter.CountSnoc([], Adapter.StartCall);
    assert after.adapter.engine.calls == [] + [Adapter.StartCall];
    hide Adapter.Count;
  }

  lemma HevThenHev(p: Plane)
    requires p == INITIAL.plane
    ensures HevStarted(HevStarted(p, HEV_START).(running := false), HEV_START).waited
  {
    HevStartOnFound(p);
    var q := HevStarted(p, HEV_START).(running := false);
    HevStartOnFound(q);
    hide HevStarted;
    assert 1 in q.live && q.thread == 1;
  }

  /** StopXray between two starts: both engines up, or the second start waiting for the first hev thread. */
  lemma StopXrayBetweenStarts(initial: State, gvisor: Event, stop: Event)
    requires initial == INITIAL
    requires gvisor == StartTun2Socks(3, false, 10808, 1400, FOUND, true) && stop == StopXray(FOUND, true)
    ensures Planes(Step(Run(initial, [gvisor, stop]), HEV_START).plane) == 2
    ensures Step(Run(initial, [HEV_START, stop]), HEV_START).plane.waited
  {
    hide Run, GvisorStarted, HevStarted, Planes;
    RunTwo(initial, gvisor, stop);
    RunTwo(initial, HEV_START, stop);
    StopClearsFlag(Step(initial, gvisor), stop);
    StopClearsFlag(Step(initial, HEV_START), stop);
    GvisorThenHev(initial.plane, gvisor);
    HevThenHev(initial.plane);
  }

  lemma RunCons(s: State, first: Event, rest: seq<Event>)
    ensures Run(s, [first] + rest) == Run(Step(s, first), rest)
  {
    assert ([first] + rest)[1..] == rest;
    hide Step;
  }

  const FOUND_IMAGE: Image := Image(1, [1], true)

  lemma FoundLoads(k: Lookup)
    ensures Loaded(UNLOADED, FOUND) == FOUND_IMAGE && Ready(FOUND_IMAGE) && Loaded(FOUND_IMAGE, k) == FOUND_IMAGE
  {
  }

  lemma GvisorStartOnFound(p: Plane, start: Event)
    requires !p.running && (p.tun2socks == UNLOADED || p.tun2socks == FOUND_IMAGE)
    requires start == StartTun2Socks(3, false, 10808, 1400, FOUND, true)
    ensures GvisorStarted(p, start) ==
            p.(tun2socks := FOUND_IMAGE, running := true, engine := Gvisor, adapter := Adapter.AtomicStart(p.adapter, true))
  {
    FoundLoads(FOUND);
    hide Loaded, Ready;
  }

  lemma GvisorStopOnFound(p: Plane, stop: Event)
    requires p.running && p.engine.Gvisor? && p.tun2socks == FOUND_IMAGE && stop.StopTun2Socks?
    ensures PlaneStopped(p, stop) ==
            p.(running := false, engine := NoEngine, adapter := Adapter.Step(p.adapter, Adapter.Detach))
  {
    FoundLoads(stop.lookup);
    hide Loaded, Ready;
  }

  /** One engine start, and one stop waiting, or past its swap. */
  const ONE_WAITING: Adapter.State := Adapter.State(Adapter.Engine(true, [Adapter.StartCall]), Adapter.Outside, 1, 0, 0)
  const ONE_OWED: Adapter.State := Adapter.State(Adapter.Engine(false, [Adapter.StartCall]), Adapter.Outside, 0, 1, 0)

  lemma StartStop(p: Plane, start: Event, stop: Event)
    requires p == INITIAL.plane && start == StartTun2Socks(3, false, 10808, 1400, FOUND, true) && stop.StopTun2Socks?
    ensures PlaneStopped(GvisorStarted(p, start), stop) == p.(tun2socks := FOUND_IMAGE, adapter := ONE_WAITING)
  {
    assert [] + [Adapter.StartCall] == [Adapter.StartCall];
    hide GvisorStarted, PlaneStopped;
    GvisorStartOnFound(p, start);
    GvisorStopOnFound(GvisorStarted(p, start), stop);
  }

  lemma OneWaitingRuns(s: State)
    requires s.plane.adapter == ONE_WAITING
    ensures Step(s, DetachedSwap).plane == s.plane.(adapter := ONE_OWED)
    ensures Step(Step(s, DetachedSwap), DetachedStop).plane ==
            s.plane.(adapter := Adapter.State(Adapter.Engine(false, [Adapter.StartCall, Adapter.StopCall]), Adapter.Outside, 0, 0, 0))
  {
    assert [Adapter.StartCall] + [Adapter.StopCall] == [Adapter.StartCall, Adapter.StopCall];
  }

  lemma TwoCalls(e: Adapter.Engine)
    requires e.calls == [Adapter.StartCall, Adapter.StopCall]
    ensures Adapter.Starts(e) == 1 == Adapter.Stops(e) && !Adapter.Up(e)
  {
    var one, none := [Adapter.StartCall], [];
    assert e.calls == one + [Adapter.StopCall] && one == none + [Adapter.StartCall];
    Adapter.CountSnoc(none, Adapter.StartCall);
    Adapter.CountSnoc(one, Adapter.StopCall);
  }

  /** A stop, a start that reports success, and then the stop's thread: the flag stays up over no plane at all. */
  lemma LateStopTakesPlaneDown(initial: State, start: Event, events: seq<Event>, p: Plane)
    requires initial == INITIAL && start == StartTun2Socks(3, false, 10808, 1400, FOUND, true)
    requires events == [start, StopTun2Socks(FOUND), start, DetachedSwap, DetachedStop] && p == Run(initial, events).plane
    ensures p.running && p.engine.Gvisor? && !p.adapter.engine.running && !Adapter.Up(p.adapter.engine) && Planes(p) == 0
  {
    hide GvisorStarted, PlaneStopped, Run, Adapter.Step, Adapter.Starts, Adapter.Stops, Adapter.Up;
    var stop, threads := StopTun2Socks(FOUND), [DetachedSwap, DetachedStop];
    assert events == [start] + ([stop] + ([start] + threads));
    RunCons(initial, start, [stop] + ([start] + threads));
    RunCons(Step(initial, start), stop, [start] + threads);
    RunCons(Step(Step(initial, start), stop), start, threads);
    var s := Step(Step(Step(initial, start), stop), start);
    RunTwo(s, DetachedSwap, DetachedStop);
    StartStop(initial.plane, start, stop);
    TwoSteps(initial, start, stop, Step(Step(initial, start), stop));
    StartAgain(Step(Step(initial, start), stop), start);
    hide Step;
    OneWaitingRuns(s);
    TwoCalls(p.adapter.engine);
  }

  /** The second start finds the flag up, and the engine too. */
  lemma StartAgain(s: State, start: Event)
    requires start == StartTun2Socks(3, false, 10808, 1400, FOUND, true)
    requires s.plane == INITIAL.plane.(tun2socks := FOUND_IMAGE, adapter := ONE_WAITING)
    ensures Step(s, start).plane == s.plane.(running := true, engine := Gvisor)
  {
    GvisorStartOnFound(s.plane, start);
    hide GvisorStarted;
  }

  lemma StartOverOwed(s: State, start: Event)
    requires start == StartTun2Socks(3, false, 10808, 1400, FOUND, true)
    requires s.plane == INITIAL.plane.(tun2socks := FOUND_IMAGE, adapter := ONE_OWED)
    ensures Step(Step(s, start), DetachedStop).plane ==
            s.plane.(running := true, engine := Gvisor,
                     adapter := Adapter.State(Adapter.Engine(true, [Adapter.StartCall, Adapter.StartCall, Adapter.StopCall]),
                                              Adapter.Outside, 0, 0, 1))
  {
    assert [Adapter.StartCall] + [Adapter.StartCall] + [Adapter.StopCall] == [Adapter.StartCall, Adapter.StartCall, Adapter.StopCall];
    GvisorStartOnFound(s.plane, start);
    hide GvisorStarted;
  }

  /**
   The same with the stop's swap before the second start: nothing was waiting then, and the stop that was owed
   takes the new engine down. Plane flag, engine choice and the adapter's flag all stay up.
   */
  lemma OwedStopTakesEngineDown(initial: State, start: Event, events: seq<Event>, p: Plane)
    requires initial == INITIAL && start == StartTun2Socks(3, false, 10808, 1400, FOUND, true)
    requires events == [start, StopTun2Socks(FOUND), DetachedSwap, start, DetachedStop] && p == Run(initial, events).plane
    ensures p.running && p.engine.Gvisor? && p.adapter.engine.running && !Adapter.Up(p.adapter.engine)
    ensures p.adapter.waiting == 0 && p.adapter.stopping == 0
  {
    hide GvisorStarted, PlaneStopped, Run, Adapter.Step;
    var stop, last := StopTun2Socks(FOUND), [start, DetachedStop];
    assert events == [start] + ([stop] + ([DetachedSwap] + last));
    RunCons(initial, start, [stop] + ([DetachedSwap] + last));
    RunCons(Step(initial, start), stop, [DetachedSwap] + last);
    var s := Step(Step(initial, start), stop);
    RunCons(s, DetachedSwap, last);
    RunTwo(Step(s, DetachedSwap), start, DetachedStop);
    StartStop(initial.plane, start, stop);
    TwoSteps(initial, start, stop, s);
    hide Step;
    OneWaitingRuns(s);
    StartOverOwed(Step(s, DetachedSwap), start);
  }

  lemma TwoSteps(s: State, start: Event, stop: Event, t: State)
    requires start.StartTun2Socks? && stop.StopTun2Socks? && t == Step(Step(s, start), stop)
    ensures t.plane == PlaneStopped(GvisorStarted(s.plane, start), stop)
  {
    hide GvisorStarted, PlaneStopped;
  }

  // ---- sing-box

  predicate ServiceKnown(g: Sing) { g.service ==> g.running }

  /** Every step keeps a live service known, except a start whose success was answered with null. */
  lemma ServiceKnownExactly(s: State, e: Event)
    requires Safe(s) && ServiceKnown(s.sing)
    ensures ServiceKnown(Step(s, e).sing) <==>
      !(e.SingboxStart? && e.isNull && !e.configEmpty && !e.dirEmpty && !s.sing.running &&
        Ready(Loaded(s.sing.core, e.lookup)) && SingBox.StartError(false, e.outcome).None?)
  {
    if e.SingboxStart? {
      ServiceKnownStart(s.sing, e);
      hide SingBox.StartError, Loaded, Ready, SingStarted, Safe;
    } else if e.SingboxStop? {
      hide Step, Safe;
      StopOnce(s, e);
    } else {
      OthersLeaveSing(s, e);
    }
  }

  lemma ServiceKnownStart(g: Sing, e: Event)
    requires ServiceKnown(g) && e.SingboxStart?
    ensures ServiceKnown(SingStarted(g, e)) <==>
      !(e.isNull && !e.configEmpty && !e.dirEmpty && !g.running &&
        Ready(Loaded(g.core, e.lookup)) && SingBox.StartError(false, e.outcome).None?)
  {
    SingBox.RepliesTellTheOutcome(g.service, e.outcome, None);
    hide SingBox.Succeeded, SingBox.StartReply, SingBox.StartError, Loaded, Ready;
  }

  lemma OthersLeaveSing(s: State, e: Event)
    requires !e.SingboxStart? && !e.SingboxStop?
    ensures Step(s, e).sing == s.sing
  {
    hide Loaded, Ready, XrayStarted, HevStarted, GvisorStarted, PlaneStopped, Adapter.Step;
  }

  /**
   The answers of main.go are never null: `encode` returns a C string on every path. With such
   answers a live service is known to the flag after every run.
   */
  lemma {:induction false} ServiceKnownRun(s: State, events: seq<Event>)
    requires Safe(s) && ServiceKnown(s.sing)
    requires forall e | e in events && e.SingboxStart? :: !e.isNull
    ensures Safe(Run(s, events)) && ServiceKnown(Run(s, events).sing)
    decreases |events|
  {
    if events != [] {
      assert events[0] in events && forall e | e in events[1..] :: e in events;
      StepKeeps(s, events[0]);
      ServiceKnownExactly(s, events[0]);
      hide Step, Safe;
      ServiceKnownRun(Step(s, events[0]), events[1..]);
    }
  }

  /** One stop: the service is gone whatever Close says; the flag follows exactly if the answer was a success. */
  lemma StopOnce(s: State, e: Event)
    requires Safe(s) && ServiceKnown(s.sing) && e.SingboxStop?
    ensures !Step(s, e).sing.service
    ensures Step(s, e).sing.running <==> s.sing.running && (e.isNull || (s.sing.service && e.close.Some?))
  {
    LoadStep(s.sing.core, e.lookup);
    SingBox.RepliesTellTheOutcome(s.sing.service, SingBox.Outcome(None, None, None, None), e.close);
    hide Loaded, Resolved, SingBox.Succeeded, SingBox.StopReply;
  }

  /** Two stops clear service and flag exactly if the first did or the second was answered. */
  lemma TwoStopsClear(s: State, first: Event, second: Event)
    requires Safe(s) && ServiceKnown(s.sing) && first.SingboxStop? && second.SingboxStop?
    ensures var t := Step(Step(s, first), second);
      && !t.sing.service
      && (!t.sing.running <==> !Step(s, first).sing.running || !second.isNull)
  {
    StepKeeps(s, first);
    StopOnce(s, first);
    hide Step, Safe;
    StopOnce(Step(s, first), second);
  }

  /**
   Of the native code alone, should a library ever answer null: a service lost that way outlives every
   stop, and the next answered start finds it again. main.go never answers null.
   */
  lemma LostService(s: State, stop: Event, start: Event)
    requires Safe(s) && s.sing.service && !s.sing.running
    requires stop.SingboxStop?
    requires start.SingboxStart? && !start.isNull && !start.configEmpty && !start.dirEmpty && start.outcome.decode.None?
    ensures Step(s, stop).sing == s.sing
    ensures Step(s, start).sing.running <==> Ready(Loaded(s.sing.core, start.lookup))
    ensures Step(s, start).sing.service
  {
    SingBox.RepliesTellTheOutcome(true, start.outcome, None);
    hide Loaded, Ready, SingBox.Succeeded, SingBox.StartReply, SingBox.StopReply;
  }

  const CLEAN: SingBox.Outcome := SingBox.Outcome(None, None, None, None)

  lemma NullStart(g: Sing, start: Event)
    requires g == Sing(UNLOADED, false, false) && start == SingboxStart(false, false, FOUND, CLEAN, true)
    ensures SingStarted(g, start) == Sing(FOUND_IMAGE, false, true)
  {
    FoundLoads(FOUND);
    hide Loaded, Ready, SingBox.Succeeded, SingBox.StartReply;
  }

  /** One null answer from the initial state reaches such a lost service. */
  lemma NullAnswerLosesService(initial: State, start: Event, s: State)
    requires initial == INITIAL && start == SingboxStart(false, false, FOUND, CLEAN, true)
    requires s == Step(initial, start)
    ensures Safe(s) && s.sing.service && !s.sing.running
  {
    hide Safe, SingStarted;
    InitiallySafe();
    StepKeeps(initial, start);
    NullStart(initial.sing, start);
  }
}
