/** What holds of the bridge after every run of calls, and what every call keeps. */
module BridgeSafety {
  import opened JsText
  import opened Loader
  import opened Bridge
  import Adapter
  import SingBox

  // ---- The invariant

  predicate XraySafe(x: Xray) {
    && Sound(x.core)
    && x.writes == Adapter.Bit(x.assetSet)
    && (x.running ==> x.core.handle != 0)
  }

  predicate ThreadSafe(p: Plane) {
    && p.live <= {p.thread} && 0 !in p.live
    && p.thread <= p.threads
    && !p.overwritten
    && (p.thread != 0 ==> p.hev.handle != 0)
  }

  predicate PlaneSafe(p: Plane) {
    && Sound(p.tun2socks) && Sound(p.hev)
    && (p.running ==> p.engine != NoEngine)
    && (p.engine.Gvisor? ==> p.tun2socks.handle != 0)
    && ThreadSafe(p)
    && p.adapter.starter.Outside? && Adapter.Balanced(p.adapter)
  }

  predicate SingSafe(g: Sing) {
    && Sound(g.core)
    && (g.running ==> g.core.handle != 0)
  }

  predicate Safe(s: State) { XraySafe(s.xray) && PlaneSafe(s.plane) && SingSafe(s.sing) }

  // ---- Every step keeps it

  lemma XrayStartKeeps(x: Xray, e: Event)
    requires XraySafe(x) && e.StartXray?
    ensures XraySafe(XrayStarted(x, e))
    ensures x.core.handle != 0 ==> XrayStarted(x, e).core == x.core && XrayStarted(x, e).writes == x.writes
  {
    LoadStep(x.core, e.lookup);
    hide Loaded, Resolved;
  }

  lemma XrayStopKeeps(s: State, e: Event)
    requires Safe(s) && e.StopXray?
    ensures Safe(XrayStopped(s, e))
    ensures s.xray.core.handle != 0 ==> XrayStopped(s, e).xray.core == s.xray.core
    ensures XrayStopped(s, e).xray.writes == s.xray.writes
  {
    LoadStep(s.xray.core, e.lookup);
    hide Loaded, Resolved;
  }

  lemma GvisorStartKeeps(p: Plane, e: Event)
    requires PlaneSafe(p) && e.StartTun2Socks?
    ensures PlaneSafe(GvisorStarted(p, e))
  {
    LoadStep(p.tun2socks, e.lookup);
    Adapter.AtomicStartBalanced(p.adapter, true);
    hide Loaded, Resolved, Adapter.Balanced, Adapter.AtomicStart;
    assert Adapter.AtomicStart(p.adapter, true).starter.Outside? by { StartLeavesStarter(p.adapter); }
  }

  lemma StartLeavesStarter(a: Adapter.State)
    ensures Adapter.AtomicStart(a, true).starter == a.starter
  {
  }

  lemma HevStartKeeps(p: Plane, e: Event)
    requires PlaneSafe(p) && e.StartHevTun?
    ensures PlaneSafe(HevStarted(p, e))
  {
    LoadStep(p.hev, e.lookup);
    hide Loaded, Resolved, Adapter.Balanced;
  }

  lemma PlaneStopKeeps(p: Plane, e: Event)
    requires PlaneSafe(p) && e.StopTun2Socks?
    ensures PlaneSafe(PlaneStopped(p, e))
  {
    LoadStep(p.tun2socks, e.lookup);
    Adapter.StepBalanced(p.adapter, Adapter.Detach);
    hide Loaded, Resolved, Adapter.Balanced;
  }

  lemma SingStartKeeps(g: Sing, e: Event)
    requires SingSafe(g) && e.SingboxStart?
    ensures SingSafe(SingStarted(g, e))
  {
    LoadStep(g.core, e.lookup);
    hide Loaded, Resolved, SingBox.Succeeded, SingBox.StartReply, SingBox.StartError;
  }

  lemma SingStopKeeps(s: State, e: Event)
    requires Safe(s) && e.SingboxStop?
    ensures Safe(SingStopped(s, e))
  {
    LoadStep(s.sing.core, e.lookup);
    hide Loaded, Resolved, SingBox.Succeeded, SingBox.StopReply, Adapter.Balanced;
  }

  lemma OtherKeeps(s: State, e: Event)
    requires Safe(s) && (e.XrayCall? || e.DetachedSwap? || e.DetachedStop? || e.HevReturns?)
    ensures Safe(Step(s, e))
  {
    if e.XrayCall? {
      LoadStep(s.xray.core, e.lookup);
    } else if e.DetachedSwap? {
      Adapter.StepBalanced(s.plane.adapter, Adapter.Swap);
    } else if e.DetachedStop? {
      Adapter.StepBalanced(s.plane.adapter, Adapter.EngineStop);
    }
    hide Loaded, Resolved, Adapter.Balanced;
  }

  lemma StepKeeps(s: State, e: Event)
    requires Safe(s)
    ensures Safe(Step(s, e))
  {
    hide XraySafe, PlaneSafe, SingSafe, XrayStarted, XrayStopped, GvisorStarted, HevStarted, PlaneStopped,
      SingStarted, SingStopped;
    match e
    case StartXray(_, _, _, _) => XrayStartKeeps(s.xray, e);
    case StopXray(_, _) => XrayStopKeeps(s, e);
    case StartTun2Socks(_, _, _, _, _, _) => GvisorStartKeeps(s.plane, e);
    case StartHevTun(_, _, _, _) => HevStartKeeps(s.plane, e);
    case StopTun2Socks(_) => PlaneStopKeeps(s.plane, e);
    case SingboxStart(_, _, _, _, _) => SingStartKeeps(s.sing, e);
    case SingboxStop(_, _, _) => SingStopKeeps(s, e);
    case _ => OtherKeeps(s, e);
  }

  lemma {:induction false} RunSafe(s: State, events: seq<Event>)
    requires Safe(s)
    ensures Safe(Run(s, events))
    decreases |events|
  {
    if events != [] {
      StepKeeps(s, events[0]);
      hide Step, Safe;
      RunSafe(Step(s, events[0]), events[1..]);
    }
  }

  ghost predicate Reachable(s: State) { exists events :: s == Run(INITIAL, events) }

  lemma InitiallySafe()
    ensures Safe(INITIAL)
  {
  }

  lemma ReachableSafe(s: State)
    requires Reachable(s)
    ensures Safe(s)
  {
    InitiallySafe();
    hide Safe, Run;
    var initial := INITIAL;
    var events :| s == Run(initial, events);
    RunSafe(initial, events);
  }

  // ---- Data plane

  /**
   After every run: the tunnel flag comes with a chosen engine, at most one hev thread is live and
   g_hevThread still holds it, and g_hevThread was never assigned to while joinable. With no engine stop
   under way, the gvisor engine is up exactly if its flag is and none was when it was last started.
   */
  lemma DataPlaneSafety(s: State)
    requires Reachable(s)
    ensures s.plane.running ==> s.plane.engine != NoEngine
    ensures |s.plane.live| <= 1 && (s.plane.live != {} ==> s.plane.live == {s.plane.thread} && s.plane.thread != 0)
    ensures !s.plane.overwritten
    ensures var a := s.plane.adapter;
      a.stopping == 0 ==> (Adapter.Up(a.engine) <==> a.engine.running && a.owed == 0)
  {
    ReachableSafe(s);
    hide Reachable, Loaded, Adapter.Starts, Adapter.Stops, Adapter.Up;
    LiveIsThread(s.plane);
  }

  /** After every run: a join in StopTun2Socks does not wait for a thread that was not told to quit. */
  lemma StopNeverWaits(s: State, e: Event)
    requires Reachable(s) && e.StopTun2Socks?
    ensures Step(s, e).plane.waited == s.plane.waited
  {
    ReachableSafe(s);
    hide Reachable, Loaded;
  }

  lemma LiveIsThread(p: Plane)
    requires ThreadSafe(p)
    ensures |p.live| == (if p.live == {} then 0 else 1)
    ensures p.live != {} ==> p.live == {p.thread} && p.thread != 0
  {
    if p.live != {} {
      var id :| id in p.live;
      assert p.live == {p.thread};
    }
  }

  /** hev threads inside their main, and engine starts not yet matched by an engine stop. */
  function Planes(p: Plane): int { |p.live| + Adapter.Starts(p.adapter.engine) - Adapter.Stops(p.adapter.engine) }

  predicate TakesEffect(before: Plane, after: Plane) { !before.running && after.running }

  /** A hev start that takes effect leaves a second plane exactly if some engine start was still unmatched. */
  lemma HevStartMakesTwo(p: Plane, e: Event)
    requires PlaneSafe(p) && e.StartHevTun? && TakesEffect(p, HevStarted(p, e))
    ensures Planes(HevStarted(p, e)) > 1 <==> Adapter.Starts(p.adapter.engine) > Adapter.Stops(p.adapter.engine)
    ensures HevStarted(p, e).waited <==> p.waited || p.live != {}
  {
    HevStartKeeps(p, e);
    hide Loaded, Ready, Resolved, Adapter.Starts, Adapter.Stops, Adapter.Balanced;
    LiveIsThread(p);
    LiveIsThread(HevStarted(p, e));
  }

  /**
   A gvisor start that takes effect does so exactly if hev is live or an engine stop is still under way.
   Its arguments passed the bridge's test, and so pass the adapter's; the adapter's flag is up, and the
   engine exactly if the flag was down before or the engine was up.
   */
  lemma GvisorStartMakesTwo(p: Plane, e: Event)
    requires PlaneSafe(p) && e.StartTun2Socks? && TakesEffect(p, GvisorStarted(p, e))
    ensures Planes(GvisorStarted(p, e)) > 1 <==> p.live != {} || p.adapter.stopping > 0
    ensures GvisorStarted(p, e).adapter.engine.running
    ensures Adapter.ValidArguments(e.fd, e.hostEmpty, e.port, e.mtu)
    ensures Adapter.Up(GvisorStarted(p, e).adapter.engine) <==> !p.adapter.engine.running || Adapter.Up(p.adapter.engine)
  {
    Adapter.CountSnoc(p.adapter.engine.calls, Adapter.StartCall);
    hide Loaded, Ready, Resolved, Adapter.Count;
    LiveIsThread(p);
  }

  // ---- Whether a start lasts

  /** Calls and threads that neither start the gvisor engine nor detach a stop for it. */
  predicate Quiet(e: Event) { !e.StartTun2Socks? && !e.StopTun2Socks? }

  predicate QuietRun(events: seq<Event>) { forall e | e in events :: Quiet(e) }

  lemma QuietStep(s: State, e: Event)
    requires Quiet(e)
    ensures Step(s, e).plane.adapter ==
            if e.DetachedSwap? then Adapter.Step(s.plane.adapter, Adapter.Swap)
            else if e.DetachedStop? then Adapter.Step(s.plane.adapter, Adapter.EngineStop)
            else s.plane.adapter
  {
    hide Loaded, Ready, XrayStarted, SingStarted, SingBox.Succeeded, SingBox.StopReply, Adapter.Step;
  }

  /** What the detached stops do during a run. */
  function StopSteps(events: seq<Event>): seq<Adapter.Event>
    decreases |events|
  {
    if events == [] then []
    else
      (if events[0].DetachedSwap? then [Adapter.Swap] else if events[0].DetachedStop? then [Adapter.EngineStop] else [])
      + StopSteps(events[1..])
  }

  lemma AdapterCons(a: Adapter.State, first: Adapter.Event, rest: seq<Adapter.Event>)
    ensures Adapter.Run(a, [first] + rest) == Adapter.Run(Adapter.Step(a, first), rest)
  {
    assert ([first] + rest)[1..] == rest;
    hide Adapter.Step;
  }

  /** In a quiet run only they reach the adapter. */
  lemma {:induction false} QuietRunIs(s: State, events: seq<Event>)
    requires QuietRun(events)
    ensures Adapter.StopsOnly(StopSteps(events))
    ensures Run(s, events).plane.adapter == Adapter.Run(s.plane.adapter, StopSteps(events))
    decreases |events|
  {
    if events != [] {
      var e, rest := events[0], events[1..];
      assert e in events && forall x | x in rest :: x in events;
      QuietStep(s, e);
      AdapterCons(s.plane.adapter, Adapter.Swap, StopSteps(rest));
      AdapterCons(s.plane.adapter, Adapter.EngineStop, StopSteps(rest));
      assert [] + StopSteps(rest) == StopSteps(rest);
      hide Step, Quiet, Adapter.Step;
      QuietRunIs(Step(s, e), rest);
    }
  }

  /**
   A gvisor start that took effect, followed by any calls but StartTun2Socks and StopTun2Socks, and any thread
   steps. The adapter's flag is still up exactly if no stop was waiting at the start or none has reached its
   swap since. The engine is up exactly if the start made or found it so, no stop that had swapped before
   the start has reached its engine.Stop, and no waiting one has gone through both its steps. Once
   all of them have run, that is: exactly if there were none.
   */
  lemma GvisorStartSurvives(s: State, e: Event, events: seq<Event>)
    requires e.StartTun2Socks? && TakesEffect(s.plane, Step(s, e).plane) && QuietRun(events)
    ensures var a, t, steps := s.plane.adapter, Run(Step(s, e), events).plane.adapter, StopSteps(events);
      var made := !a.engine.running || Adapter.Up(a.engine);
      && (t.engine.running <==> a.waiting == 0 || Adapter.Swap !in steps)
      && (Adapter.Up(t.engine) <==>
            made && (a.stopping == 0 || Adapter.EngineStop !in steps) && (a.waiting == 0 || !Adapter.SwapThenStop(steps)))
      && (t.waiting == 0 && t.stopping == 0 ==>
            (Adapter.Up(t.engine) <==> made && a.waiting == 0 && a.stopping == 0))
  {
    var started := Step(s, e).plane.adapter;
    StartIsAtomic(s, e);
    hide Step, Run, QuietRun, StopSteps, Adapter.Run, Adapter.Up, Adapter.AtomicStart;
    QuietRunIs(Step(s, e), events);
    Adapter.FlagSurvives(started, StopSteps(events));
    Adapter.SurvivesExactly(started, StopSteps(events));
    if Adapter.Run(started, StopSteps(events)).waiting == 0 && Adapter.Run(started, StopSteps(events)).stopping == 0 {
      Adapter.WhenStopsAreDone(started, StopSteps(events));
    }
  }

  lemma StartIsAtomic(s: State, e: Event)
    requires e.StartTun2Socks? && TakesEffect(s.plane, Step(s, e).plane)
    ensures var a, b := s.plane.adapter, Step(s, e).plane.adapter;
      && b.engine.running && b.waiting == a.waiting && b.stopping == a.stopping
      && (Adapter.Up(b.engine) <==> !a.engine.running || Adapter.Up(a.engine))
  {
    hide Loaded, Ready, Resolved;
  }

  ghost predicate SurvivesEverySchedule(s: State) {
    forall events | QuietRun(events) :: Adapter.Up(Run(s, events).plane.adapter.engine)
  }

  /**
   A start that took effect has an engine that no schedule takes down exactly if no detached stop was waiting or
   past its swap when it was made, and it started the engine or found it up.
   */
  lemma SafeFromEverySchedule(s: State, e: Event)
    requires e.StartTun2Socks? && TakesEffect(s.plane, Step(s, e).plane)
    ensures var a := s.plane.adapter;
      SurvivesEverySchedule(Step(s, e)) <==>
        a.waiting == 0 && a.stopping == 0 && (!a.engine.running || Adapter.Up(a.engine))
  {
    var both := [DetachedSwap, DetachedStop];
    BothSteps(both);
    hide Step, Run, TakesEffect, StopSteps, Adapter.Up, QuietRun;
    GvisorStartSurvives(s, e, both);
    if s.plane.adapter.waiting == 0 && s.plane.adapter.stopping == 0 {
      forall events | QuietRun(events)
        ensures Adapter.Up(Run(Step(s, e), events).plane.adapter.engine) <==>
          !s.plane.adapter.engine.running || Adapter.Up(s.plane.adapter.engine)
      {
        GvisorStartSurvives(s, e, events);
      }
    }
  }

  lemma BothSteps(both: seq<Event>)
    requires both == [DetachedSwap, DetachedStop]
    ensures QuietRun(both) && Adapter.EngineStop in StopSteps(both) && Adapter.SwapThenStop(StopSteps(both))
  {
    assert both[1..] == [DetachedStop] && both[1..][1..] == [];
    assert StopSteps(both[1..]) == [Adapter.EngineStop];
    assert StopSteps(both) == [Adapter.Swap, Adapter.EngineStop];
    assert [Adapter.Swap, Adapter.EngineStop][1..] == [Adapter.EngineStop];
  }

  // ---- Stopping a core

  /**
   StopXray clears the tunnel flag without stopping the plane: followed by StopTun2Socks, a hev plane is
   ended, and a gvisor plane gets its detached stop, exactly if StopXray failed.
   */
  lemma StopXrayKeepsThePlane(s: State, x: Event, e: Event)
    requires Safe(s) && s.plane.running
    requires x.StopXray? && e.StopTun2Socks?
    ensures var t, failed := Step(Step(s, x), e), s.xray.running && !(Ready(Loaded(s.xray.core, x.lookup)) && x.answer);
      && (s.plane.engine.Hev? && s.plane.live != {} ==> (t.plane.live == {} <==> failed))
      && (s.plane.engine.Gvisor? ==> t.plane.adapter.waiting == s.plane.adapter.waiting + (if failed then 1 else 0))
  {
    LoadStep(s.plane.tun2socks, e.lookup);
    hide Loaded, Resolved;
    LiveIsThread(s.plane);
  }

  /** So does SingboxStop, which fails exactly on a null answer or a Close error of a live service. */
  lemma SingboxStopKeepsThePlane(s: State, x: Event, e: Event)
    requires Safe(s) && s.plane.running
    requires x.SingboxStop? && e.StopTun2Socks?
    ensures var t, failed := Step(Step(s, x), e), s.sing.running && (x.isNull || (s.sing.service && x.close.Some?));
      && (failed <==> Step(s, x).sing.running)
      && (s.plane.engine.Hev? && s.plane.live != {} ==> (t.plane.live == {} <==> failed))
      && (s.plane.engine.Gvisor? ==> t.plane.adapter.waiting == s.plane.adapter.waiting + (if failed then 1 else 0))
  {
    SingboxStopEffect(s, x);
    hide SingStopped;
    StopAfter(s, Step(s, x), e);
  }

  lemma SingboxStopEffect(s: State, x: Event)
    requires Safe(s) && x.SingboxStop?
    ensures var t, failed := Step(s, x), s.sing.running && (x.isNull || (s.sing.service && x.close.Some?));
      (failed <==> t.sing.running) && t.plane == (if failed then s.plane else s.plane.(running := false))
  {
    LoadStep(s.sing.core, x.lookup);
    SingBox.RepliesTellTheOutcome(s.sing.service, SingBox.Outcome(None, None, None, None), x.close);
    hide Loaded, Resolved, SingBox.Succeeded, SingBox.StopReply, PlaneSafe, XraySafe;
  }

  /** StopTun2Socks on the plane as it was, or with its flag cleared. */
  lemma StopAfter(s: State, t: State, e: Event)
    requires PlaneSafe(s.plane) && s.plane.running && e.StopTun2Socks?
    requires t.plane == s.plane || t.plane == s.plane.(running := false)
    ensures var after := Step(t, e).plane;
      && (s.plane.engine.Hev? && s.plane.live != {} ==> (after.live == {} <==> t.plane.running))
      && (s.plane.engine.Gvisor? ==> after.adapter.waiting == s.plane.adapter.waiting + (if t.plane.running then 1 else 0))
  {
    LoadStep(s.plane.tun2socks, e.lookup);
    hide Loaded, Resolved;
    LiveIsThread(s.plane);
  }

  /** Planes are stopped through StopTun2Socks only, and no start while a detached stop is unfinished. */
  predicate Orderly(s: State, e: Event) {
    match e
    case StopXray(_, _) => !s.plane.running
    case SingboxStop(_, _, _) => !s.plane.running
    case StartTun2Socks(_, _, _, _, _, _) => s.plane.adapter.waiting == 0 && s.plane.adapter.stopping == 0
    case StartHevTun(_, _, _, _) => s.plane.adapter.waiting == 0 && s.plane.adapter.stopping == 0
    case _ => true
  }

  predicate OrderlyRun(s: State, events: seq<Event>)
    decreases |events|
  {
    events == [] || (Orderly(s, events[0]) && OrderlyRun(Step(s, events[0]), events[1..]))
  }

  /** Whatever is up is what the flags say, or is on its way down. */
  predicate OnePlane(p: Plane) {
    var a := p.adapter;
    && !p.waited
    && (p.live != {} ==> p.running && p.engine.Hev?)
    && (p.running ==> a.waiting == 0 && a.stopping == 0 && (a.engine.running <==> p.engine.Gvisor?))
    && (p.running && p.engine.Gvisor? ==> Adapter.Up(a.engine))
    && (!p.running && a.engine.running ==> a.waiting == 1)
    && a.waiting + a.stopping <= 1
  }

  lemma OnePlaneHevStart(p: Plane, e: Event)
    requires PlaneSafe(p) && OnePlane(p) && e.StartHevTun? && p.adapter.waiting == 0 && p.adapter.stopping == 0
    ensures OnePlane(HevStarted(p, e))
  {
    hide Loaded, Ready, Resolved, Adapter.Balanced, Adapter.Up;
  }

  lemma OnePlaneGvisorStart(p: Plane, e: Event)
    requires PlaneSafe(p) && OnePlane(p) && e.StartTun2Socks? && p.adapter.waiting == 0 && p.adapter.stopping == 0
    ensures OnePlane(GvisorStarted(p, e))
  {
    hide Loaded, Ready, Resolved, Adapter.Balanced;
  }

  lemma OnePlaneStop(p: Plane, e: Event)
    requires PlaneSafe(p) && OnePlane(p) && e.StopTun2Socks?
    ensures OnePlane(PlaneStopped(p, e))
  {
    LoadStep(p.tun2socks, e.lookup);
    hide Loaded, Adapter.Balanced, Adapter.Up;
  }

  lemma OnePlaneDetached(p: Plane, a: Adapter.Event)
    requires PlaneSafe(p) && OnePlane(p) && (a.Swap? || a.EngineStop?)
    ensures OnePlane(p.(adapter := Adapter.Step(p.adapter, a)))
  {
  }

  lemma OnePlaneStep(s: State, e: Event)
    requires Safe(s) && OnePlane(s.plane) && Orderly(s, e)
    ensures OnePlane(Step(s, e).plane)
  {
    match e
    case StartTun2Socks(_, _, _, _, _, _) => OnePlaneGvisorStart(s.plane, e);
    case StartHevTun(_, _, _, _) => OnePlaneHevStart(s.plane, e);
    case StopTun2Socks(_) => OnePlaneStop(s.plane, e);
    case DetachedSwap => OnePlaneDetached(s.plane, Adapter.Swap);
    case DetachedStop => OnePlaneDetached(s.plane, Adapter.EngineStop);
    case _ =>
      hide Loaded, Ready, XrayStarted, SingStarted, PlaneSafe, Adapter.Step, SingBox.Succeeded;
  }

  lemma {:induction false} OrderlyRunOnePlane(s: State, events: seq<Event>)
    requires Safe(s) && OnePlane(s.plane) && OrderlyRun(s, events)
    ensures Safe(Run(s, events)) && OnePlane(Run(s, events).plane)
    decreases |events|
  {
    if events != [] {
      StepKeeps(s, events[0]);
      OnePlaneStep(s, events[0]);
      hide Step, Safe, OnePlane, Orderly;
      OrderlyRunOnePlane(Step(s, events[0]), events[1..]);
    }
  }

  /**
   In every orderly run at most one plane is ever up; a running gvisor plane really has its
   engine up, and no call ever waits for a hev thread that was not told to quit.
   */
  lemma AtMostOnePlane(initial: State, events: seq<Event>, p: Plane)
    requires initial == INITIAL && OrderlyRun(initial, events) && p == Run(initial, events).plane
    ensures Planes(p) <= 1
    ensures p.running && p.engine.Gvisor? ==> Planes(p) == 1 && Adapter.Up(p.adapter.engine)
    ensures p.live != {} ==> !Adapter.Up(p.adapter.engine)
    ensures !p.waited
  {
    hide Run, OrderlyRun, Safe, OnePlane, Planes, Adapter.Up;
    InitiallyOnePlane(initial);
    OrderlyRunOnePlane(initial, events);
    OnePlaneCounts(Run(initial, events), p);
  }

  lemma InitiallyOnePlane(initial: State)
    requires initial == INITIAL
    ensures Safe(initial) && OnePlane(initial.plane)
  {
  }

  lemma OnePlaneCounts(s: State, p: Plane)
    requires Safe(s) && OnePlane(s.plane) && p == s.plane
    ensures Planes(p) <= 1
    ensures p.running && p.engine.Gvisor? ==> Planes(p) == 1 && Adapter.Up(p.adapter.engine)
    ensures p.live != {} ==> !Adapter.Up(p.adapter.engine)
    ensures !p.waited
  {
    LiveIsThread(p);
  }

  // ---- Never two planes, exactly

  /** The tests a start has to pass before it takes effect. */
  predicate Passes(p: Plane, e: Event) {
    match e
    case StartHevTun(fd, configEmpty, lookup, inheritable) =>
      fd >= 0 && !configEmpty && !p.running && Ready(Loaded(p.hev, lookup)) && inheritable
    case StartTun2Socks(fd, hostEmpty, port, mtu, lookup, inheritable) =>
      && fd >= 0 && !hostEmpty && 0 < port <= 65535 && 576 <= mtu <= 1500
      && !p.running && Ready(Loaded(p.tun2socks, lookup)) && inheritable
    case _ => false
  }

  lemma PassesTakesEffect(p: Plane, e: Event)
    ensures e.StartHevTun? ==> (Passes(p, e) <==> TakesEffect(p, HevStarted(p, e)))
    ensures e.StartTun2Socks? ==> (Passes(p, e) <==> TakesEffect(p, GvisorStarted(p, e)))
  {
    hide Loaded, Ready;
  }

  /** A start that passes its tests finds no plane up, and a gvisor start no engine stop under way. */
  predicate Careful(p: Plane, e: Event) {
    Passes(p, e) ==>
      if e.StartHevTun? then Adapter.Starts(p.adapter.engine) == Adapter.Stops(p.adapter.engine)
      else p.live == {} && p.adapter.stopping == 0
  }

  predicate CarefulRun(s: State, events: seq<Event>)
    decreases |events|
  {
    events == [] || (Careful(s.plane, events[0]) && CarefulRun(Step(s, events[0]), events[1..]))
  }

  predicate NeverTwo(s: State, events: seq<Event>)
    decreases |events|
  {
    Planes(s.plane) <= 1 && (events == [] || NeverTwo(Step(s, events[0]), events[1..]))
  }

  lemma HevStartPlanes(p: Plane, e: Event)
    requires PlaneSafe(p) && Planes(p) <= 1 && e.StartHevTun?
    ensures Planes(HevStarted(p, e)) <= 1 <==> Careful(p, e)
  {
    PassesTakesEffect(p, e);
    if Passes(p, e) {
      HevStartMakesTwo(p, e);
      hide HevStarted, Planes, Passes, Adapter.Starts, Adapter.Stops;
    } else {
      hide Loaded, Ready;
    }
  }

  lemma GvisorStartPlanes(p: Plane, e: Event)
    requires PlaneSafe(p) && Planes(p) <= 1 && e.StartTun2Socks?
    ensures Planes(GvisorStarted(p, e)) <= 1 <==> Careful(p, e)
  {
    PassesTakesEffect(p, e);
    if Passes(p, e) {
      GvisorStartMakesTwo(p, e);
      hide GvisorStarted, Planes, Passes;
    } else {
      hide Loaded, Ready;
    }
  }

  lemma StopPlanes(p: Plane, e: Event)
    requires PlaneSafe(p) && e.StopTun2Socks?
    ensures Planes(PlaneStopped(p, e)) <= Planes(p)
  {
    PlaneStopKeeps(p, e);
    LiveIsThread(p);
    LiveIsThread(PlaneStopped(p, e));
    hide Loaded, Ready, Resolved;
  }

  lemma ThreadPlanes(s: State, e: Event)
    requires Safe(s) && (e.DetachedSwap? || e.DetachedStop? || e.HevReturns?)
    ensures Planes(Step(s, e).plane) <= Planes(s.plane)
  {
    StepKeeps(s, e);
    LiveIsThread(s.plane);
    LiveIsThread(Step(s, e).plane);
  }

  lemma CorePlanes(s: State, e: Event)
    requires e.StartXray? || e.StopXray? || e.XrayCall? || e.SingboxStart? || e.SingboxStop?
    ensures Planes(Step(s, e).plane) == Planes(s.plane)
  {
    hide Loaded, Ready, XrayStarted, SingStarted, SingBox.Succeeded, SingBox.StopReply;
  }

  lemma StepPlanes(s: State, e: Event)
    requires Safe(s) && Planes(s.plane) <= 1
    ensures Planes(Step(s, e).plane) <= 1 <==> Careful(s.plane, e)
  {
    hide Planes, XrayStarted, XrayStopped, SingStarted, SingStopped, HevStarted, GvisorStarted, PlaneStopped,
      Adapter.Step, PlaneSafe, XraySafe, SingSafe;
    if e.StartHevTun? {
      HevStartPlanes(s.plane, e);
    } else if e.StartTun2Socks? {
      GvisorStartPlanes(s.plane, e);
    } else if e.StopTun2Socks? {
      StopPlanes(s.plane, e);
    } else if e.DetachedSwap? || e.DetachedStop? || e.HevReturns? {
      ThreadPlanes(s, e);
    } else {
      CorePlanes(s, e);
    }
  }

  /** A run never has two planes up exactly if every start in it that takes effect is careful. */
  lemma {:induction false} NeverTwoExactly(s: State, events: seq<Event>)
    requires Safe(s) && Planes(s.plane) <= 1
    ensures NeverTwo(s, events) <==> CarefulRun(s, events)
    decreases |events|
  {
    if events != [] {
      var next := Step(s, events[0]);
      StepKeeps(s, events[0]);
      StepPlanes(s, events[0]);
      hide Step, Safe, Careful, Planes;
      if Careful(s.plane, events[0]) {
        NeverTwoExactly(next, events[1..]);
      }
    }
  }
}
