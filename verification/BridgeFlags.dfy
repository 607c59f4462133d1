/**
 When the three flags of the bridge and Go's service are up, over every run: which calls raise and lower them is written out
 in the arguments, the pointers and the answers, apart from `Step` and the functions it calls.
 */
module BridgeFlags {
  import opened JsText
  import opened Loader
  import opened Bridge
  import opened BridgeSafety
  import BridgeLifecycle
  import Adapter
  import SingBox

  datatype Flag = XrayRunning | TunRunning | SingboxRunning | ServiceLive

  predicate Up(f: Flag, s: State) {
    match f
    case XrayRunning => s.xray.running
    case TunRunning => s.plane.running
    case SingboxRunning => s.sing.running
    case ServiceLive => s.sing.service
  }

  /** Some symbols are required and none of them is null. */
  predicate Complete(symbols: seq<nat>) { |symbols| > 0 && 0 !in symbols }

  /** The library is loaded already, or dlopen returns it for either name and dlsym every symbol. */
  predicate Usable(m: Image, k: Lookup) {
    || (m.handle != 0 && Complete(m.symbols))
    || ((k.execPath != 0 || k.plainName != 0) && Complete(k.symbols))
  }

  /** A start that was given what it needs and was answered with success. */
  predicate Raises(f: Flag, s: State, e: Event) {
    match f
    case XrayRunning =>
      e.StartXray? && !e.configEmpty && !e.dirEmpty && Usable(s.xray.core, e.lookup) && e.answer
    case TunRunning =>
      || (e.StartTun2Socks? && e.fd >= 0 && !e.hostEmpty && 1 <= e.port <= 65535 && 576 <= e.mtu <= 1500
          && Usable(s.plane.tun2socks, e.lookup) && e.inheritable)
      || (e.StartHevTun? && e.fd >= 0 && !e.configEmpty && Usable(s.plane.hev, e.lookup) && e.inheritable)
    case SingboxRunning =>
      && e.SingboxStart? && !e.configEmpty && !e.dirEmpty && Usable(s.sing.core, e.lookup) && !e.isNull
      && e.outcome.decode.None?
      && (s.sing.service || (e.outcome.setup.None? && e.outcome.create.None? && e.outcome.start.None?))
    case ServiceLive =>
      && e.SingboxStart? && !e.configEmpty && !e.dirEmpty && !s.sing.running && Usable(s.sing.core, e.lookup)
      && e.outcome == SingBox.Outcome(None, None, None, None)
  }

  /** A stop that was answered with success; the tunnel's flag also falls when the core was not running, the service with any stop of a running core. */
  predicate Lowers(f: Flag, s: State, e: Event) {
    match f
    case XrayRunning => e.StopXray? && e.answer
    case TunRunning =>
      || e.StopTun2Socks?
      || (e.StopXray? && (!s.xray.running || e.answer))
      || (e.SingboxStop? && (!s.sing.running || (!e.isNull && (!s.sing.service || e.close.None?))))
    case SingboxRunning => e.SingboxStop? && !e.isNull && (!s.sing.service || e.close.None?)
    case ServiceLive => e.SingboxStop? && s.sing.running
  }

  lemma UsableIsReady(m: Image, k: Lookup)
    ensures Ready(Loaded(m, k)) <==> Usable(m, k)
  {
    assert forall t: seq<nat> :: Resolved(t) <==> Complete(t);
    hide Resolved, Complete;
  }

  lemma XrayStep(s: State, e: Event)
    requires Safe(s)
    ensures Up(XrayRunning, Step(s, e)) <==>
            Raises(XrayRunning, s, e) || (Up(XrayRunning, s) && !Lowers(XrayRunning, s, e))
  {
    if e.StartXray? || e.StopXray? {
      UsableIsReady(s.xray.core, e.lookup);
      LoadStep(s.xray.core, e.lookup);
    }
    hide Loaded, Ready, Resolved, Usable, Adapter.Step, GvisorStarted, HevStarted, PlaneStopped, SingStarted,
      SingBox.Succeeded, SingBox.StopReply;
  }

  lemma SingStartStep(g: Sing, e: Event)
    requires SingSafe(g) && e.SingboxStart?
    ensures SingStarted(g, e).running <==>
      g.running ||
      (&& !e.configEmpty && !e.dirEmpty && Usable(g.core, e.lookup) && !e.isNull
       && e.outcome.decode.None?
       && (g.service || (e.outcome.setup.None? && e.outcome.create.None? && e.outcome.start.None?)))
  {
    hide Loaded, Ready, Usable, SingBox.Succeeded, SingBox.StartReply, SingBox.StopReply, SingBox.StartError;
    UsableIsReady(g.core, e.lookup);
    SingBox.RepliesTellTheOutcome(g.service, e.outcome, None);
    NoError(g.service, e.outcome);
    LoadStep(g.core, e.lookup);
  }

  lemma NoError(service: bool, o: SingBox.Outcome)
    ensures SingBox.StartError(service, o).None? <==>
            o.decode.None? && (service || (o.setup.None? && o.create.None? && o.start.None?))
  {
  }

  lemma SingStopStep(s: State, e: Event)
    requires Safe(s) && e.SingboxStop?
    ensures SingStopped(s, e).sing.running <==>
            s.sing.running && !(!e.isNull && (!s.sing.service || e.close.None?))
    ensures SingStopped(s, e).plane.running <==>
            s.plane.running && !(!s.sing.running || (!e.isNull && (!s.sing.service || e.close.None?)))
  {
    LoadStep(s.sing.core, e.lookup);
    SingBox.RepliesTellTheOutcome(s.sing.service, SingBox.Outcome(None, None, None, None), e.close);
    hide Loaded, Resolved, SingBox.Succeeded, SingBox.StopReply, SingBox.StartReply, XraySafe, PlaneSafe;
  }

  lemma SingStep(s: State, e: Event)
    requires Safe(s)
    ensures Up(SingboxRunning, Step(s, e)) <==>
            Raises(SingboxRunning, s, e) || (Up(SingboxRunning, s) && !Lowers(SingboxRunning, s, e))
  {
    hide Usable, SingStarted, SingStopped, Safe;
    if e.SingboxStart? {
      SafeSing(s);
      SingStartStep(s.sing, e);
    } else if e.SingboxStop? {
      SingStopStep(s, e);
    } else {
      BridgeLifecycle.OthersLeaveSing(s, e);
      hide Step;
    }
  }

  lemma ServiceStartStep(g: Sing, e: Event)
    requires e.SingboxStart?
    ensures SingStarted(g, e).service <==>
      g.service ||
      (&& !e.configEmpty && !e.dirEmpty && !g.running && Usable(g.core, e.lookup)
       && e.outcome == SingBox.Outcome(None, None, None, None))
  {
    hide Loaded, Ready, Usable, SingBox.Succeeded, SingBox.StartReply;
    UsableIsReady(g.core, e.lookup);
  }

  lemma ServiceStopStep(s: State, e: Event)
    requires Safe(s) && e.SingboxStop?
    ensures SingStopped(s, e).sing.service <==> s.sing.service && !s.sing.running
  {
    LoadStep(s.sing.core, e.lookup);
    hide Loaded, Resolved, SingBox.Succeeded, SingBox.StopReply, XraySafe, PlaneSafe;
  }

  lemma ServiceStep(s: State, e: Event)
    requires Safe(s)
    ensures Up(ServiceLive, Step(s, e)) <==>
            Raises(ServiceLive, s, e) || (Up(ServiceLive, s) && !Lowers(ServiceLive, s, e))
  {
    hide Usable, SingStarted, SingStopped, Safe;
    if e.SingboxStart? {
      ServiceStartStep(s.sing, e);
    } else if e.SingboxStop? {
      ServiceStopStep(s, e);
    } else {
      BridgeLifecycle.OthersLeaveSing(s, e);
      hide Step;
    }
  }

  lemma SafeSing(s: State)
    requires Safe(s)
    ensures SingSafe(s.sing) && PlaneSafe(s.plane) && XraySafe(s.xray)
  {
  }

  lemma GvisorStep(p: Plane, e: Event)
    requires e.StartTun2Socks?
    ensures GvisorStarted(p, e).running <==>
      p.running || (e.fd >= 0 && !e.hostEmpty && 1 <= e.port <= 65535 && 576 <= e.mtu <= 1500
                    && Usable(p.tun2socks, e.lookup) && e.inheritable)
  {
    UsableIsReady(p.tun2socks, e.lookup);
    hide Loaded, Ready, Usable, Adapter.AtomicStart;
  }

  lemma HevStep(p: Plane, e: Event)
    requires e.StartHevTun?
    ensures HevStarted(p, e).running <==>
      p.running || (e.fd >= 0 && !e.configEmpty && Usable(p.hev, e.lookup) && e.inheritable)
  {
    UsableIsReady(p.hev, e.lookup);
    hide Loaded, Ready, Usable;
  }

  lemma XrayStopStep(s: State, e: Event)
    requires Safe(s) && e.StopXray?
    ensures XrayStopped(s, e).plane.running <==> s.plane.running && !(!s.xray.running || e.answer)
  {
    LoadStep(s.xray.core, e.lookup);
    hide Loaded, Resolved, PlaneSafe, SingSafe;
  }

  lemma TunStep(s: State, e: Event)
    requires Safe(s)
    ensures Up(TunRunning, Step(s, e)) <==>
            Raises(TunRunning, s, e) || (Up(TunRunning, s) && !Lowers(TunRunning, s, e))
  {
    hide Usable, GvisorStarted, HevStarted, XrayStopped, SingStopped, Safe, Adapter.Step, Loaded, XrayStarted, SingStarted;
    match e
    case StartTun2Socks(_, _, _, _, _, _) => GvisorStep(s.plane, e);
    case StartHevTun(_, _, _, _) => HevStep(s.plane, e);
    case StopXray(_, _) => XrayStopStep(s, e);
    case SingboxStop(_, _, _) => SingStopStep(s, e);
    case _ =>
  }

  /** One call leaves a flag up exactly if it raises it, or if the flag was up and the call does not lower it. */
  lemma FlagStep(f: Flag, s: State, e: Event)
    requires Safe(s)
    ensures Up(f, Step(s, e)) <==> Raises(f, s, e) || (Up(f, s) && !Lowers(f, s, e))
  {
    hide Step, Safe, Up, Raises, Lowers;
    match f
    case XrayRunning => XrayStep(s, e);
    case TunRunning => TunStep(s, e);
    case SingboxRunning => SingStep(s, e);
    case ServiceLive => ServiceStep(s, e);
  }

  // ---- The engine choice

  lemma EngineOfStart(p: Plane, e: Event)
    requires e.StartTun2Socks? || e.StartHevTun?
    ensures var after := if e.StartTun2Socks? then GvisorStarted(p, e) else HevStarted(p, e);
      after.engine == if !p.running && after.running then (if e.StartTun2Socks? then Gvisor else Hev) else p.engine
  {
    hide Loaded, Ready, Adapter.AtomicStart;
  }

  /** A start that takes effect chooses its own engine, a stop of a running plane none, and no other call chooses. */
  lemma EngineExactly(s: State, e: Event)
    ensures var before, after := s.plane, Step(s, e).plane;
      after.engine ==
        if !before.running && after.running then (if e.StartHevTun? then Hev else Gvisor)
        else if before.running && e.StopTun2Socks? then NoEngine
        else before.engine
  {
    if e.StartTun2Socks? || e.StartHevTun? {
      EngineOfStart(s.plane, e);
      hide GvisorStarted, HevStarted;
    } else if e.StopTun2Socks? {
      EngineOfStop(s.plane, e);
      hide PlaneStopped;
    } else {
      EngineOfOthers(s, e);
      hide Step;
    }
  }

  lemma EngineOfStop(p: Plane, e: Event)
    requires e.StopTun2Socks?
    ensures PlaneStopped(p, e).engine == if p.running then NoEngine else p.engine
    ensures !PlaneStopped(p, e).running
  {
    hide Loaded, Ready, Adapter.Step;
  }

  lemma EngineOfOthers(s: State, e: Event)
    requires !e.StartTun2Socks? && !e.StartHevTun? && !e.StopTun2Socks?
    ensures Step(s, e).plane.engine == s.plane.engine
    ensures Step(s, e).plane.running ==> s.plane.running
  {
    hide Loaded, Ready, XrayStarted, SingStarted, Adapter.Step, SingBox.Succeeded, SingBox.StopReply;
  }

  // ---- Over every run

  predicate RaisedAt(f: Flag, s: State, events: seq<Event>, i: nat)
    requires i < |events|
  {
    Raises(f, Run(s, events[..i]), events[i])
  }

  predicate LoweredAt(f: Flag, s: State, events: seq<Event>, i: nat)
    requires i < |events|
  {
    Lowers(f, Run(s, events[..i]), events[i])
  }

  predicate NeverLowered(f: Flag, s: State, events: seq<Event>, from: nat) {
    forall j | from <= j < |events| :: !LoweredAt(f, s, events, j)
  }

  lemma {:induction false} RunSnoc(s: State, events: seq<Event>, e: Event)
    ensures Run(s, events + [e]) == Step(Run(s, events), e)
    decreases |events|
  {
    hide Step;
    if events == [] {
      assert [] + [e] == [e] && [e][1..] == [];
      assert Run(Step(s, e), []) == Step(s, e);
    } else {
      assert (events + [e])[1..] == events[1..] + [e];
      RunSnoc(Step(s, events[0]), events[1..], e);
    }
  }

  lemma SameBefore(f: Flag, s: State, events: seq<Event>, e: Event, i: nat)
    requires i < |events|
    ensures RaisedAt(f, s, events + [e], i) <==> RaisedAt(f, s, events, i)
    ensures LoweredAt(f, s, events + [e], i) <==> LoweredAt(f, s, events, i)
  {
    hide Run, Raises, Lowers;
    assert (events + [e])[..i] == events[..i];
  }

  /** Some call raised the flag and no later call lowered it, or it was up at the beginning and none did. */
  predicate HeldUp(f: Flag, s: State, events: seq<Event>) {
    || (Up(f, s) && NeverLowered(f, s, events, 0))
    || exists i :: 0 <= i < |events| && RaisedAt(f, s, events, i) && NeverLowered(f, s, events, i + 1)
  }

  lemma {:induction false} FlagExactly(f: Flag, s: State, events: seq<Event>)
    requires Safe(s)
    ensures Up(f, Run(s, events)) <==> HeldUp(f, s, events)
    decreases |events|
  {
    if events != [] {
      hide Run, Raises, Lowers, Up, Safe, RaisedAt, LoweredAt;
      var n := |events| - 1;
      var before, e := events[..n], events[n];
      assert events == before + [e];
      FlagExactly(f, s, before);
      RunSafe(s, before);
      RunSnoc(s, before, e);
      FlagStep(f, Run(s, before), e);
      LastCall(f, s, before, e);
    } else {
      hide Raises, Lowers, Up, Safe;
    }
  }

  lemma LastCall(f: Flag, s: State, before: seq<Event>, e: Event)
    ensures HeldUp(f, s, before + [e]) <==>
            Raises(f, Run(s, before), e) || (HeldUp(f, s, before) && !Lowers(f, Run(s, before), e))
  {
    var events, n := before + [e], |before|;
    assert RaisedAt(f, s, events, n) == Raises(f, Run(s, before), e)
        && LoweredAt(f, s, events, n) == Lowers(f, Run(s, before), e) by {
      hide Run, Raises, Lowers;
      assert events[..n] == before;
    }
    hide Run, Raises, Lowers, Up, RaisedAt, LoweredAt;
    forall i | 0 <= i < n
      ensures RaisedAt(f, s, events, i) <==> RaisedAt(f, s, before, i)
      ensures LoweredAt(f, s, events, i) <==> LoweredAt(f, s, before, i)
    {
      SameBefore(f, s, before, e, i);
    }
    forall from | 0 <= from <= n
      ensures NeverLowered(f, s, events, from) <==> NeverLowered(f, s, before, from) && !LoweredAt(f, s, events, n)
    {
    }
    assert NeverLowered(f, s, events, n + 1);
    if HeldUp(f, s, before) && !LoweredAt(f, s, events, n) && !(Up(f, s) && NeverLowered(f, s, before, 0)) {
      var i :| 0 <= i < n && RaisedAt(f, s, before, i) && NeverLowered(f, s, before, i + 1);
      assert RaisedAt(f, s, events, i) && NeverLowered(f, s, events, i + 1);
    }
  }
}
