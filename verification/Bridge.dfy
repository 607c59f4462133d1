/**
 The globals of napi_init.cpp, the exported calls that change them, and the other side's part of
 the same state: the gvisor adapter, the hev threads and the sing-box service.

 `Step` says what each call does; the methods of the class are the calls, proved to do just that.
 Foreign results (dlopen, dlsym, fcntl, libXray's answers, sing-box errors) come with the event.
 */
module Bridge {
  import opened JsText
  import opened Loader
  import Adapter
  import SingBox

  datatype Engine = NoEngine | Gvisor | Hev

  /** `writes` and `lateWrites` count setenv, and setenv after dlopen had returned the library. */
  datatype Xray = Xray(core: Image, running: bool, assetSet: bool, writes: nat, lateWrites: nat)

  /**
   The data plane. `thread` is the number of the thread g_hevThread holds, 0 if it is not joinable;
   `threads` were created so far, `live` ones are inside hev. `waited`: some join was for a live
   thread nobody had told to quit. `overwritten`: a joinable g_hevThread was assigned to.
   */
  datatype Plane = Plane(running: bool, engine: Engine, tun2socks: Image, hev: Image,
                         thread: nat, threads: nat, live: set<nat>, waited: bool, overwritten: bool,
                         adapter: Adapter.State)

  datatype Sing = Sing(core: Image, running: bool, service: bool)

  datatype State = State(xray: Xray, plane: Plane, sing: Sing)

  /** `isNull`: what the native code tests for first; the answers of main.go are never null. */
  datatype Event =
    | StartXray(configEmpty: bool, dirEmpty: bool, lookup: Lookup, answer: bool)
    | StopXray(lookup: Lookup, answer: bool)
    | XrayCall(lookup: Lookup)
    | StartTun2Socks(fd: int, hostEmpty: bool, port: int, mtu: int, lookup: Lookup, inheritable: bool)
    | StartHevTun(fd: int, configEmpty: bool, lookup: Lookup, inheritable: bool)
    | StopTun2Socks(lookup: Lookup)
    | DetachedSwap
    | DetachedStop
    | HevReturns(id: nat)
    | SingboxStart(configEmpty: bool, dirEmpty: bool, lookup: Lookup, outcome: SingBox.Outcome, isNull: bool)
    | SingboxStop(lookup: Lookup, close: Option<SingBox.Bytes>, isNull: bool)

  const INITIAL: State := State(
    Xray(UNLOADED, false, false, 0, 0),
    Plane(false, NoEngine, UNLOADED, UNLOADED, 0, 0, {}, false, false, Adapter.INITIAL),
    Sing(UNLOADED, false, false))

  // ---- Xray

  function AssetPrepared(x: Xray): Xray {
    if x.assetSet || x.core.handle != 0 then x
    else x.(assetSet := true, writes := x.writes + 1, lateWrites := x.lateWrites + Adapter.Bit(x.core.wasOpened))
  }

  function XrayStarted(x: Xray, e: Event): Xray
    requires e.StartXray?
  {
    if e.configEmpty || x.running || e.dirEmpty then x
    else
      var core := Loaded(x.core, e.lookup);
      AssetPrepared(x).(core := core, running := Ready(core) && e.answer)
  }

  /** A stopped Xray only clears the tunnel flag; so does a stop that succeeds. */
  function XrayStopped(s: State, e: Event): State
    requires e.StopXray?
  {
    if !s.xray.running then s.(plane := s.plane.(running := false))
    else
      var core := Loaded(s.xray.core, e.lookup);
      if Ready(core) && e.answer then
        s.(xray := s.xray.(core := core, running := false), plane := s.plane.(running := false))
      else s.(xray := s.xray.(core := core))
  }

  // ---- Data plane

  predicate Tun2SocksArguments(e: Event)
    requires e.StartTun2Socks?
  {
    e.fd >= 0 && !e.hostEmpty && 0 < e.port <= 65535 && 576 <= e.mtu <= 1500
  }

  function GvisorStarted(p: Plane, e: Event): Plane
    requires e.StartTun2Socks?
  {
    if !Tun2SocksArguments(e) || p.running then p
    else
      var library := Loaded(p.tun2socks, e.lookup);
      if !Ready(library) || !e.inheritable then p.(tun2socks := library)
      else p.(tun2socks := library, running := true, engine := Gvisor, adapter := Adapter.AtomicStart(p.adapter, true))
  }

  /** `g_hevThread.join()` if joinable, after which the thread is not live. */
  function Joined(p: Plane, told: bool): Plane {
    if p.thread == 0 then p
    else p.(thread := 0, live := p.live - {p.thread}, waited := p.waited || (p.thread in p.live && !told))
  }

  /** `g_hevThread = std::thread(...)` */
  function Spawned(p: Plane): Plane {
    p.(overwritten := p.overwritten || p.thread != 0,
       thread := p.threads + 1, threads := p.threads + 1, live := p.live + {p.threads + 1})
  }

  function HevStarted(p: Plane, e: Event): Plane
    requires e.StartHevTun?
  {
    if e.fd < 0 || e.configEmpty || p.running then p
    else
      var library := Loaded(p.hev, e.lookup);
      if !Ready(library) || !e.inheritable then p.(hev := library)
      else Spawned(Joined(p.(hev := library), false)).(running := true, engine := Hev)
  }

  /** hev's quit is the last of its required symbols. */
  function QuitPointer(m: Image): nat { if m.symbols == [] then 0 else m.symbols[|m.symbols| - 1] }

  function PlaneStopped(p: Plane, e: Event): Plane
    requires e.StopTun2Socks?
  {
    if !p.running then p
    else
      var q := p.(running := false, engine := NoEngine);
      if p.engine.Hev? then Joined(q, QuitPointer(p.hev) != 0)
      else
        var library := Loaded(p.tun2socks, e.lookup);
        if !Ready(library) then q.(tun2socks := library)
        else q.(tun2socks := library, adapter := Adapter.Step(p.adapter, Adapter.Detach))
  }

  // ---- sing-box

  function SingStarted(g: Sing, e: Event): Sing
    requires e.SingboxStart?
  {
    if e.configEmpty || g.running || e.dirEmpty then g
    else
      var core := Loaded(g.core, e.lookup);
      if !Ready(core) then g.(core := core)
      else
        Sing(core, !e.isNull && SingBox.Succeeded(SingBox.StartReply(g.service, e.outcome)),
             g.service || SingBox.StartError(g.service, e.outcome).None?)
  }

  function SingStopped(s: State, e: Event): State
    requires e.SingboxStop?
  {
    if !s.sing.running then s.(plane := s.plane.(running := false))
    else
      var core := Loaded(s.sing.core, e.lookup);
      if !Ready(core) then s.(sing := s.sing.(core := core))
      else if !e.isNull && SingBox.Succeeded(SingBox.StopReply(s.sing.service, e.close)) then
        s.(sing := Sing(core, false, false), plane := s.plane.(running := false))
      else s.(sing := Sing(core, true, false))
  }

  // ---- One call, and runs of calls

  function Step(s: State, e: Event): State {
    match e
    case StartXray(_, _, _, _) => s.(xray := XrayStarted(s.xray, e))
    case StopXray(_, _) => XrayStopped(s, e)
    case XrayCall(lookup) => s.(xray := s.xray.(core := Loaded(s.xray.core, lookup)))
    case StartTun2Socks(_, _, _, _, _, _) => s.(plane := GvisorStarted(s.plane, e))
    case StartHevTun(_, _, _, _) => s.(plane := HevStarted(s.plane, e))
    case StopTun2Socks(_) => s.(plane := PlaneStopped(s.plane, e))
    case DetachedSwap => s.(plane := s.plane.(adapter := Adapter.Step(s.plane.adapter, Adapter.Swap)))
    case DetachedStop => s.(plane := s.plane.(adapter := Adapter.Step(s.plane.adapter, Adapter.EngineStop)))
    case HevReturns(id) => s.(plane := s.plane.(live := s.plane.live - {id}))
    case SingboxStart(_, _, _, _, _) => s.(sing := SingStarted(s.sing, e))
    case SingboxStop(_, _, _) => SingStopped(s, e)
  }

  function Run(s: State, events: seq<Event>): State
    decreases |events|
  {
    if events == [] then s else Run(Step(s, events[0]), events[1..])
  }

  // ---- The calls

  class Globals {
    const xrayCore: Library
    const tun2socksCore: Library
    const hevCore: Library
    const singboxCore: Library
    const singbox: SingBox.Service
    const adapter: Adapter.Tun2Socks

    var xrayRunning: bool
    var assetEnvSet: bool
    var tunRunning: bool
    var tunEngine: Engine
    var hevThread: nat
    var singboxRunning: bool

    // Threads, which the operating system keeps.
    var threads: nat
    var live: set<nat>
    var detachedWaiting: nat
    var detachedStopping: nat

    // History.
    ghost var assetWrites: nat
    ghost var lateAssetWrites: nat
    ghost var waited: bool
    ghost var overwritten: bool
    ghost var owedAtStart: nat

    ghost predicate Valid() {
      && xrayCore != tun2socksCore && xrayCore != hevCore && xrayCore != singboxCore
      && tun2socksCore != hevCore && tun2socksCore != singboxCore && hevCore != singboxCore
    }

    ghost function AdapterState(): Adapter.State
      reads this, adapter
    {
      Adapter.State(adapter.Value(), Adapter.Outside, detachedWaiting, detachedStopping, owedAtStart)
    }

    ghost function XrayPart(): Xray
      reads this, xrayCore
    {
      Xray(xrayCore.Value(), xrayRunning, assetEnvSet, assetWrites, lateAssetWrites)
    }

    ghost function PlanePart(): Plane
      reads this, adapter, tun2socksCore, hevCore
    {
      Plane(tunRunning, tunEngine, tun2socksCore.Value(), hevCore.Value(), hevThread, threads, live,
            waited, overwritten, AdapterState())
    }

    ghost function SingPart(): Sing
      reads this, singboxCore, singbox
    {
      Sing(singboxCore.Value(), singboxRunning, singbox.boxService)
    }

    ghost function Value(): State
      reads this, xrayCore, tun2socksCore, hevCore, singboxCore, singbox, adapter
    {
      State(XrayPart(), PlanePart(), SingPart())
    }

    constructor ()
      ensures Valid() && Value() == INITIAL
    {
      xrayCore := new Library();
      tun2socksCore := new Library();
      hevCore := new Library();
      singboxCore := new Library();
      singbox := new SingBox.Service();
      adapter := new Adapter.Tun2Socks();
      xrayRunning, assetEnvSet, tunRunning, tunEngine := false, false, false, NoEngine;
      hevThread, singboxRunning, threads, live := 0, false, 0, {};
      detachedWaiting, detachedStopping := 0, 0;
      assetWrites, lateAssetWrites, waited, overwritten, owedAtStart := 0, 0, false, false, 0;
    }

    method PrepareXrayAssetDir(dirEmpty: bool)
      modifies this`assetEnvSet, this`assetWrites, this`lateAssetWrites
      ensures XrayPart() == if dirEmpty then old(XrayPart()) else AssetPrepared(old(XrayPart()))
    {
      if assetEnvSet || xrayCore.handle != 0 || dirEmpty {
        return;
      }
      assetWrites := assetWrites + 1;
      lateAssetWrites := lateAssetWrites + Adapter.Bit(xrayCore.wasOpened);
      assetEnvSet := true;
    }

    /** Every entry that reaches libXray begins with this, and leaves the flags alone. */
    method InvokeXray(lookup: Lookup, answer: bool) returns (ok: bool)
      requires Valid()
      modifies xrayCore
      ensures Value() == Step(old(Value()), XrayCall(lookup))
      ensures ok <==> Ready(xrayCore.Value()) && answer
    {
      hide Loaded, Ready;
      var loaded := xrayCore.Load(lookup);
      return loaded && answer;
    }

    method StartXray(configEmpty: bool, dirEmpty: bool, lookup: Lookup, answer: bool) returns (ok: bool)
      requires Valid()
      modifies this`xrayRunning, this`assetEnvSet, this`assetWrites, this`lateAssetWrites, xrayCore
      ensures Value() == Step(old(Value()), Event.StartXray(configEmpty, dirEmpty, lookup, answer))
      ensures ok <==> !configEmpty && xrayRunning
    {
      LoadTwice(xrayCore.Value(), lookup);
      hide Loaded, Ready;
      if configEmpty {
        return false;
      }
      if xrayRunning {
        return true;
      }
      if dirEmpty {
        return false;
      }
      PrepareXrayAssetDir(false);
      var loaded := xrayCore.Load(lookup);
      if !loaded {
        xrayRunning := false;
        return false;
      }
      var invoked := InvokeXray(lookup, answer);
      if !invoked {
        xrayRunning := false;
        return false;
      }
      xrayRunning := true;
      return true;
    }

    method StopXray(lookup: Lookup, answer: bool) returns (ok: bool)
      requires Valid()
      modifies this`xrayRunning, this`tunRunning, xrayCore
      ensures Value() == Step(old(Value()), Event.StopXray(lookup, answer))
      ensures ok <==> !xrayRunning
    {
      LoadTwice(xrayCore.Value(), lookup);
      hide Loaded, Ready;
      if !xrayRunning {
        tunRunning := false;
        return true;
      }
      var loaded := xrayCore.Load(lookup);
      if !loaded {
        return false;
      }
      var invoked := InvokeXray(lookup, answer);
      if !invoked {
        return false;
      }
      xrayRunning := false;
      tunRunning := false;
      return true;
    }

    method StartTun2Socks(fd: int, hostEmpty: bool, port: int, mtu: int, lookup: Lookup, inheritable: bool)
        returns (ok: bool)
      requires Valid()
      modifies this`tunRunning, this`tunEngine, this`owedAtStart, tun2socksCore, adapter
      ensures Value() == Step(old(Value()), Event.StartTun2Socks(fd, hostEmpty, port, mtu, lookup, inheritable))
      ensures ok <==>
        tunRunning && Tun2SocksArguments(Event.StartTun2Socks(fd, hostEmpty, port, mtu, lookup, inheritable))
    {
      hide Loaded, Ready;
      if fd < 0 {
        return false;
      }
      if hostEmpty || port <= 0 || port > 65535 || mtu < 576 || mtu > 1500 {
        return false;
      }
      if tunRunning {
        return true;
      }
      var loaded := tun2socksCore.Load(lookup);
      if !loaded || !inheritable {
        return false;
      }
      owedAtStart := if adapter.running then owedAtStart else detachedStopping;
      var started := adapter.Start(fd, hostEmpty, port, mtu);
      if !started {
        return false;
      }
      tunRunning := true;
      tunEngine := Gvisor;
      return true;
    }

    /** `g_hevThread.join()`, guarded as at both its uses. */
    method JoinHevThread(ghost told: bool)
      modifies this`hevThread, this`live, this`waited
      ensures PlanePart() == Joined(old(PlanePart()), told)
    {
      if hevThread != 0 {
        waited := waited || (hevThread in live && !told);
        live := live - {hevThread};
        hevThread := 0;
      }
    }

    method SpawnHevThread()
      modifies this`hevThread, this`live, this`threads, this`overwritten
      ensures PlanePart() == Spawned(old(PlanePart()))
    {
      overwritten := overwritten || hevThread != 0;
      threads := threads + 1;
      hevThread := threads;
      live := live + {threads};
    }

    method RunHev()
      modifies this`tunRunning, this`tunEngine, this`hevThread, this`live, this`threads, this`waited, this`overwritten
      ensures PlanePart() == Spawned(Joined(old(PlanePart()), false)).(running := true, engine := Hev)
    {
      hide Joined, Spawned;
      JoinHevThread(false);
      SpawnHevThread();
      tunRunning := true;
      tunEngine := Hev;
    }

    method StartHevTun(fd: int, configEmpty: bool, lookup: Lookup, inheritable: bool) returns (ok: bool)
      requires Valid()
      modifies this`tunRunning, this`tunEngine, this`hevThread, this`live, this`threads, this`waited, this`overwritten, hevCore
      ensures Value() == Step(old(Value()), Event.StartHevTun(fd, configEmpty, lookup, inheritable))
      ensures ok <==> fd >= 0 && !configEmpty && tunRunning
    {
      hide Loaded, Ready, Joined, Spawned;
      if fd < 0 {
        return false;
      }
      if configEmpty {
        return false;
      }
      if tunRunning {
        return true;
      }
      var loaded := hevCore.Load(lookup);
      if !loaded || !inheritable {
        return false;
      }
      RunHev();
      return true;
    }

    /** The exchange of the engine with none, and the cleared flag. */
    method TakeEngine() returns (engine: Engine)
      modifies this`tunRunning, this`tunEngine
      ensures engine == old(tunEngine)
      ensures PlanePart() == old(PlanePart()).(running := false, engine := NoEngine)
    {
      engine := tunEngine;
      tunEngine := NoEngine;
      tunRunning := false;
    }

    /** `std::thread(stop).detach()` */
    method DetachStop()
      modifies this`detachedWaiting
      ensures PlanePart() == old(PlanePart()).(adapter := Adapter.Step(old(PlanePart()).adapter, Adapter.Detach))
    {
      detachedWaiting := detachedWaiting + 1;
    }

    method StopTun2Socks(lookup: Lookup) returns (ok: bool)
      requires Valid()
      modifies this`tunRunning, this`tunEngine, this`hevThread, this`live, this`waited, this`detachedWaiting, tun2socksCore
      ensures Value() == Step(old(Value()), Event.StopTun2Socks(lookup))
      ensures ok <==> old(tunRunning && !tunEngine.Hev?) ==> Ready(tun2socksCore.Value())
      ensures !tunRunning
    {
      hide Loaded, Ready, Joined, QuitPointer, Adapter.Step;
      if !tunRunning {
        return true;
      }
      var engine := TakeEngine();
      if engine == Hev {
        JoinHevThread(QuitPointer(hevCore.Value()) != 0);
        return true;
      }
      var loaded := tun2socksCore.Load(lookup);
      if !loaded {
        return false;
      }
      DetachStop();
      return true;
    }

    // ---- The threads

    /** A detached stop swaps the adapter's flag out. */
    method DetachedSwap()
      requires Valid()
      modifies this`detachedWaiting, this`detachedStopping, adapter
      ensures Value() == Step(old(Value()), Event.DetachedSwap)
    {
      if detachedWaiting > 0 {
        detachedWaiting := detachedWaiting - 1;
        if adapter.running {
          adapter.running := false;
          detachedStopping := detachedStopping + 1;
        }
      }
    }

    /** A detached stop that swapped true out stops the engine. */
    method DetachedStop()
      requires Valid()
      modifies this`detachedStopping, adapter
      ensures Value() == Step(old(Value()), Event.DetachedStop)
    {
      if detachedStopping > 0 {
        detachedStopping := detachedStopping - 1;
        adapter.engineCalls := adapter.engineCalls + [Adapter.StopCall];
      }
    }

    /** hev's main returns on its own; the thread stays joinable and no flag changes. */
    method HevReturns(id: nat)
      modifies this`live
      ensures Value() == Step(old(Value()), Event.HevReturns(id))
    {
      live := live - {id};
    }

    // ---- The sing-box core

    method SingboxStart(configEmpty: bool, dirEmpty: bool, lookup: Lookup, outcome: SingBox.Outcome, isNull: bool)
        returns (ok: bool)
      requires Valid()
      modifies this`singboxRunning, singboxCore, singbox
      ensures Value() == Step(old(Value()), Event.SingboxStart(configEmpty, dirEmpty, lookup, outcome, isNull))
      ensures ok <==> !configEmpty && singboxRunning
    {
      hide Loaded, Ready, SingBox.Succeeded, SingBox.StartError, SingBox.StartReply;
      if configEmpty {
        return false;
      }
      if singboxRunning {
        return true;
      }
      if dirEmpty {
        return false;
      }
      var loaded := singboxCore.Load(lookup);
      if !loaded {
        singboxRunning := false;
        return false;
      }
      var reply := singbox.CGoStartSingBox(outcome);
      if isNull {
        singboxRunning := false;
        return false;
      }
      if !SingBox.Succeeded(reply) {
        singboxRunning := false;
        return false;
      }
      singboxRunning := true;
      return true;
    }

    method SingboxStop(lookup: Lookup, close: Option<SingBox.Bytes>, isNull: bool) returns (ok: bool)
      requires Valid()
      modifies this`singboxRunning, this`tunRunning, singboxCore, singbox
      ensures Value() == Step(old(Value()), Event.SingboxStop(lookup, close, isNull))
      ensures ok <==> !singboxRunning
    {
      hide Loaded, Ready, SingBox.Succeeded, SingBox.StopReply;
      if !singboxRunning {
        tunRunning := false;
        return true;
      }
      var loaded := singboxCore.Load(lookup);
      if !loaded {
        return false;
      }
      var reply := singbox.CGoStopSingBox(close);
      if isNull {
        return false;
      }
      if !SingBox.Succeeded(reply) {
        return false;
      }
      singboxRunning := false;
      tunRunning := false;
      return true;
    }
  }

  /** StartXray and StopXray load the core more than once; the later loads change nothing. */
  lemma LoadTwice(m: Image, k: Lookup)
    ensures Ready(Loaded(m, k)) ==> Loaded(Loaded(m, k), k) == Loaded(m, k)
  {
  }
}
