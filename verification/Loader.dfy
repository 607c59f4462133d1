/**
 The lazy library loaders of napi_init.cpp. All four have one shape: keep what is loaded,
 else dlopen, look the symbols up, and publish the handle only if no required symbol is missing.
 A pointer is a number, null is 0.
 */
module Loader {

  /**
   What the globals of one library hold: the published handle and the required symbols.
   `wasOpened` is history, not in the source: whether dlopen ever returned the library.
   */
  datatype Image = Image(handle: nat, symbols: seq<nat>, wasOpened: bool)

  /** What dlopen answers for the full path and for the plain name, and dlsym for each required symbol. */
  datatype Lookup = Lookup(execPath: nat, plainName: nat, symbols: seq<nat>)

  const UNLOADED: Image := Image(0, [], false)

  function Opened(k: Lookup): nat { if k.execPath != 0 then k.execPath else k.plainName }

  predicate Resolved(symbols: seq<nat>) {
    symbols != [] && forall i | 0 <= i < |symbols| :: symbols[i] != 0
  }

  predicate Ready(m: Image) { m.handle != 0 && Resolved(m.symbols) }

  function Loaded(m: Image, k: Lookup): Image {
    if Ready(m) || Opened(k) == 0 then m
    else Image(if Resolved(k.symbols) then Opened(k) else m.handle, k.symbols, true)
  }

  /** A published handle comes with all its symbols, and was wasOpened. */
  predicate Sound(m: Image) { m.handle != 0 ==> Ready(m) && m.wasOpened }

  class Library {
    var handle: nat
    var symbols: seq<nat>
    ghost var wasOpened: bool

    ghost function Value(): Image
      reads this
    {
      Image(handle, symbols, wasOpened)
    }

    constructor ()
      ensures Value() == UNLOADED
    {
      handle, symbols, wasOpened := 0, [], false;
    }

    method AllResolved() returns (all: bool)
      ensures all == Resolved(symbols)
    {
      all := |symbols| > 0;
      for i := 0 to |symbols|
        invariant all <==> symbols != [] && forall j | 0 <= j < i :: symbols[j] != 0
      {
        all := all && symbols[i] != 0;
      }
    }

    method Load(k: Lookup) returns (ok: bool)
      modifies this
      ensures Value() == Loaded(old(Value()), k)
      ensures ok == Ready(Value())
    {
      var resolved := AllResolved();
      if handle != 0 && resolved {
        return true;
      }
      var library := k.execPath;
      if library == 0 {
        library := k.plainName;
      }
      if library == 0 {
        return false;
      }
      symbols, wasOpened := k.symbols, true;
      resolved := AllResolved();
      if !resolved {
        return false;
      }
      handle := library;
      return true;
    }
  }

  /**
   A published library is left alone. Else the full path is tried before the plain name, the symbols of whatever
   dlopen returned are kept, and the handle only if there are symbols and none of them is null.
   */
  lemma LoadExactly(m: Image, k: Lookup)
    requires Sound(m)
    ensures m.handle != 0 ==> Loaded(m, k) == m
    ensures m.handle == 0 && k.execPath == 0 && k.plainName == 0 ==> Loaded(m, k) == m
    ensures m.handle == 0 && (k.execPath != 0 || k.plainName != 0) ==>
      var library := if k.execPath != 0 then k.execPath else k.plainName;
      Loaded(m, k) == Image(if |k.symbols| > 0 && 0 !in k.symbols then library else 0, k.symbols, true)
  {
  }

  // ---- Over any number of loads

  function LoadedAll(m: Image, ks: seq<Lookup>): Image
    decreases |ks|
  {
    if ks == [] then m else LoadedAll(Loaded(m, ks[0]), ks[1..])
  }

  /** A published handle keeps its value and all its symbols through every later load. */
  lemma {:induction false} PublishedForever(m: Image, ks: seq<Lookup>)
    requires Sound(m)
    ensures Sound(LoadedAll(m, ks))
    ensures m.handle != 0 ==> LoadedAll(m, ks) == m
    decreases |ks|
  {
    if ks != [] {
      PublishedForever(Loaded(m, ks[0]), ks[1..]);
    }
  }

  /** From an unloaded library, loading succeeds exactly when some attempt found it complete. */
  lemma {:induction false} ReadyWhenFound(m: Image, ks: seq<Lookup>)
    requires Sound(m)
    ensures Ready(LoadedAll(m, ks)) <==> Ready(m) || exists k | k in ks :: Opened(k) != 0 && Resolved(k.symbols)
    decreases |ks|
  {
    if ks != [] {
      var k := ks[0];
      assert forall x :: x in ks <==> x == k || x in ks[1..];
      LoadStep(m, k);
      hide Resolved, Ready, Opened, Loaded;
      ReadyWhenFound(Loaded(m, k), ks[1..]);
    }
  }

  lemma LoadStep(m: Image, k: Lookup)
    requires Sound(m)
    ensures Sound(Loaded(m, k))
    ensures Ready(Loaded(m, k)) <==> Ready(m) || (Opened(k) != 0 && Resolved(k.symbols))
    ensures m.handle != 0 ==> Loaded(m, k) == m
    ensures m.wasOpened ==> Loaded(m, k).wasOpened
    ensures Loaded(m, k).wasOpened ==> m.wasOpened || Opened(k) != 0
  {
  }
}
