/**
 PerAppProxy.ets: lists of package names without duplicates, case ignored. A valid name is ASCII,
 so lower-casing one is exact; `self` is the app's own name, already trimmed and lower-cased.
 */
module PerApp {
  import opened JsText
  import opened JsTrim

  predicate IsPackageUnit(u: Unit) {
    || 0x41 <= u <= 0x5A || 0x61 <= u <= 0x7A || 0x30 <= u <= 0x39
    || u == 0x5F || u == DOT || u == 0x24 || u == HYPHEN
  }

  predicate IsValid(name: Text) {
    && |name| >= 5 && IndexOf(name, DOT, 0) > 0 && name[|name| - 1] != DOT
    && forall u | u in name :: IsPackageUnit(u)
  }

  function LowerUnit(u: Unit): Unit { if 0x41 <= u <= 0x5A then u + 32 else u }

  function Key(name: Text): Text { seq(|name|, i requires 0 <= i < |name| => LowerUnit(name[i])) }

  function Keys(list: seq<Text>): set<Text> { set p | p in list :: Key(p) }

  /** Valid names without the app itself, no two alike. */
  predicate IsNormal(list: seq<Text>, self: Text) {
    && (forall i | 0 <= i < |list| :: IsValid(list[i]) && Key(list[i]) != self)
    && (forall i, j | 0 <= i < j < |list| :: Key(list[i]) != Key(list[j]))
  }

  predicate IsWanted(p: Text, self: Text) { IsValid(Trim(p)) && Key(Trim(p)) != self }

  function WantedKeys(packages: seq<Text>, self: Text): set<Text> {
    set p | p in packages && IsWanted(p, self) :: Key(Trim(p))
  }

  /** Of each wanted name the first spelling, in order. */
  function Normalized(packages: seq<Text>, self: Text): seq<Text> {
    if packages == [] then []
    else
      var n := |packages| - 1;
      var before, last := Normalized(packages[..n], self), packages[n];
      if !IsWanted(last, self) || Key(Trim(last)) in Keys(before) then before else before + [Trim(last)]
  }

  /** The entries whose key is not in `keys`, in order. */
  function Without(list: seq<Text>, keys: set<Text>): seq<Text> {
    if list == [] then []
    else
      var n := |list| - 1;
      Without(list[..n], keys) + (if Key(list[n]) in keys then [] else [list[n]])
  }

  function SelectAll(current: seq<Text>, visible: seq<Text>, self: Text): seq<Text> {
    Normalized(current + visible, self)
  }

  function Cleared(current: seq<Text>, visible: seq<Text>, self: Text): seq<Text> {
    Without(Normalized(current, self), Keys(Normalized(visible, self)))
  }

  /** What was selected and is not visible, then what is visible and was not selected. */
  function Inverted(current: seq<Text>, visible: seq<Text>, self: Text): seq<Text> {
    var c, v := Normalized(current, self), Normalized(visible, self);
    Without(c, Keys(v)) + Without(v, Keys(c))
  }

  // ---- The loops

  lemma KeysSnoc(list: seq<Text>, p: Text)
    ensures Keys(list + [p]) == Keys(list) + {Key(p)}
  {
    assert forall x :: x in list + [p] <==> x in list || x == p;
  }

  lemma Prefix<T>(s: seq<T>, i: nat)
    requires i < |s|
    ensures s[..i + 1] == s[..i] + [s[i]] && s[..i + 1] != [] && s[..i + 1][..i] == s[..i] && s[..i + 1][i] == s[i]
  {
  }

  lemma NormalizedNext(packages: seq<Text>, self: Text, i: nat)
    requires i < |packages|
    ensures var before := Normalized(packages[..i], self);
      Normalized(packages[..i + 1], self) ==
      if !IsWanted(packages[i], self) || Key(Trim(packages[i])) in Keys(before) then before
      else before + [Trim(packages[i])]
  {
    Prefix(packages, i);
    hide IsWanted, Keys, Key;
  }

  lemma WithoutNext(list: seq<Text>, keys: set<Text>, i: nat)
    requires i < |list|
    ensures Without(list[..i + 1], keys) ==
            Without(list[..i], keys) + (if Key(list[i]) in keys then [] else [list[i]])
  {
    Prefix(list, i);
    hide Key;
  }

  method NormalizePerAppPackageList(packages: seq<Text>, self: Text) returns (normalized: seq<Text>)
    ensures normalized == Normalized(packages, self)
  {
    hide IsValid, Key, Keys, Normalized;
    normalized := [];
    var seen: set<Text> := {};
    NothingNormalized(self);
    for index := 0 to |packages|
      invariant normalized == Normalized(packages[..index], self)
      invariant seen == Keys(normalized)
    {
      NormalizedNext(packages, self, index);
      var item := Trim(packages[index]);
      var key := Key(item);
      if !IsValid(item) || key == self || key in seen {
        continue;
      }
      KeysSnoc(normalized, item);
      seen := seen + {key};
      normalized := normalized + [item];
    }
    assert packages[..|packages|] == packages;
  }

  lemma NothingNormalized(self: Text)
    ensures Normalized([], self) == [] && Keys([]) == {} && WantedKeys([], self) == {} && IsNormal([], self)
    ensures forall keys :: Without([], keys) == []
  {
  }

  method SelectAllPerAppPackages(current: seq<Text>, visible: seq<Text>, self: Text) returns (next: seq<Text>)
    ensures next == SelectAll(current, visible, self)
  {
    next := NormalizePerAppPackageList(current + visible, self);
  }

  method KeysOf(list: seq<Text>) returns (keys: set<Text>)
    ensures keys == Keys(list)
  {
    hide Keys, Key;
    keys := {};
    NothingNormalized([]);
    for index := 0 to |list|
      invariant keys == Keys(list[..index])
    {
      Prefix(list, index);
      KeysSnoc(list[..index], list[index]);
      keys := keys + {Key(list[index])};
    }
    assert list[..|list|] == list;
  }

  method ClearVisiblePerAppPackages(current: seq<Text>, visible: seq<Text>, self: Text) returns (next: seq<Text>)
    ensures next == Cleared(current, visible, self)
  {
    hide Keys, Key, Normalized, Without;
    var shown := NormalizePerAppPackageList(visible, self);
    var hidden := KeysOf(shown);
    var normalized := NormalizePerAppPackageList(current, self);
    next := [];
    NothingNormalized(self);
    for index := 0 to |normalized|
      invariant next == Without(normalized[..index], hidden)
    {
      WithoutNext(normalized, hidden, index);
      if Key(normalized[index]) !in hidden {
        next := next + [normalized[index]];
      }
    }
    assert normalized[..|normalized|] == normalized;
  }

  /** A missing entry reads as false. */
  predicate IsOn(flags: map<Text, bool>, key: Text) { key in flags && flags[key] }

  /** `selected` after the flips: a key is on if it is in exactly one of the two lists. */
  method FlipVisible(c: seq<Text>, v: seq<Text>, self: Text) returns (selected: map<Text, bool>)
    requires IsNormal(v, self)
    ensures forall k :: IsOn(selected, k) <==> (k in Keys(c) <==> k !in Keys(v))
  {
    selected := map[];
    hide Keys, Key, IsValid;
    NothingNormalized(self);
    for index := 0 to |c|
      invariant forall k :: IsOn(selected, k) <==> k in Keys(c[..index])
    {
      Prefix(c, index);
      KeysSnoc(c[..index], c[index]);
      selected := selected[Key(c[index]) := true];
    }
    assert c[..|c|] == c;
    for index := 0 to |v|
      invariant forall k :: IsOn(selected, k) <==> (k in Keys(c) <==> k !in Keys(v[..index]))
    {
      Prefix(v, index);
      KeysSnoc(v[..index], v[index]);
      NotYetSeen(v, index, self);
      var key := Key(v[index]);
      selected := selected[key := !IsOn(selected, key)];
    }
    assert v[..|v|] == v;
  }

  lemma NotYetSeen(v: seq<Text>, index: nat, self: Text)
    requires index < |v| && IsNormal(v, self)
    ensures Key(v[index]) !in Keys(v[..index])
    ensures v[index] !in v[..index]
  {
  }

  method InvertVisiblePerAppPackages(current: seq<Text>, visible: seq<Text>, self: Text) returns (next: seq<Text>)
    ensures next == Inverted(current, visible, self)
  {
    var c := NormalizePerAppPackageList(current, self);
    var v := NormalizePerAppPackageList(visible, self);
    NormalizedIsNormal(visible, self);
    hide Keys, Key, Normalized, Without, IsValid, IsNormal;
    var selected := FlipVisible(c, v, self);
    next := KeepSelected(c, v, selected);
    next := AddSelected(next, c, v, selected, self);
  }

  method KeepSelected(c: seq<Text>, v: seq<Text>, selected: map<Text, bool>) returns (next: seq<Text>)
    requires forall k :: IsOn(selected, k) <==> (k in Keys(c) <==> k !in Keys(v))
    ensures next == Without(c, Keys(v))
  {
    KeyInKeys(c);
    hide Keys, Key, Without, IsOn;
    next := [];
    NothingNormalized([]);
    for index := 0 to |c|
      invariant next == Without(c[..index], Keys(v))
    {
      WithoutNext(c, Keys(v), index);
      assert c[index] in c;
      if IsOn(selected, Key(c[index])) {
        next := next + [c[index]];
      }
    }
    assert c[..|c|] == c;
  }

  method AddSelected(kept: seq<Text>, c: seq<Text>, v: seq<Text>, selected: map<Text, bool>, self: Text)
      returns (next: seq<Text>)
    requires IsNormal(v, self)
    requires kept == Without(c, Keys(v))
    requires forall k :: IsOn(selected, k) <==> (k in Keys(c) <==> k !in Keys(v))
    ensures next == kept + Without(v, Keys(c))
  {
    KeyInKeys(v);
    hide Keys, Key, Without, IsOn, IsNormal;
    next := kept;
    NothingNormalized([]);
    for index := 0 to |v|
      invariant next == kept + Without(v[..index], Keys(c))
    {
      WithoutNext(v, Keys(c), index);
      assert v[index] in v;
      NotYetAdded(c, v, index, self);
      if IsOn(selected, Key(v[index])) && IndexOf(next, v[index], 0) < 0 {
        next := next + [v[index]];
      }
    }
    assert v[..|v|] == v;
  }

  /** The search before adding never finds the name. */
  lemma NotYetAdded(c: seq<Text>, v: seq<Text>, index: nat, self: Text)
    requires index < |v| && IsNormal(v, self)
    ensures v[index] !in Without(c, Keys(v)) + Without(v[..index], Keys(c))
  {
    KeyInKeys(v);
    NotYetSeen(v, index, self);
    WithoutIsPart(c, Keys(v));
    WithoutIsPart(v[..index], Keys(c));
    hide Keys, Key, Without, IsNormal;
    assert v[index] in v;
  }

  lemma KeyInKeys(list: seq<Text>)
    ensures forall p | p in list :: Key(p) in Keys(list)
  {
  }

  lemma {:induction false} WithoutIsPart(list: seq<Text>, keys: set<Text>)
    ensures forall p :: p in Without(list, keys) <==> p in list && Key(p) !in keys
  {
    if list != [] {
      var n := |list| - 1;
      hide Key;
      WithoutIsPart(list[..n], keys);
      assert forall p :: p in list <==> p in list[..n] || p == list[n];
    }
  }

  // ---- What they compute

  lemma {:induction false} NormalizedIsNormal(packages: seq<Text>, self: Text)
    ensures IsNormal(Normalized(packages, self), self)
    ensures Keys(Normalized(packages, self)) == WantedKeys(packages, self)
  {
    NothingNormalized(self);
    hide Normalized, Key, Keys, IsValid, WantedKeys, IsNormal;
    if packages != [] {
      var n := |packages| - 1;
      var before, last := Normalized(packages[..n], self), packages[n];
      assert packages[..n + 1] == packages && packages[..n] + [last] == packages;
      NormalizedIsNormal(packages[..n], self);
      NormalizedNext(packages, self, n);
      WantedSnoc(packages[..n], last, self);
      if IsWanted(last, self) && Key(Trim(last)) !in Keys(before) {
        NormalSnoc(before, Trim(last), self);
      }
    }
  }

  lemma NormalSnoc(list: seq<Text>, p: Text, self: Text)
    requires IsNormal(list, self) && IsValid(p) && Key(p) != self && Key(p) !in Keys(list)
    ensures IsNormal(list + [p], self)
    ensures Keys(list + [p]) == Keys(list) + {Key(p)}
  {
    KeysSnoc(list, p);
    KeyInKeys(list);
    hide Key, Keys, IsValid;
  }

  lemma WantedSnoc(packages: seq<Text>, p: Text, self: Text)
    ensures WantedKeys(packages + [p], self) ==
            WantedKeys(packages, self) + (if IsWanted(p, self) then {Key(Trim(p))} else {})
  {
    hide Key, IsWanted;
    assert forall x :: x in packages + [p] <==> x in packages || x == p;
  }
}
