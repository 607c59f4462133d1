/** Select, clear and invert as set operations on keys, and what they do to the list itself. */
module PerAppAlgebra {
  import opened JsText
  import opened JsTrim
  import opened PerApp

  lemma {:induction false} NormalizedOfNormal(list: seq<Text>, self: Text)
    requires IsNormal(list, self)
    ensures Normalized(list, self) == list
  {
    NothingNormalized(self);
    hide Normalized, Key, Keys, IsValid, IsNormal, Trim;
    if list != [] {
      var n := |list| - 1;
      assert list[..n + 1] == list && list[..n] + [list[n]] == list;
      NormalPrefix(list, self, n);
      NormalizedOfNormal(list[..n], self);
      NotYetSeen(list, n, self);
      NormalizedNext(list, self, n);
      NormalAt(list, self, n);
      ValidIsTrimmed(list[n]);
    }
  }

  lemma NormalPrefix(list: seq<Text>, self: Text, n: nat)
    requires IsNormal(list, self) && n <= |list|
    ensures IsNormal(list[..n], self)
  {
    hide IsValid, Key;
  }

  lemma NormalAt(list: seq<Text>, self: Text, n: nat)
    requires IsNormal(list, self) && n < |list|
    ensures IsValid(list[n]) && Key(list[n]) != self
  {
  }

  lemma ValidIsTrimmed(p: Text)
    requires IsValid(p)
    ensures Trim(p) == p
  {
    assert IsPackageUnit(p[0]) && IsPackageUnit(p[|p| - 1]);
    hide Trim;
  }

  /** Normalising the concatenation keeps the first list's normal form and adds what is new. */
  lemma {:induction false} NormalizedAppend(a: seq<Text>, b: seq<Text>, self: Text)
    ensures Normalized(a + b, self) == Normalized(a, self) + Without(Normalized(b, self), Keys(Normalized(a, self)))
  {
    if b == [] {
      NothingNormalized(self);
      hide Normalized, Keys, Without;
      assert a + b == a;
      var na := Normalized(a, self);
      assert na + [] == na;
    } else {
      AppendStep(a, b, self);
      hide Normalized, Key, Keys, IsWanted, Trim, Without;
      var n := |b| - 1;
      NormalizedAppend(a, b[..n], self);
      OneMore(Normalized(a, self), Normalized(b[..n], self), Trim(b[n]));
    }
  }

  lemma OneMore(a: seq<Text>, b: seq<Text>, p: Text)
    ensures var all := a + Without(b, Keys(a));
      && (Key(p) in Keys(b) ==> Key(p) in Keys(all))
      && (Key(p) in Keys(all) && Key(p) !in Keys(b) ==> a + Without(b + [p], Keys(a)) == all)
      && (Key(p) !in Keys(all) ==> a + Without(b + [p], Keys(a)) == all + [p])
  {
    AfterAppend(a, b);
    WithoutSnoc(b, p, Keys(a));
    hide Key, Keys, Without;
    var extra := Without(b, Keys(a));
    assert extra + [] == extra;
    assert a + (extra + [p]) == a + extra + [p];
  }

  lemma WithoutSnoc(list: seq<Text>, p: Text, keys: set<Text>)
    ensures Without(list + [p], keys) == Without(list, keys) + (if Key(p) in keys then [] else [p])
  {
    assert (list + [p])[..|list|] == list;
    hide Key;
  }

  lemma AppendStep(a: seq<Text>, b: seq<Text>, self: Text)
    requires b != []
    ensures var n := |b| - 1;
      && Normalized(a + b, self) ==
           (if !IsWanted(b[n], self) || Key(Trim(b[n])) in Keys(Normalized(a + b[..n], self)) then Normalized(a + b[..n], self)
            else Normalized(a + b[..n], self) + [Trim(b[n])])
      && Normalized(b, self) ==
           (if !IsWanted(b[n], self) || Key(Trim(b[n])) in Keys(Normalized(b[..n], self)) then Normalized(b[..n], self)
            else Normalized(b[..n], self) + [Trim(b[n])])
  {
    var n := |b| - 1;
    NormalizedNext(a + b, self, |a| + n);
    NormalizedNext(b, self, n);
    assert (a + b)[..|a| + n] == a + b[..n] && (a + b)[..|a| + n + 1] == a + b && b[..n + 1] == b;
    hide Normalized, Key, Keys, IsWanted, Trim;
  }

  lemma AfterAppend(a: seq<Text>, b: seq<Text>)
    ensures Keys(a + Without(b, Keys(a))) == Keys(a) + Keys(b)
  {
    WithoutIsPart(b, Keys(a));
    KeyInKeys(a);
    KeyInKeys(b);
    KeysAppend(a, Without(b, Keys(a)));
    WithoutKeys(b, Keys(a));
    hide Key, Keys, Without;
  }

  lemma KeysAppend(a: seq<Text>, b: seq<Text>)
    ensures Keys(a + b) == Keys(a) + Keys(b)
  {
    assert forall p :: p in a + b <==> p in a || p in b;
    hide Key;
  }

  lemma WithoutKeys(list: seq<Text>, keys: set<Text>)
    ensures Keys(Without(list, keys)) == Keys(list) - keys
  {
    WithoutIsPart(list, keys);
    hide Key, Without;
  }

  lemma {:induction false} WithoutIsNormal(list: seq<Text>, keys: set<Text>, self: Text)
    requires IsNormal(list, self)
    ensures IsNormal(Without(list, keys), self)
  {
    NothingNormalized(self);
    if list != [] {
      var n := |list| - 1;
      NormalPrefix(list, self, n);
      WithoutIsNormal(list[..n], keys, self);
      NormalAt(list, self, n);
      NotYetSeen(list, n, self);
      WithoutKeys(list[..n], keys);
      assert list[..n] + [list[n]] == list;
      WithoutSnoc(list[..n], list[n], keys);
      if Key(list[n]) !in keys {
        NormalSnoc(Without(list[..n], keys), list[n], self);
      }
      hide Key, Keys, Without, IsValid, IsNormal;
    }
  }

  lemma {:induction false} NormalAppend(a: seq<Text>, b: seq<Text>, self: Text)
    requires IsNormal(a, self) && IsNormal(b, self) && Keys(a) !! Keys(b)
    ensures IsNormal(a + b, self)
  {
    KeyInKeys(a);
    KeyInKeys(b);
    hide Key, Keys, IsValid;
    forall i, j | 0 <= i < j < |a + b|
      ensures Key((a + b)[i]) != Key((a + b)[j])
    {
      if i < |a| && |a| <= j {
        assert a[i] in a && b[j - |a|] in b;
      }
    }
  }

  // ---- The laws

  /** Select-all is union, clear is difference, invert is symmetric difference, all on keys; all results are normal. */
  lemma KeyAlgebra(current: seq<Text>, visible: seq<Text>, self: Text)
    ensures var c, v := WantedKeys(current, self), WantedKeys(visible, self);
      && Keys(SelectAll(current, visible, self)) == c + v
      && Keys(Cleared(current, visible, self)) == c - v
      && Keys(Inverted(current, visible, self)) == (c - v) + (v - c)
    ensures IsNormal(SelectAll(current, visible, self), self)
    ensures IsNormal(Cleared(current, visible, self), self)
    ensures IsNormal(Inverted(current, visible, self), self)
  {
    var c, v := Normalized(current, self), Normalized(visible, self);
    NormalizedIsNormal(current, self);
    NormalizedIsNormal(visible, self);
    NormalizedIsNormal(current + visible, self);
    WantedAppend(current, visible, self);
    WithoutKeys(c, Keys(v));
    WithoutKeys(v, Keys(c));
    WithoutIsNormal(c, Keys(v), self);
    WithoutIsNormal(v, Keys(c), self);
    KeysAppend(Without(c, Keys(v)), Without(v, Keys(c)));
    hide Key, Keys, Without, Normalized, IsNormal, WantedKeys;
    NormalAppend(Without(c, Keys(v)), Without(v, Keys(c)), self);
  }

  lemma WantedAppend(a: seq<Text>, b: seq<Text>, self: Text)
    ensures WantedKeys(a + b, self) == WantedKeys(a, self) + WantedKeys(b, self)
  {
    assert forall p :: p in a + b <==> p in a || p in b;
    hide Key, IsWanted;
  }

  /** The entries whose key is in `keys`, in order. */
  function Within(list: seq<Text>, keys: set<Text>): seq<Text> { Without(list, Keys(list) - keys) }

  /** Only the keys that occur matter. */
  lemma {:induction false} WithoutSame(list: seq<Text>, a: set<Text>, b: set<Text>)
    requires forall p | p in list :: Key(p) in a <==> Key(p) in b
    ensures Without(list, a) == Without(list, b)
  {
    if list != [] {
      var n := |list| - 1;
      assert list[n] in list && forall p | p in list[..n] :: p in list;
      hide Key;
      WithoutSame(list[..n], a, b);
    }
  }

  /**
   Inverting twice gives the names that are not visible as they were, followed by the visible names whose
   key was selected, in the order and spelling of the visible list. So the same keys are selected again.
   */
  lemma InvertTwice(current: seq<Text>, visible: seq<Text>, self: Text)
    ensures var twice := Inverted(Inverted(current, visible, self), visible, self);
      && twice == Cleared(current, visible, self) + Within(Normalized(visible, self), WantedKeys(current, self))
      && Keys(twice) == WantedKeys(current, self)
      && Without(twice, WantedKeys(visible, self)) == Cleared(current, visible, self)
  {
    var once := Inverted(current, visible, self);
    var c, v := Normalized(current, self), Normalized(visible, self);
    KeyAlgebra(current, visible, self);
    NormalizedIsNormal(once, self);
    NormalizedOfNormal(once, self);
    KeyAlgebra(once, visible, self);
    NormalizedIsNormal(visible, self);
    NormalizedIsNormal(current, self);
    InvertKeepsHidden(current, visible, self);
    InvertKeepsHidden(once, visible, self);
    KeyInKeys(v);
    hide Key, Keys, Without, Normalized, IsNormal, WantedKeys, Inverted;
    assert Cleared(once, visible, self) == Without(once, WantedKeys(visible, self));
    WithoutSame(v, Keys(once), Keys(v) - WantedKeys(current, self));
    InvertedIs(once, visible, self);
  }

  lemma InvertedIs(current: seq<Text>, visible: seq<Text>, self: Text)
    ensures var c, v := Normalized(current, self), Normalized(visible, self);
      Inverted(current, visible, self) == Cleared(current, visible, self) + Without(v, Keys(c))
  {
  }

  /** On lists it is no identity: of two names, the first of which is visible, the order is turned round. */
  lemma InvertTwiceReorders(first: Text, second: Text, self: Text)
    requires IsNormal([first, second], self)
    ensures Inverted(Inverted([first, second], [first], self), [first], self) == [second, first]
  {
    hide Key, Keys, Without, Normalized, WantedKeys, Inverted, Within, IsNormal;
    var both, one := [first, second], [first];
    assert both[..1] == one;
    NormalPrefix(both, self, 1);
    NormalizedOfNormal(both, self);
    NormalizedOfNormal(one, self);
    NormalizedIsNormal(both, self);
    InvertTwice(both, one, self);
    ClearFirst(first, second, self);
    WithinAll(one, Keys(both));
  }

  lemma ClearFirst(first: Text, second: Text, self: Text)
    requires IsNormal([first, second], self)
    ensures Without([first, second], Keys([first])) == [second]
    ensures Key(first) in Keys([first, second])
  {
    var both, one := [first, second], [first];
    assert both[0] == first && both[1] == second && both[..1] == one && one[..0] == [];
    KeyInKeys(both);
    KeyInKeys(one);
    assert first in both && first in one;
    assert Keys(one) == {Key(first)};
    hide Key, IsValid;
    assert Key(both[0]) != Key(both[1]);
    assert Without(one, Keys(one)) == [];
  }

  lemma {:induction false} WithinAll(list: seq<Text>, keys: set<Text>)
    requires forall p | p in list :: Key(p) in keys
    ensures Within(list, keys) == list
  {
    WithoutSame(list, Keys(list) - keys, {});
    WithoutNothing(list);
    hide Key, Without;
  }

  lemma {:induction false} WithoutNothing(list: seq<Text>)
    ensures Without(list, {}) == list
  {
    if list != [] {
      var n := |list| - 1;
      assert list[..n] + [list[n]] == list;
      WithoutNothing(list[..n]);
      hide Key;
    }
  }

  lemma InvertKeepsHidden(current: seq<Text>, visible: seq<Text>, self: Text)
    ensures Without(Inverted(current, visible, self), Keys(Normalized(visible, self))) == Cleared(current, visible, self)
  {
    var c, v := Normalized(current, self), Normalized(visible, self);
    WithoutIsPart(v, Keys(c));
    hide Key, Keys, Without, Normalized;
    WithoutOfAppended(Without(c, Keys(v)), v, Without(v, Keys(c)));
    WithoutAgain(c, Keys(v));
  }

  lemma {:induction false} WithoutAgain(list: seq<Text>, keys: set<Text>)
    ensures Without(Without(list, keys), keys) == Without(list, keys)
  {
    if list == [] {
      assert Without(list, keys) == [];
    } else {
      var n := |list| - 1;
      WithoutAgain(list[..n], keys);
      assert list[..n] + [list[n]] == list;
      assert Without(list[..n], keys) + [] == Without(list[..n], keys);
      WithoutSnoc(list[..n], list[n], keys);
      WithoutSnoc(Without(list[..n], keys), list[n], keys);
      hide Key, Without;
    }
  }

  /** Clearing after selecting all is clearing: what select-all added is gone, and nothing else moved. */
  lemma ClearUndoesSelectAll(current: seq<Text>, visible: seq<Text>, self: Text)
    ensures Cleared(SelectAll(current, visible, self), visible, self) == Cleared(current, visible, self)
  {
    var c, v := Normalized(current, self), Normalized(visible, self);
    NormalizedAppend(current, visible, self);
    NormalizedIsNormal(current + visible, self);
    NormalizedOfNormal(SelectAll(current, visible, self), self);
    WithoutIsPart(v, Keys(c));
    WithoutOfAppended(c, v, Without(v, Keys(c)));
    hide Key, Keys, Without, Normalized, IsNormal;
  }

  lemma {:induction false} WithoutOfAppended(c: seq<Text>, v: seq<Text>, part: seq<Text>)
    requires forall p | p in part :: p in v
    ensures Without(c + part, Keys(v)) == Without(c, Keys(v))
  {
    KeyInKeys(v);
    if part == [] {
      assert c + part == c;
    } else {
      var n := |part| - 1;
      assert c + part == (c + part[..n]) + [part[n]];
      assert part[n] in part && forall p | p in part[..n] :: p in part;
      WithoutOfAppended(c, v, part[..n]);
      WithoutSnoc(c + part[..n], part[n], Keys(v));
      hide Key, Keys, Without;
    }
  }
}
