/** On which texts the two Base64 decoders, Encoding.ets and napi_init.cpp, return the same bytes. */
module Base64Agreement {
  import opened JsText
  import opened Base64
  import ArkBase64
  import Base64Stream
  import NativeBase64

  // ---- How the ArkTS decoder reads

  /** The letter a character stands for in either alphabet. */
  function Letter(c: char): char { if c == '-' then '+' else if c == '_' then '/' else c }

  predicate IsLetter(c: char) { IndexOfChar(Letter(c)) >= 0 }

  /** Up to the first '=' there are only letters of either alphabet and white space. */
  predicate Readable(t: string) {
    t == "" || t[0] == '=' || ((IsLetter(t[0]) || ArkBase64.IsSpace(t[0])) && Readable(t[1..]))
  }

  /** The indices of those letters. */
  function Read(t: string): seq<bv6> {
    if t == "" || t[0] == '=' then []
    else if !IsLetter(t[0]) then Read(t[1..])
    else [IndexOfChar(Letter(t[0])) as bv6] + Read(t[1..])
  }

  lemma SpaceIsNoLetter(c: char)
    requires ArkBase64.IsSpace(c)
    ensures !IsLetter(c) && c != '='
  {
    NativeBase64.SpaceNotInAlphabet(c);
    hide IndexOfChar;
  }

  lemma PlainCons(t: string)
    requires t != ""
    ensures ArkBase64.IsSpace(t[0]) ==> ArkBase64.Plain(t) == ArkBase64.Plain(t[1..])
    ensures !ArkBase64.IsSpace(t[0]) ==> ArkBase64.Plain(t) == [Letter(t[0])] + ArkBase64.Plain(t[1..])
  {
    ArkBase64.StandardCons(t[0], ArkBase64.Stripped(t[1..]));
    hide ArkBase64.Standard;
  }

  lemma ReadAllCons(c: char, t: string)
    ensures ReadAll([c] + t) ==
            if c == '=' then Some([])
            else if IndexOfChar(c) < 0 then None
            else match ReadAll(t) case None => None case Some(rest) => Some([IndexOfChar(c) as bv6] + rest)
  {
    assert ([c] + t)[1..] == t;
    hide IndexOfChar;
  }

  lemma {:induction false} ArkReads(t: string)
    ensures ReadAll(ArkBase64.Plain(t)) == if Readable(t) then Some(Read(t)) else None
  {
    if t != "" {
      PlainCons(t);
      ReadAllCons(Letter(t[0]), ArkBase64.Plain(t[1..]));
      if ArkBase64.IsSpace(t[0]) {
        SpaceIsNoLetter(t[0]);
      }
      hide IndexOfChar, ReadAll, ArkBase64.Plain, ArkBase64.IsSpace;
      ArkReads(t[1..]);
    }
  }

  /** The C++ decoder skips the URL-safe letters, and reads the others alike. */
  lemma {:induction false} KeptIsPart(t: string)
    ensures |NativeBase64.Kept(t)| <= |Read(t)|
    ensures |NativeBase64.Kept(t)| == |Read(t)| ==> NativeBase64.Kept(t) == Read(t)
  {
    if t != "" {
      NativeBase64.SpaceNotInAlphabet('-');
      NativeBase64.SpaceNotInAlphabet('_');
      hide IndexOfChar;
      KeptIsPart(t[1..]);
    }
  }

  // ---- When index lists have the same octets

  lemma {:induction false} OctetsLength(s: seq<bv6>)
    ensures |Octets(s)| == 3 * |s| / 4
  {
    if |s| >= 4 {
      OctetsLength(s[4..]);
      hide FourGroup;
    }
  }

  function High(g: bv24): bv8 { (g >> 16) as bv8 }
  function Middle(g: bv24): bv8 { ((g >> 8) & 0xFF) as bv8 }
  function Low(g: bv24): bv8 { (g & 0xFF) as bv8 }

  lemma OctetsHead(s: seq<bv6>)
    requires |s| >= 4
    ensures var g := FourGroup(s[0], s[1], s[2], s[3]);
      Octets(s) == [High(g), Middle(g), Low(g)] + Octets(s[4..])
  {
    hide FourGroup;
  }

  lemma FourInverse(a: bv6, b: bv6, c: bv6, d: bv6)
    ensures var g := FourGroup(a, b, c, d); var h := Group(High(g), Middle(g), Low(g));
      First(h) == a && Second(h) == b && Third(h) == c && Fourth(h) == d
  {
  }

  lemma SextetsHead(x: bv8, y: bv8, z: bv8, rest: seq<bv8>)
    ensures var g := Group(x, y, z);
      Sextets([x, y, z] + rest) == [First(g), Second(g), Third(g), Fourth(g)] + Sextets(rest)
  {
    assert ([x, y, z] + rest)[3..] == rest;
    hide Group, First, Second, Third, Fourth;
  }

  /** Whole groups are determined by their octets. */
  lemma {:induction false} SextetsOfOctets(s: seq<bv6>)
    requires |s| % 4 == 0
    ensures Sextets(Octets(s)) == s
  {
    if s == [] {
      assert Octets(s) == [];
    } else {
      hide Sextets, Octets, FourGroup, Group, First, Second, Third, Fourth, High, Middle, Low;
      var rest, g := s[4..], FourGroup(s[0], s[1], s[2], s[3]);
      assert s == [s[0], s[1], s[2], s[3]] + rest;
      OctetsHead(s);
      SextetsHead(High(g), Middle(g), Low(g), Octets(rest));
      FourInverse(s[0], s[1], s[2], s[3]);
      SextetsOfOctets(rest);
    }
  }

  lemma SingleIndexAdds(s: seq<bv6>, x: bv6)
    requires |s| % 4 == 0
    ensures Octets(s + [x]) == Octets(s)
  {
    Base64Stream.OctetsSnoc(s, x);
    Base64Stream.NothingCompleted(Base64Stream.Last(s), x);
    hide Octets, Base64Stream.Completed;
    assert Octets(s) + [] == Octets(s);
  }

  lemma SameLength(k: nat, a: nat)
    requires k < a
    ensures 3 * k / 4 == 3 * a / 4 <==> a == k + 1 && k % 4 == 0
  {
  }

  /** A longer list has the same octets exactly if it is whole groups and one index more. */
  lemma SameOctets(k: seq<bv6>, a: seq<bv6>)
    requires |k| < |a|
    ensures Octets(k) == Octets(a) <==> |k| % 4 == 0 && |a| == |k| + 1 && k <= a
  {
    hide Octets, Sextets;
    OctetsLength(k);
    OctetsLength(a);
    SameLength(|k|, |a|);
    if 3 * |k| / 4 == 3 * |a| / 4 {
      var front := a[..|k|];
      assert k <= a <==> k == front;
      assert a == front + [a[|k|]];
      SingleIndexAdds(front, a[|k|]);
      SextetsOfOctets(front);
      SextetsOfOctets(k);
    }
  }

  /**
   The decoders return the same bytes exactly if the ArkTS one accepts the text, and either no URL-safe letter
   stands before the first '=', or exactly one index is missing on the native side, and that one
   makes no difference: what is left is whole groups, and the first part of what the other reads.
   */
  lemma DecodersAgreeExactly(t: string)
    ensures ArkBase64.Decoded(t) == ArkBase64.Ok(NativeBase64.Decoded(t)) <==>
      var k, a := NativeBase64.Kept(t), Read(t);
      Readable(t) && (k == a || (|k| % 4 == 0 && |a| == |k| + 1 && k <= a))
  {
    hide Octets, ReadAll, NativeBase64.Kept, Read, Readable;
    ArkReads(t);
    KeptIsPart(t);
    if |NativeBase64.Kept(t)| < |Read(t)| {
      SameOctets(NativeBase64.Kept(t), Read(t));
    }
  }

  predicate HasUrlSafe(t: string) {
    t != "" && t[0] != '=' && (t[0] == '-' || t[0] == '_' || HasUrlSafe(t[1..]))
  }

  /** The index lists are the same exactly if no URL-safe letter stands before the first '='. */
  lemma {:induction false} SameIndices(t: string)
    ensures NativeBase64.Kept(t) == Read(t) <==> !HasUrlSafe(t)
  {
    if t != "" {
      NativeBase64.SpaceNotInAlphabet('-');
      NativeBase64.SpaceNotInAlphabet('_');
      PlusAndSlash();
      KeptIsPart(t[1..]);
      hide IndexOfChar;
      SameIndices(t[1..]);
      var k, a := NativeBase64.Kept(t[1..]), Read(t[1..]);
      assert IndexOfChar(t[0]) >= 0 && t[0] != '=' ==>
        NativeBase64.Kept(t)[1..] == k && Read(t)[1..] == a;
    }
  }

  lemma PlusAndSlash()
    ensures IndexOfChar('+') >= 0 && IndexOfChar('/') >= 0
  {
    IndexOfAlphabet(62);
    IndexOfAlphabet(63);
    AlphabetAt(62);
    AlphabetAt(63);
  }
}
