/**
 Base64 as RFC 4648, section 4, defines it: 24-bit groups read as four 6-bit indices, with
 '=' filling the last group of four characters. Both codecs of the repository are proved
 against the functions of this module.
 */
module Base64 {
  import opened JsText

  const ALPHABET: string := "ABCDEFGHIJKLMNOPQRSTUVWXYZ" + "abcdefghijklmnopqrstuvwxyz" + "0123456789+/"

  /** Three octets as one 24-bit group. */
  function Group(a: bv8, b: bv8, c: bv8): bv24 { (a as bv24 << 16) | (b as bv24 << 8) | (c as bv24) }

  function First(g: bv24): bv6 { ((g >> 18) & 0x3F) as bv6 }
  function Second(g: bv24): bv6 { ((g >> 12) & 0x3F) as bv6 }
  function Third(g: bv24): bv6 { ((g >> 6) & 0x3F) as bv6 }
  function Fourth(g: bv24): bv6 { (g & 0x3F) as bv6 }

  /** The 6-bit indices of a byte string; a short last group is filled with zero bits. */
  function Sextets(b: seq<bv8>): seq<bv6> {
    if |b| == 0 then []
    else if |b| == 1 then var g := Group(b[0], 0, 0); [First(g), Second(g)]
    else if |b| == 2 then var g := Group(b[0], b[1], 0); [First(g), Second(g), Third(g)]
    else var g := Group(b[0], b[1], b[2]); [First(g), Second(g), Third(g), Fourth(g)] + Sextets(b[3..])
  }

  function FourGroup(a: bv6, b: bv6, c: bv6, d: bv6): bv24 {
    (a as bv24 << 18) | (b as bv24 << 12) | (c as bv24 << 6) | (d as bv24)
  }

  /** The whole octets of a list of indices. */
  function Octets(s: seq<bv6>): seq<bv8> {
    if |s| < 2 then []
    else if |s| == 2 then [(FourGroup(s[0], s[1], 0, 0) >> 16) as bv8]
    else if |s| == 3 then
      var g := FourGroup(s[0], s[1], s[2], 0); [(g >> 16) as bv8, ((g >> 8) & 0xFF) as bv8]
    else
      var g := FourGroup(s[0], s[1], s[2], s[3]);
      [(g >> 16) as bv8, ((g >> 8) & 0xFF) as bv8, (g & 0xFF) as bv8] + Octets(s[4..])
  }

  lemma GroupInverse(a: bv8, b: bv8, c: bv8)
    ensures var g := Group(a, b, c);
      var h := FourGroup(First(g), Second(g), Third(g), Fourth(g));
      (h >> 16) as bv8 == a && ((h >> 8) & 0xFF) as bv8 == b && (h & 0xFF) as bv8 == c
  {
  }

  lemma ZeroBits(a: bv8, b: bv8)
    ensures Third(Group(a, 0, 0)) == 0 && Fourth(Group(a, 0, 0)) == 0 && Fourth(Group(a, b, 0)) == 0
  {
  }

  lemma ShortInverse(a: bv8, b: bv8)
    ensures Octets(Sextets([a])) == [a]
    ensures Octets(Sextets([a, b])) == [a, b]
  {
    hide Group, First, Second, Third, Fourth, FourGroup;
    GroupInverse(a, 0, 0);
    GroupInverse(a, b, 0);
    ZeroBits(a, b);
  }

  lemma LongInverse(a: bv8, b: bv8, c: bv8, rest: seq<bv6>)
    ensures var g := Group(a, b, c);
      Octets([First(g), Second(g), Third(g), Fourth(g)] + rest) == [a, b, c] + Octets(rest)
  {
    hide Group, First, Second, Third, Fourth, FourGroup;
    var g := Group(a, b, c);
    var s := [First(g), Second(g), Third(g), Fourth(g)] + rest;
    assert s[4..] == rest;
    GroupInverse(a, b, c);
  }

  /** Decoding the indices of any byte string returns the bytes. */
  lemma {:induction false} OctetsOfSextets(b: seq<bv8>)
    ensures Octets(Sextets(b)) == b
  {
    hide Group, First, Second, Third, Fourth, Octets;
    if |b| < 3 {
      if |b| > 0 {
        ShortInverse(b[0], b[|b| - 1]);
        assert b == if |b| == 1 then [b[0]] else [b[0], b[1]];
      } else {
        OctetsEmpty();
      }
    } else {
      assert b == [b[0], b[1], b[2]] + b[3..];
      LongInverse(b[0], b[1], b[2], Sextets(b[3..]));
      OctetsOfSextets(b[3..]);
    }
  }

  lemma OctetsEmpty()
    ensures Octets([]) == []
  {
  }

  lemma {:induction false} SextetsLength(b: seq<bv8>)
    ensures |Sextets(b)| % 4 == if |b| % 3 == 0 then 0 else |b| % 3 + 1
  {
    if |b| >= 3 {
      SextetsLength(b[3..]);
    }
  }

  // ---- Characters

  function CharOf(s: bv6): char { ALPHABET[s as int] }

  function Chars(s: seq<bv6>): (t: string)
    ensures |t| == |s|
    ensures forall i | 0 <= i < |s| :: t[i] == CharOf(s[i])
  {
    if s == [] then [] else [CharOf(s[0])] + Chars(s[1..])
  }

  /** `BASE64_ALPHABET.indexOf(ch)` */
  function IndexOfChar(c: char): (k: int)
    ensures -1 <= k < 64
  {
    IndexOf(ALPHABET, c, 0)
  }

  lemma AlphabetAt(i: nat)
    requires i < 64
    ensures ALPHABET[i] == if i < 26 then 'A' + i as char else if i < 52 then 'a' + (i - 26) as char
                           else if i < 62 then '0' + (i - 52) as char else if i == 62 then '+' else '/'
  {
  }

  lemma AlphabetDistinct(i: nat, j: nat)
    requires i < j < 64
    ensures ALPHABET[i] != ALPHABET[j] && ALPHABET[j] != '='
  {
    AlphabetAt(i);
    AlphabetAt(j);
  }

  lemma IndexOfAlphabet(i: nat)
    requires i < 64
    ensures IndexOfChar(ALPHABET[i]) == i
  {
    var k := IndexOfChar(ALPHABET[i]);
    if 0 <= k < i {
      AlphabetDistinct(k, i);
    }
  }

  lemma IndexOfCharInverse(s: bv6)
    ensures IndexOfChar(CharOf(s)) == s as int
    ensures CharOf(s) != '='
  {
    IndexOfAlphabet(s as int);
    AlphabetAt(s as int);
  }

  /** '=' up to a multiple of four characters. */
  function Padded(t: string): string {
    if |t| % 4 == 2 then t + "==" else if |t| % 4 == 3 then t + "=" else t
  }

  function Encode(b: seq<bv8>): string { Padded(Chars(Sextets(b))) }

  lemma {:induction false} CharsAppend(a: seq<bv6>, b: seq<bv6>)
    ensures Chars(a + b) == Chars(a) + Chars(b)
  {
    hide CharOf;
    if a == [] {
      assert a + b == b;
    } else {
      assert a + b == [a[0]] + (a[1..] + b);
      CharsAppend(a[1..], b);
    }
  }

  // ---- Reading characters

  /** The indices of the characters before the first '=', unless one of them has none. */
  function ReadAll(t: string): Option<seq<bv6>> {
    if t == [] || t[0] == '=' then Some([])
    else if IndexOfChar(t[0]) < 0 then None
    else
      match ReadAll(t[1..])
      case None => None
      case Some(rest) => Some([IndexOfChar(t[0]) as bv6] + rest)
  }

  lemma {:induction false} ReadChars(s: seq<bv6>, padding: string)
    requires padding == [] || padding[0] == '='
    ensures ReadAll(Chars(s) + padding) == Some(s)
  {
    hide CharOf, IndexOfChar;
    var t := Chars(s) + padding;
    if s == [] {
      assert t == padding;
    } else {
      assert t == [CharOf(s[0])] + (Chars(s[1..]) + padding);
      assert (s[0] as int) as bv6 == s[0] && s == [s[0]] + s[1..];
      IndexOfCharInverse(s[0]);
      ReadChars(s[1..], padding);
    }
  }

  /** Reading an encoding gives its indices back, with or without the padding. */
  lemma ReadEncode(b: seq<bv8>)
    ensures ReadAll(Encode(b)) == Some(Sextets(b))
    ensures ReadAll(Chars(Sextets(b))) == Some(Sextets(b))
  {
    var t := Chars(Sextets(b));
    assert t + [] == t;
    ReadChars(Sextets(b), []);
    ReadChars(Sextets(b), "=");
    ReadChars(Sextets(b), "==");
  }
}
