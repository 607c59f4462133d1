/** Known encodings: vectors of RFC 4648, section 10, the last two letters of the alphabet, and the bytes of `é`. */
module Base64Sample {
  import opened Base64

  lemma PadTwo(a: bv6, b: bv6)
    ensures Padded(Chars([a, b])) == [CharOf(a), CharOf(b)] + "=="
  {
    hide CharOf;
  }

  lemma PadThree(a: bv6, b: bv6, c: bv6)
    ensures Padded(Chars([a, b, c])) == [CharOf(a), CharOf(b), CharOf(c)] + "="
  {
    hide CharOf;
  }

  lemma CharsFour(a: bv6, b: bv6, c: bv6, d: bv6)
    ensures Chars([a, b, c, d]) == [CharOf(a), CharOf(b), CharOf(c), CharOf(d)]
  {
    hide CharOf;
  }

  /** `f` is `Zg==`. */
  lemma OneOctet(b: seq<bv8>)
    requires b == [0x66]
    ensures Encode(b) == "Zg=="
  {
    var g := Group(0x66, 0, 0);
    assert First(g) == 25 && Second(g) == 32;
    assert CharOf(25) == 'Z' && CharOf(32) == 'g';
    hide First, Second, Group, CharOf;
    assert Sextets(b) == [25, 32];
    PadTwo(25, 32);
  }

  /** `fo` is `Zm8=`. */
  lemma TwoOctets(b: seq<bv8>)
    requires b == [0x66, 0x6F]
    ensures Encode(b) == "Zm8="
  {
    var g := Group(0x66, 0x6F, 0);
    assert First(g) == 25 && Second(g) == 38 && Third(g) == 60;
    assert CharOf(25) == 'Z' && CharOf(38) == 'm' && CharOf(60) == '8';
    hide First, Second, Third, Group, CharOf;
    assert Sextets(b) == [25, 38, 60];
    PadThree(25, 38, 60);
  }

  lemma FooGroup(rest: seq<bv8>)
    ensures Chars(Sextets([0x66, 0x6F, 0x6F] + rest)) == "Zm9v" + Chars(Sextets(rest))
  {
    var g := Group(0x66, 0x6F, 0x6F);
    assert First(g) == 25 && Second(g) == 38 && Third(g) == 61 && Fourth(g) == 47;
    assert CharOf(25) == 'Z' && CharOf(38) == 'm' && CharOf(61) == '9' && CharOf(47) == 'v';
    hide First, Second, Third, Fourth, Group, CharOf;
    var b := [0x66, 0x6F, 0x6F] + rest;
    assert b[3..] == rest;
    assert Sextets(b) == [25, 38, 61, 47] + Sextets(rest);
    CharsAppend([25, 38, 61, 47], Sextets(rest));
    CharsFour(25, 38, 61, 47);
  }

  lemma BarGroup(b: seq<bv8>)
    requires b == [0x62, 0x61, 0x72]
    ensures Chars(Sextets(b)) == "YmFy"
  {
    var h := Group(0x62, 0x61, 0x72);
    assert First(h) == 24 && Second(h) == 38 && Third(h) == 5 && Fourth(h) == 50;
    assert CharOf(24) == 'Y' && CharOf(38) == 'm' && CharOf(5) == 'F' && CharOf(50) == 'y';
    hide First, Second, Third, Fourth, Group, CharOf;
    assert b[3..] == [];
    assert Sextets(b) == [24, 38, 5, 50];
    CharsFour(24, 38, 5, 50);
  }

  /** `foobar` is `Zm9vYmFy`. */
  lemma SixOctets(b: seq<bv8>)
    requires b == [0x66, 0x6F, 0x6F, 0x62, 0x61, 0x72]
    ensures Encode(b) == "Zm9vYmFy"
  {
    hide Chars, Sextets;
    var rest := [0x62, 0x61, 0x72];
    assert b == [0x66, 0x6F, 0x6F] + rest;
    FooGroup(rest);
    BarGroup(rest);
  }

  lemma LastLetters(b: seq<bv8>)
    requires b == [0xFB, 0xFF, 0xBF]
    ensures Encode(b) == "+/+/"
  {
    var g := Group(0xFB, 0xFF, 0xBF);
    assert First(g) == 62 && Second(g) == 63 && Third(g) == 62 && Fourth(g) == 63;
    assert CharOf(62) == '+' && CharOf(63) == '/';
    hide First, Second, Third, Fourth, Group, CharOf;
    assert b[3..] == [];
    assert Sextets(b) == [62, 63, 62, 63];
    CharsFour(62, 63, 62, 63);
  }

  /** C3 A9 is `w6k=`. */
  lemma AccentedOctets(b: seq<bv8>)
    requires b == [0xC3, 0xA9]
    ensures Encode(b) == "w6k="
  {
    var g := Group(0xC3, 0xA9, 0);
    assert First(g) == 48 && Second(g) == 58 && Third(g) == 36;
    assert CharOf(48) == 'w' && CharOf(58) == '6' && CharOf(36) == 'k';
    hide First, Second, Third, Group, CharOf;
    assert Sextets(b) == [48, 58, 36];
    PadThree(48, 58, 36);
  }

  /** Section 4: the four indices of a group are the digits to base 64 of the number whose digits to base 256 are the octets. */
  lemma SameNumber(a: bv8, b: bv8, c: bv8)
    ensures var g := Group(a, b, c);
      ((First(g) as bv24) << 18) + ((Second(g) as bv24) << 12) + ((Third(g) as bv24) << 6) + (Fourth(g) as bv24) ==
      ((a as bv24) << 16) + ((b as bv24) << 8) + (c as bv24)
  {
  }
}
