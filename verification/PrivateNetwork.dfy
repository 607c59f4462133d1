/** IPv4 parsing, CIDR tests and the host extraction of PrivateNetwork.ets. */
module PrivateNetwork {
  import opened JsText
  import opened JsBits
  import opened Decimal
  import opened IdnUrl

  // ---- IPv4 addresses

  function ReadOctets(octets: seq<Text>, result: nat): int {
    if octets == [] then result
    else if !IsDecimal(octets[0]) then -1
    else if Value(octets[0]) > 255 then -1
    else ReadOctets(octets[1..], result * 256 + Value(octets[0]))
  }

  function ParseIpv4(ip: Text): int {
    var octets := Split(ip, DOT);
    if |octets| != 4 then -1 else ReadOctets(octets, 0)
  }

  method ParseIpv4ToLong(ip: Text) returns (r: int)
    ensures r == ParseIpv4(ip)
  {
    hide AllDigits, Value;
    var octets := Split(ip, DOT);
    if |octets| != 4 {
      return -1;
    }
    var result: nat := 0;
    for index := 0 to |octets|
      invariant ReadOctets(octets, 0) == ReadOctets(octets[index..], result)
    {
      assert octets[index..][1..] == octets[index + 1..];
      var text := octets[index];
      if !IsDecimal(text) {
        return -1;
      }
      var octet := Value(text);
      if octet > 255 {
        return -1;
      }
      result := result * 256 + octet;
    }
    return result;
  }

  lemma ReadFour(octets: seq<Text>)
    requires |octets| == 4
    ensures var r := ReadOctets(octets, 0);
      if forall i | 0 <= i < 4 :: IsDecimal(octets[i]) && Value(octets[i]) <= 255
      then r == ((Value(octets[0]) * 256 + Value(octets[1])) * 256 + Value(octets[2])) * 256 + Value(octets[3])
      else r == -1
  {
    hide AllDigits, Value;
    ReadOne(octets, 0);
    if IsDecimal(octets[0]) && Value(octets[0]) <= 255 {
      var a := Value(octets[0]);
      ReadOne(octets[1..], a);
      if IsDecimal(octets[1]) && Value(octets[1]) <= 255 {
        var b := a * 256 + Value(octets[1]);
        assert octets[1..][1..] == octets[2..];
        ReadOne(octets[2..], b);
        if IsDecimal(octets[2]) && Value(octets[2]) <= 255 {
          assert octets[2..][1..] == octets[3..];
          ReadOne(octets[3..], b * 256 + Value(octets[2]));
          assert octets[3..][1..] == [];
        }
      }
    }
  }

  lemma ReadOne(octets: seq<Text>, result: nat)
    requires octets != []
    ensures ReadOctets(octets, result) ==
            if IsDecimal(octets[0]) && Value(octets[0]) <= 255
            then ReadOctets(octets[1..], result * 256 + Value(octets[0])) else -1
    ensures ReadOctets([], result) == result
  {
  }

  function DottedQuad(a: nat, b: nat, c: nat, d: nat): Text {
    Join([Print(a), Print(b), Print(c), Print(d)], DOT)
  }

  /** Parsing gives a 32-bit address or -1, and inverts dotted-quad printing. */
  lemma ParseRange(ip: Text)
    ensures -1 <= ParseIpv4(ip) < 0x1_0000_0000
  {
    hide AllDigits, Value, ReadOctets;
    var octets := Split(ip, DOT);
    if |octets| == 4 {
      ReadFour(octets);
    }
  }

  lemma ParseInvertsPrint(a: nat, b: nat, c: nat, d: nat)
    requires a <= 255 && b <= 255 && c <= 255 && d <= 255
    ensures ParseIpv4(DottedQuad(a, b, c, d)) == ((a * 256 + b) * 256 + c) * 256 + d
  {
    hide AllDigits, Value, Print, ReadOctets, Join;
    var octets := [Print(a), Print(b), Print(c), Print(d)];
    NoDot(a);
    NoDot(b);
    NoDot(c);
    NoDot(d);
    SplitOfJoin(octets, DOT);
    ReadFour(octets);
    ValueOfPrint(a);
    ValueOfPrint(b);
    ValueOfPrint(c);
    ValueOfPrint(d);
  }

  lemma NoDot(n: nat)
    ensures DOT !in Print(n) && SLASH !in Print(n)
  {
    PrintIsDecimal(n);
  }

  // ---- CIDR

  /** The int32 shift-and-mask comparison. */
  predicate SameMasked(ip: nat, net: nat, prefix: nat)
    requires prefix <= 32
  {
    var mask := ShiftRightUnsigned(ShiftLeft(0xFFFF_FFFF, 32 - prefix), 0);
    ShiftRightUnsigned(And(ip, mask), 0) == ShiftRightUnsigned(And(net, mask), 0)
  }

  predicate InCidr(ip: Text, cidr: Text) {
    var slash := IndexOf(cidr, SLASH, 0);
    if slash < 0 then false
    else
      var prefixText := cidr[slash + 1..];
      if !IsDecimal(prefixText) then false
      else
        var prefix := Value(prefixText);
        if prefix > 32 then false
        else
          var ipLong, cidrLong := ParseIpv4(ip), ParseIpv4(cidr[..slash]);
          if ipLong < 0 || cidrLong < 0 then false
          else if prefix == 0 then true
          else SameMasked(ipLong, cidrLong, prefix)
  }

  lemma {:induction false} DoubleWord(k: nat)
    ensures Double(0xFFFF_FFFF, k) == Double(0x1_0000_0000, k) - Pow2(k)
    ensures Double(0x1_0000_0000, k) % 0x1_0000_0000 == 0
  {
    if k > 0 {
      DoubleWord(k - 1);
    }
  }

  lemma {:induction false} Pow2Grows(j: nat, k: nat)
    requires j <= k
    ensures Pow2(j) <= Pow2(k)
  {
    if j < k {
      Pow2Grows(j, k - 1);
    }
  }

  lemma FourDoublings(x: int)
    ensures Double(x, 4) == 16 * x
  {
    assert Double(x, 1) == 2 * x;
    assert Double(x, 2) == 2 * Double(x, 1);
    assert Double(x, 3) == 2 * Double(x, 2);
  }

  lemma Pow2Next(k: nat)
    ensures Pow2(k + 4) == 16 * Pow2(k)
  {
    hide Double;
    DoubleAdds(1, k, 4);
    FourDoublings(Double(1, k));
  }

  lemma Pow2Of32()
    ensures Pow2(16) == 0x1_0000 && Pow2(20) == 0x10_0000 && Pow2(24) == 0x100_0000
    ensures Pow2(28) == 0x1000_0000 && Pow2(31) == 0x8000_0000 && Pow2(32) == 0x1_0000_0000
  {
    assert Pow2(0) == 1 && Pow2(32) == 2 * Pow2(31);
    hide Pow2;
    Pow2Next(0);
    Pow2Next(4);
    Pow2Next(8);
    Pow2Next(12);
    Pow2Next(16);
    Pow2Next(20);
    Pow2Next(24);
    Pow2Next(28);
  }

  lemma RoundTripSigned(x: int)
    ensures ToUint32(ToInt32(x)) == ToUint32(x)
  {
  }

  /** The mask has its `prefix` high bits set. */
  lemma MaskIs(prefix: nat)
    requires 1 <= prefix <= 32
    ensures ShiftRightUnsigned(ShiftLeft(0xFFFF_FFFF, 32 - prefix), 0) == HighMask(prefix, 32 - prefix)
    ensures HighMask(prefix, 32 - prefix) < 0x1_0000_0000
  {
    hide Double;
    var k := 32 - prefix;
    assert k % 32 == k;
    DoubleWord(k);
    RoundTripSigned(Double(0xFFFF_FFFF, k));
    Pow2Of32();
    Pow2Grows(k, 31);
    HalveZero(ToUint32(ShiftLeft(0xFFFF_FFFF, k)));
  }

  lemma HalveZero(x: int)
    ensures Halve(x, 0 % 32) == x
  {
  }

  lemma {:induction false} AndBelow(x: nat, mask: nat)
    ensures AndBits(x, mask) <= x
  {
    if x > 0 && mask > 0 {
      AndBelow(x / 2, mask / 2);
    }
  }

  lemma MaskedIs(x: nat, mask: nat)
    requires x < 0x1_0000_0000 && mask < 0x1_0000_0000
    ensures ShiftRightUnsigned(And(x, mask), 0) == AndBits(x, mask)
  {
    hide AndBits, ToUint32, ToInt32, Halve;
    AndBelow(x, mask);
    Uint32Fixed(x);
    Uint32Fixed(mask);
    Uint32Fixed(AndBits(x, mask));
    RoundTripSigned(AndBits(x, mask));
    HalveZero(ToUint32(And(x, mask)));
  }

  lemma Uint32Fixed(x: nat)
    requires x < 0x1_0000_0000
    ensures ToUint32(x) == x
  {
  }

  lemma MaskIsPrefix(ip: nat, net: nat, prefix: nat)
    requires 1 <= prefix <= 32 && ip < 0x1_0000_0000 && net < 0x1_0000_0000
    ensures SameMasked(ip, net, prefix) <==> ip / Pow2(32 - prefix) == net / Pow2(32 - prefix)
  {
    hide AndBits, ShiftRightUnsigned, ShiftLeft, And, HighMask, Double, Halve, Pow2;
    var k := 32 - prefix;
    var mask := HighMask(prefix, k);
    MaskIs(prefix);
    MaskedIs(ip, mask);
    MaskedIs(net, mask);
    Pow2Of32();
    AndHighOnes(ip, prefix, k);
    AndHighOnes(net, prefix, k);
    HalveIsDivision(ip, k);
    HalveIsDivision(net, k);
    if Double(Halve(ip, k), k) == Double(Halve(net, k), k) {
      DoubleInjective(Halve(ip, k), Halve(net, k), k);
    }
  }

  /** The text test means: both parse, and the addresses agree on their first `prefix` bits. */
  lemma CidrMeansPrefix(ip: Text, cidr: Text)
    ensures InCidr(ip, cidr) <==>
      var slash := IndexOf(cidr, SLASH, 0);
      && slash >= 0
      && IsDecimal(cidr[slash + 1..])
      && Value(cidr[slash + 1..]) <= 32
      && ParseIpv4(ip) >= 0 && ParseIpv4(cidr[..slash]) >= 0
      && (var size := Pow2(32 - Value(cidr[slash + 1..]));
          ParseIpv4(ip) / size == ParseIpv4(cidr[..slash]) / size)
  {
    hide ParseIpv4, SameMasked, Pow2, AllDigits, Value;
    var slash := IndexOf(cidr, SLASH, 0);
    if slash >= 0 && IsDecimal(cidr[slash + 1..]) && Value(cidr[slash + 1..]) <= 32 {
      var prefix := Value(cidr[slash + 1..]);
      ParseRange(ip);
      ParseRange(cidr[..slash]);
      var x, net := ParseIpv4(ip), ParseIpv4(cidr[..slash]);
      if x >= 0 && net >= 0 {
        if prefix == 0 {
          Pow2Of32();
          assert Pow2(32 - prefix) == 0x1_0000_0000;
        } else {
          MaskIsPrefix(x, net, prefix);
        }
      }
    }
  }

  // ---- Private hosts

  datatype Cidr = Cidr(a: nat, b: nat, c: nat, d: nat, prefix: nat)

  function CidrText(r: Cidr): Text { DottedQuad(r.a, r.b, r.c, r.d) + [SLASH] + Print(r.prefix) }

  const PRIVATE_RANGES: seq<Cidr> := [
    Cidr(0, 0, 0, 0, 8),
    Cidr(10, 0, 0, 0, 8),
    Cidr(127, 0, 0, 0, 8),
    Cidr(172, 16, 0, 0, 12),
    Cidr(192, 168, 0, 0, 16),
    Cidr(169, 254, 0, 0, 16),
    Cidr(224, 0, 0, 0, 4)
  ]

  predicate IsPrivateHost(host: Text) {
    ParseIpv4(host) >= 0 && exists i :: 0 <= i < |PRIVATE_RANGES| && InCidr(host, CidrText(PRIVATE_RANGES[i]))
  }

  method IsLoopbackOrPrivateIpv4Host(host: Text) returns (r: bool)
    ensures r <==> IsPrivateHost(host)
  {
    hide InCidr, CidrText, ParseIpv4;
    var address := ParseIpv4ToLong(host);
    if address < 0 {
      return false;
    }
    for index := 0 to |PRIVATE_RANGES|
      invariant forall i | 0 <= i < index :: !InCidr(host, CidrText(PRIVATE_RANGES[i]))
    {
      if InCidr(host, CidrText(PRIVATE_RANGES[index])) {
        return true;
      }
    }
    return false;
  }

  function Address(r: Cidr): nat { ((r.a * 256 + r.b) * 256 + r.c) * 256 + r.d }

  predicate WellFormed(r: Cidr) { r.a <= 255 && r.b <= 255 && r.c <= 255 && r.d <= 255 && r.prefix <= 32 }

  lemma CidrTextParts(r: Cidr)
    requires WellFormed(r)
    ensures var text := CidrText(r);
      var slash := IndexOf(text, SLASH, 0);
      && slash >= 0
      && text[..slash] == DottedQuad(r.a, r.b, r.c, r.d)
      && text[slash + 1..] == Print(r.prefix)
  {
    hide Print, Join;
    var quad := DottedQuad(r.a, r.b, r.c, r.d);
    JoinElements([Print(r.a), Print(r.b), Print(r.c), Print(r.d)], DOT);
    NoDot(r.a);
    NoDot(r.b);
    NoDot(r.c);
    NoDot(r.d);
    assert SLASH !in quad;
    var text := CidrText(r);
    assert text[|quad|] == SLASH && forall j | 0 <= j < |quad| :: text[j] == quad[j];
  }

  /** Membership in one listed range, in terms of the address alone. */
  lemma InListed(host: Text, r: Cidr)
    requires WellFormed(r)
    ensures InCidr(host, CidrText(r)) <==>
            ParseIpv4(host) >= 0 && ParseIpv4(host) / Pow2(32 - r.prefix) == Address(r) / Pow2(32 - r.prefix)
  {
    hide InCidr, ParseIpv4, CidrText, Print, Pow2, DottedQuad, AllDigits, Value;
    CidrMeansPrefix(host, CidrText(r));
    CidrTextParts(r);
    ParseInvertsPrint(r.a, r.b, r.c, r.d);
    ValueOfPrint(r.prefix);
  }

  predicate InUnion(x: int) {
    || 0x0000_0000 <= x < 0x0100_0000
    || 0x0A00_0000 <= x < 0x0B00_0000
    || 0x7F00_0000 <= x < 0x8000_0000
    || 0xAC10_0000 <= x < 0xAC20_0000
    || 0xC0A8_0000 <= x < 0xC0A9_0000
    || 0xA9FE_0000 <= x < 0xA9FF_0000
    || 0xE000_0000 <= x < 0xF000_0000
  }

  lemma InListedInterval(host: Text, r: Cidr, size: nat)
    requires WellFormed(r) && size > 0 && size == Pow2(32 - r.prefix) && Address(r) % size == 0
    ensures InCidr(host, CidrText(r)) <==> Address(r) <= ParseIpv4(host) < Address(r) + size
  {
    hide InCidr, ParseIpv4, CidrText, Pow2;
    InListed(host, r);
    var q := Address(r) / size;
    assert q * size == Address(r);
    QuotientInterval(ParseIpv4(host), size, q);
  }

  /** The private test accepts exactly the union of the seven intervals. */
  lemma PrivateIsUnion(host: Text)
    ensures IsPrivateHost(host) <==> InUnion(ParseIpv4(host))
  {
    hide InCidr, ParseIpv4, CidrText, Pow2;
    Pow2Of32();
    InListedInterval(host, PRIVATE_RANGES[0], 0x100_0000);
    InListedInterval(host, PRIVATE_RANGES[1], 0x100_0000);
    InListedInterval(host, PRIVATE_RANGES[2], 0x100_0000);
    InListedInterval(host, PRIVATE_RANGES[3], 0x10_0000);
    InListedInterval(host, PRIVATE_RANGES[4], 0x1_0000);
    InListedInterval(host, PRIVATE_RANGES[5], 0x1_0000);
    InListedInterval(host, PRIVATE_RANGES[6], 0x1000_0000);
  }
}
