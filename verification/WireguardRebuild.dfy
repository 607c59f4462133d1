/** Build, edit, build again: when a WireGuard outbound survives its own editor. */
module WireguardRebuild {
  import opened JsText
  import opened JsTrim
  import opened Endpoint
  import opened ManualOutbound
  import Decimal

  // ---- Numbers

  lemma PrintedPort(n: Numerals, port: int)
    requires Faithful(n) && 1 <= port <= 65535
    ensures ParsePort(n, n.show(port)) == port
  {
    PrintedIsTrimmed(n, port);
    hide Trim;
  }

  lemma PrintedIsTrimmed(n: Numerals, i: int)
    requires Faithful(n) && n.exact(i)
    ensures IsPlain(n.show(i)) && n.show(i) != [] && IsTrimmed(n.show(i))
    ensures Trim(n.show(i)) == n.show(i)
    ensures n.parse(n.show(i)) == Finite(i as real) && COMMA !in n.show(i)
  {
    var text := n.show(i);
    assert IsPlain(text);
    assert text[0] in text && text[|text| - 1] in text;
    hide Trim;
  }

  lemma PrintedInt(n: Numerals, x: JsonNumber, fallback: int)
    requires Faithful(n) && n.exact(fallback) && fallback > 0 && (x.Int? ==> n.exact(x.value))
    ensures ParsePositiveInt(n, NumberString(n, x, n.show(fallback)), fallback) ==
            if x.Int? && x.value >= 1 then x else Int(fallback)
  {
    PrintedIsTrimmed(n, if x.Int? then x.value else fallback);
    hide Trim;
  }

  // ---- Numerals there are

  /** `0.5` and `Infinity` */
  const HALF: Text := [0x30, 0x2E, 0x35]
  const INFINITY: Text := [0x49, 0x6E, 0x66, 0x69, 0x6E, 0x69, 0x74, 0x79]

  function PrintInt(i: int): Text { if i >= 0 then Decimal.Print(i) else [HYPHEN] + Decimal.Print(-i) }

  function ParseText(text: Text): Number {
    if Decimal.IsDecimal(text) then Finite(Decimal.Value(text) as real)
    else if text != [] && text[0] == HYPHEN && Decimal.IsDecimal(text[1..]) then
      Finite(-(Decimal.Value(text[1..]) as real))
    else if text == HALF then Finite(0.5)
    else if text == INFINITY then Infinite(true)
    else NotANumber
  }

  function EveryInt(i: int): bool { true }

  /** Signed decimals, a half and infinity. */
  const DECIMALS: Numerals := Numerals(ParseText, PrintInt, EveryInt)

  lemma DecimalsAreFaithful()
    ensures Faithful(DECIMALS)
    ensures DECIMALS.parse(Trim(HALF)) == Finite(0.5) && DECIMALS.parse(Trim(INFINITY)) == Infinite(true)
  {
    forall i: int | DECIMALS.exact(i)
      ensures DECIMALS.parse(DECIMALS.show(i)) == Finite(i as real) && IsPlain(DECIMALS.show(i)) && COMMA !in DECIMALS.show(i)
    {
      PrintedDecimal(i);
    }
    ReadsConstants();
  }

  lemma ReadsConstants()
    ensures ParseText(Trim(HALF)) == Finite(0.5) && ParseText(Trim(INFINITY)) == Infinite(true)
  {
    hide Trim, Decimal.Value;
    assert IsTrimmed(HALF) && IsTrimmed(INFINITY);
    assert !Decimal.IsDecimalDigit(HALF[1]) && !Decimal.IsDecimalDigit(INFINITY[0]);
  }

  lemma PrintedDecimal(i: int)
    ensures ParseText(PrintInt(i)) == Finite(i as real) && IsPlain(PrintInt(i)) && COMMA !in PrintInt(i)
  {
    hide Decimal.Print, Decimal.Value;
    var size: nat := if i >= 0 then i else -i;
    var digits := Decimal.Print(size);
    Decimal.ValueOfPrint(size);
    Decimal.PrintIsDecimal(size);
    if i < 0 {
      assert PrintInt(i)[1..] == digits && !Decimal.IsDecimalDigit(HYPHEN);
    }
  }

  // ---- Lists

  predicate IsAddressList(parts: seq<Text>) {
    parts != [] && forall p | p in parts :: p != [] && IsTrimmed(p) && COMMA !in p
  }

  lemma SplitIsAddressList(value: Text)
    ensures IsAddressList(SplitCsvWithDefault(value, DEFAULT_ADDRESS))
  {
    NonBlankLacks(Split(value, COMMA), COMMA);
    hide NonBlank, Split;
  }

  lemma {:induction false} TextParts(n: Numerals, texts: seq<Text>)
    ensures CsvParts(n, TextItems(texts)) == texts
  {
    var items := TextItems(texts);
    if texts != [] {
      var k := |texts| - 1;
      assert items[..k] == TextItems(texts[..k]) && items[k] == TextItem(texts[k]);
      assert texts[..k] + [texts[k]] == texts;
      TextParts(n, texts[..k]);
    }
  }

  lemma AddressesReturn(n: Numerals, parts: seq<Text>)
    requires IsAddressList(parts)
    ensures SplitCsvWithDefault(Csv(n, TextItems(parts), DEFAULT_ADDRESS), DEFAULT_ADDRESS) == parts
  {
    TextParts(n, parts);
    forall i | 0 <= i < |parts| ensures COMMA !in parts[i] {
      assert parts[i] in parts;
    }
    hide NonBlank, Split, Join, CsvParts, TextItems, IsTrimmed;
    SplitOfJoin(parts, COMMA);
    NonBlankStays(parts);
  }

  function Printed(n: Numerals, numbers: seq<int>): seq<Text> {
    seq(|numbers|, i requires 0 <= i < |numbers| => n.show(numbers[i]))
  }

  /** The integers of a JSON list, without its nulls. */
  function Ints(numbers: seq<JsonNumber>): seq<int> {
    if numbers == [] then []
    else
      var k := |numbers| - 1;
      Ints(numbers[..k]) + (if numbers[k].Int? then [numbers[k].value] else [])
  }

  function Wrapped(numbers: seq<int>): seq<JsonNumber> {
    seq(|numbers|, i requires 0 <= i < |numbers| => Int(numbers[i]))
  }

  predicate AllInts(numbers: seq<JsonNumber>) { forall x | x in numbers :: x.Int? }

  predicate AllExact(n: Numerals, numbers: seq<JsonNumber>) { forall x | x in numbers && x.Int? :: n.exact(x.value) }

  lemma {:induction false} IntsAreExact(n: Numerals, numbers: seq<JsonNumber>)
    requires AllExact(n, numbers)
    ensures forall i | i in Ints(numbers) :: n.exact(i)
  {
    if numbers != [] {
      var k := |numbers| - 1;
      assert numbers[k] in numbers && forall x | x in numbers[..k] :: x in numbers;
      IntsAreExact(n, numbers[..k]);
    }
  }

  lemma {:induction false} IntsOfInts(numbers: seq<JsonNumber>)
    requires AllInts(numbers)
    ensures Wrapped(Ints(numbers)) == numbers
  {
    if numbers != [] {
      var k := |numbers| - 1;
      assert numbers[k] in numbers && forall x | x in numbers[..k] :: x in numbers;
      assert numbers[..k] + [numbers[k]] == numbers;
      IntsOfInts(numbers[..k]);
      assert Wrapped(Ints(numbers)) == Wrapped(Ints(numbers[..k])) + [numbers[k]];
    }
  }

  /** The field shows the integers; the nulls are left out. */
  lemma {:induction false} NumberParts(n: Numerals, numbers: seq<JsonNumber>)
    ensures CsvParts(n, NumberItems(numbers)) == Printed(n, Ints(numbers))
  {
    var items := NumberItems(numbers);
    if numbers != [] {
      var k := |numbers| - 1;
      assert items[..k] == NumberItems(numbers[..k]);
      assert numbers[k].Int? ==>
        Printed(n, Ints(numbers)) == Printed(n, Ints(numbers[..k])) + [n.show(numbers[k].value)];
      NumberParts(n, numbers[..k]);
    }
  }

  lemma {:induction false} PrintedAreRead(n: Numerals, numbers: seq<int>)
    requires Faithful(n) && forall i | i in numbers :: n.exact(i)
    ensures NumbersOf(n, Printed(n, numbers)) == Wrapped(numbers)
  {
    var texts := Printed(n, numbers);
    if numbers != [] {
      var k := |numbers| - 1;
      assert texts[..k] == Printed(n, numbers[..k]);
      assert Wrapped(numbers) == Wrapped(numbers[..k]) + [Int(numbers[k])];
      assert numbers[k] in numbers && forall i | i in numbers[..k] :: i in numbers;
      hide Faithful;
      PrintedAreRead(n, numbers[..k]);
      PrintedIsTrimmed(n, numbers[k]);
      hide Trim, IsPlain, IsTrimmed;
    }
  }

  lemma ZerosAreRead(n: Numerals)
    requires Faithful(n)
    ensures ZEROS == Join(Printed(n, [0, 0, 0]), COMMA)
  {
    var texts := Printed(n, [0, 0, 0]);
    assert texts == [[0x30], [0x30], [0x30]];
    assert texts[1..] == [[0x30], [0x30]] && texts[1..][1..] == [[0x30]];
    assert Join(texts[1..][1..], COMMA) == [0x30];
    assert Join(texts[1..], COMMA) == [0x30] + [COMMA] + [0x30];
  }

  /** What comes back: the integers of the list, or zeros if it had none. */
  function Returned(numbers: seq<JsonNumber>): seq<JsonNumber> {
    Wrapped(if Ints(numbers) == [] then [0, 0, 0] else Ints(numbers))
  }

  lemma NumbersReturn(n: Numerals, numbers: seq<JsonNumber>)
    requires Faithful(n) && AllExact(n, numbers)
    ensures NumberCsvWithDefault(n, Csv(n, NumberItems(numbers), ZEROS), DEFAULT_RESERVED) == Returned(numbers)
  {
    var ints := if Ints(numbers) == [] then [0, 0, 0] else Ints(numbers);
    var texts := Printed(n, ints);
    NumberParts(n, numbers);
    ZerosAreRead(n);
    IntsAreExact(n, numbers);
    assert n.exact(0);
    forall i | 0 <= i < |texts| ensures COMMA !in texts[i] {
      assert ints[i] in ints;
      PrintedIsTrimmed(n, ints[i]);
    }
    PrintedAreRead(n, ints);
    hide Faithful, Split, Join, CsvParts, NumberItems, NumbersOf, Ints;
    SplitOfJoin(texts, COMMA);
  }

  /** A list comes back unchanged exactly if it holds no null. */
  lemma ReturnedIsSame(numbers: seq<JsonNumber>)
    requires numbers != []
    ensures Returned(numbers) == numbers <==> AllInts(numbers)
  {
    if AllInts(numbers) {
      IntsOfInts(numbers);
    }
  }

  // ---- The rebuilt outbound

  /** What every built outbound is. */
  predicate IsBuilt(n: Numerals, o: Wireguard, host: Text, port: int) {
    && IsHost(host) && 1 <= port <= 65535 && o.endpoint == FormatEndpoint(host, n.show(port))
    && o.tag != [] && IsTrimmed(o.tag)
    && o.secretKey != [] && IsTrimmed(o.secretKey) && o.publicKey != [] && IsTrimmed(o.publicKey)
    && (o.preSharedKey.Some? ==> o.preSharedKey.value != [] && IsTrimmed(o.preSharedKey.value))
    && IsAddressList(o.address) && o.reserved != [] && AllExact(n, o.reserved)
    && (o.mtu.Int? ==> o.mtu.value >= 0 && n.exact(o.mtu.value))
  }

  lemma TagAndPort(n: Numerals, tag: Text, port: Text)
    ensures NormalizeTag(tag) != [] && IsTrimmed(NormalizeTag(tag))
    ensures 0 <= ParsePort(n, port) <= 65535
  {
    assert IsTrimmed(PROXY);
    hide Trim;
  }

  lemma {:induction false} ReadAreExact(n: Numerals, parts: seq<Text>)
    requires Faithful(n)
    ensures AllExact(n, NumbersOf(n, parts))
  {
    if parts != [] {
      hide Trim;
      ReadAreExact(n, parts[..|parts| - 1]);
    }
  }

  lemma NumbersAreExact(n: Numerals, mtu: Text, reserved: Text)
    requires Faithful(n)
    ensures var x := ParsePositiveInt(n, mtu, 1280); x.Int? ==> x.value >= 0 && n.exact(x.value)
    ensures var r := NumberCsvWithDefault(n, reserved, DEFAULT_RESERVED); r != [] && AllExact(n, r)
  {
    ReadAreExact(n, Split(reserved, COMMA));
    assert n.exact(1280) && n.exact(0);
    hide Trim, NumbersOf, Split;
  }

  lemma BuildIsBuilt(n: Numerals, form: WireguardForm, o: Wireguard)
    requires Faithful(n) && WireguardBuilt(n, form) == Success(o)
    ensures IsBuilt(n, o, Trim(form.host), ParsePort(n, form.port))
  {
    hide Faithful, Trim, IsTrimmed, SplitCsvWithDefault, NumberCsvWithDefault, FormatEndpoint, IsAddressList, NormalizeTag,
      ParsePort, ParsePositiveInt, AllExact;
    SplitIsAddressList(form.localAddress);
    TagAndPort(n, form.tag, form.port);
    NumbersAreExact(n, form.mtu, form.reserved);
  }

  /** Everything but the endpoint, an MTU below 1 or null, and nulls in the reserved list comes back as it was. */
  lemma Rebuilt(n: Numerals, o: Wireguard, host: Text, port: int)
    requires Faithful(n) && IsBuilt(n, o, host, port)
    ensures var form := WireguardEdited(n, o); var newPort := ParsePort(n, form.port);
      WireguardBuilt(n, form) ==
      if form.host == [] || newPort == 0 then Failed(BadServer)
      else Success(o.(endpoint := FormatEndpoint(form.host, n.show(newPort)), reserved := Returned(o.reserved),
                      mtu := if o.mtu.Int? && o.mtu.value >= 1 then o.mtu else Int(1280)))
  {
    assert n.exact(1280);
    AddressesReturn(n, o.address);
    NumbersReturn(n, o.reserved);
    PrintedInt(n, o.mtu, 1280);
    hide Faithful, Trim, IsTrimmed, Csv, SplitCsvWithDefault, NumberCsvWithDefault, FormatEndpoint, ParseEndpoint,
      IsAddressList, ParsePort, ParsePositiveInt, TextItems, NumberItems, NumberString, Returned;
  }

  /**
   A successful build comes back unchanged from the editor exactly if its MTU is a number of at least 1, its
   reserved list holds no null, and its host survives its own endpoint text.
   */
  lemma RebuildIsIdentity(n: Numerals, form: WireguardForm, o: Wireguard)
    requires Faithful(n) && WireguardBuilt(n, form) == Success(o)
    ensures Trim(form.host) != []
    ensures WireguardBuilt(n, WireguardEdited(n, o)) == Success(o) <==>
      o.mtu.Int? && o.mtu.value >= 1 && AllInts(o.reserved) && Survives(Trim(form.host))
  {
    var host, port := Trim(form.host), ParsePort(n, form.port);
    BuildIsBuilt(n, form, o);
    Rebuilt(n, o, host, port);
    ReturnedIsSame(o.reserved);
    var edited := WireguardEdited(n, o);
    var newPort := ParsePort(n, edited.port);
    TagAndPort(n, form.tag, edited.port);
    assert n.exact(port) && n.exact(newPort);
    PrintedIsTrimmed(n, port);
    PrintedPort(n, port);
    hide Faithful, Trim, IsTrimmed, FormatEndpoint, ParseEndpoint, ParsePort, WireguardBuilt, Survives, IsPlain,
      Returned, AllInts;
    if Survives(host) {
      SurvivorsReturn(host, n.show(port));
    } else if edited.host != [] && newPort != 0 && FormatEndpoint(edited.host, n.show(newPort)) == o.endpoint {
      PrintedIsTrimmed(n, newPort);
      OnlySurvivorsReturn(host, n.show(port), n.show(newPort));
    }
  }

  /** The MTU is a number of at least 1 exactly if what was typed is neither infinite nor between 0 and 1. */
  lemma MtuOfBuild(n: Numerals, form: WireguardForm, o: Wireguard)
    requires WireguardBuilt(n, form) == Success(o)
    ensures var typed := n.parse(Trim(form.mtu));
      o.mtu.Int? && o.mtu.value >= 1 <==> typed != Infinite(true) && !(typed.Finite? && 0.0 < typed.value < 1.0)
  {
    hide Trim, SplitCsvWithDefault, NumberCsvWithDefault, FormatEndpoint, NormalizeTag, Present;
  }

  predicate ReadsInfinite(n: Numerals, part: Text) { Trim(part) != [] && n.parse(Trim(part)).Infinite? }

  lemma {:induction false} InfinitePartsAreNull(n: Numerals, parts: seq<Text>)
    ensures AllInts(NumbersOf(n, parts)) <==> forall part | part in parts :: !ReadsInfinite(n, part)
  {
    if parts == [] {
      assert NumbersOf(n, parts) == [];
    } else {
      var k := |parts| - 1;
      hide Trim;
      assert forall p :: p in parts <==> p in parts[..k] || p == parts[k];
      InfinitePartsAreNull(n, parts[..k]);
      var last := if Trim(parts[k]) == [] || n.parse(Trim(parts[k])).NotANumber? then [] else [Floored(n.parse(Trim(parts[k])))];
      assert NumbersOf(n, parts) == NumbersOf(n, parts[..k]) + last;
      assert last != [] ==> last[0] in last;
      assert AllInts(last) <==> !ReadsInfinite(n, parts[k]);
      AllIntsAppend(NumbersOf(n, parts[..k]), last);
      hide NumbersOf, AllInts, ReadsInfinite;
    }
  }

  lemma AllIntsAppend(a: seq<JsonNumber>, b: seq<JsonNumber>)
    ensures AllInts(a + b) <==> AllInts(a) && AllInts(b)
  {
    assert forall x :: x in a + b <==> x in a || x in b;
  }

  /** The reserved list holds no null exactly if no part of what was typed reads as infinite. */
  lemma ReservedOfBuild(n: Numerals, form: WireguardForm, o: Wireguard)
    requires WireguardBuilt(n, form) == Success(o)
    ensures AllInts(o.reserved) <==> forall part | part in Split(form.reserved, COMMA) :: !ReadsInfinite(n, part)
  {
    InfinitePartsAreNull(n, Split(form.reserved, COMMA));
    hide Trim, NumbersOf, Split, ReadsInfinite, SplitCsvWithDefault, FormatEndpoint, NormalizeTag, Present, ParsePort, ParsePositiveInt;
  }

  // ---- Builds that do not come back

  /** `[a]` and `a` */
  const BRACKETED_NAME: Text := [OPEN_BRACKET, 0x61, CLOSE_BRACKET]
  const NAME: Text := [0x61]

  function FormFor(n: Numerals, host: Text, mtu: Text, reserved: Text): WireguardForm {
    WireguardForm([], host, n.show(51820), NAME, NAME, [], [], reserved, mtu)
  }

  lemma FormBuilds(n: Numerals, host: Text, mtu: Text, reserved: Text)
    requires Faithful(n) && host != [] && IsTrimmed(host)
    ensures Trim(host) == host
    ensures WireguardBuilt(n, FormFor(n, host, mtu, reserved)).Success?
    ensures WireguardBuilt(n, FormFor(n, host, mtu, reserved)).outbound.mtu == ParsePositiveInt(n, mtu, 1280)
  {
    PrintedPort(n, 51820);
    assert IsTrimmed(NAME);
    hide Faithful, Trim, IsTrimmed, ParsePort, ParsePositiveInt, SplitCsvWithDefault, NumberCsvWithDefault, FormatEndpoint;
  }

  /** A name in brackets loses them: the host `[a]` is built, but the rebuilt endpoint is another. */
  lemma BracketedNameIsLost(n: Numerals, form: WireguardForm)
    requires Faithful(n) && form == FormFor(n, BRACKETED_NAME, n.show(1280), [])
    ensures var built := WireguardBuilt(n, form);
      built.Success? && WireguardBuilt(n, WireguardEdited(n, built.outbound)) != built
  {
    assert IsTrimmed(BRACKETED_NAME);
    BracketedNameDoesNotSurvive(BRACKETED_NAME);
    hide Faithful, Trim, IsTrimmed, Survives, WireguardBuilt, WireguardEdited, ParsePositiveInt;
    FormBuilds(n, BRACKETED_NAME, n.show(1280), []);
    RebuildIsIdentity(n, form, WireguardBuilt(n, form).outbound);
  }

  lemma BracketedNameDoesNotSurvive(host: Text)
    requires host == [OPEN_BRACKET, 0x61, CLOSE_BRACKET]
    ensures !Survives(host)
  {
    assert host[2] in host;
  }

  /** An MTU typed as one half is built as 0 and rebuilt as 1280; one typed as infinite is null in between. */
  lemma OddMtuIsLost(n: Numerals, mtu: Text, form: WireguardForm)
    requires Faithful(n) && form == FormFor(n, NAME, mtu, [])
    requires n.parse(Trim(mtu)) == Finite(0.5) || n.parse(Trim(mtu)) == Infinite(true)
    ensures var built := WireguardBuilt(n, form);
      && built.Success? && (built.outbound.mtu == if n.parse(Trim(mtu)).Finite? then Int(0) else Null)
      && WireguardBuilt(n, WireguardEdited(n, built.outbound)) != built
  {
    assert IsTrimmed(NAME);
    assert ParsePositiveInt(n, mtu, 1280) == if n.parse(Trim(mtu)).Finite? then Int(0) else Null;
    hide Faithful, Trim, IsTrimmed, Survives, WireguardBuilt, WireguardEdited, ParsePositiveInt;
    FormBuilds(n, NAME, mtu, []);
    RebuildIsIdentity(n, form, WireguardBuilt(n, form).outbound);
  }

  /** A reserved list of one infinite number is a list of one null in between, and rebuilt as three zeros. */
  lemma InfiniteReservedIsLost(n: Numerals, reserved: Text, form: WireguardForm)
    requires Faithful(n) && form == FormFor(n, NAME, n.show(1280), reserved)
    requires COMMA !in reserved && ReadsInfinite(n, reserved)
    ensures var built := WireguardBuilt(n, form);
      built.Success? && WireguardBuilt(n, WireguardEdited(n, built.outbound)) != built
  {
    assert IsTrimmed(NAME);
    SplitWhole(reserved, COMMA);
    assert reserved in [reserved];
    hide Faithful, Trim, IsTrimmed, Survives, WireguardBuilt, WireguardEdited, ParsePositiveInt, AllInts, ReadsInfinite;
    FormBuilds(n, NAME, n.show(1280), reserved);
    ReservedOfBuild(n, form, WireguardBuilt(n, form).outbound);
    RebuildIsIdentity(n, form, WireguardBuilt(n, form).outbound);
  }

  /** With numerals that read them. */
  lemma HalfAndInfiniteAreLost(text: Text, form: WireguardForm)
    requires (text == HALF || text == INFINITY) && form == FormFor(DECIMALS, NAME, text, [])
    ensures var built := WireguardBuilt(DECIMALS, form);
      built.Success? && WireguardBuilt(DECIMALS, WireguardEdited(DECIMALS, built.outbound)) != built
  {
    hide Faithful, Trim, WireguardBuilt, WireguardEdited;
    DecimalsAreFaithful();
    OddMtuIsLost(DECIMALS, text, form);
  }
}
