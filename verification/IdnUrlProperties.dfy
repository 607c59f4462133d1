/** What the URL rewriter keeps, and when the host it wrote is the host that is read back. */
module IdnUrlProperties {
  import opened JsText
  import opened Unicode16
  import opened Punycode
  import opened PunycodeDecoder
  import opened Rfc3492
  import opened IdnUrl

  // ---- Counting one unit

  function Count(s: Text, c: Unit): nat {
    if s == [] then 0 else (if s[0] == c then 1 else 0) + Count(s[1..], c)
  }

  lemma {:induction false} CountAppend(a: Text, b: Text, c: Unit)
    ensures Count(a + b, c) == Count(a, c) + Count(b, c)
  {
    if a == [] {
      assert a + b == b;
    } else {
      assert a + b == [a[0]] + (a[1..] + b);
      CountAppend(a[1..], b, c);
    }
  }

  lemma {:induction false} CountMember(s: Text, c: Unit)
    ensures Count(s, c) > 0 <==> c in s
  {
    if s != [] {
      CountMember(s[1..], c);
      assert c in s <==> s[0] == c || c in s[1..];
    }
  }

  /** A unit that Punycode output neither adds nor drops. */
  predicate Kept(c: Unit) { c < 0x80 && c != HYPHEN && c != DOT && !IsDigit(c) }

  lemma {:induction false} CountBasic(s: Text, c: Unit)
    requires c < 0x80
    ensures Count(BasicUnits(CodePoints(s)), c) == Count(s, c)
  {
    if s == [] {
    } else if IsHigh(s[0]) && |s| > 1 && IsLow(s[1]) {
      var points := CodePoints(s[2..]);
      assert s == [s[0], s[1]] + s[2..];
      assert CodePoints(s)[1..] == points;
      CountAppend([s[0], s[1]], s[2..], c);
      CountBasic(s[2..], c);
    } else {
      var points := CodePoints(s[1..]);
      assert CodePoints(s)[1..] == points;
      CountBasic(s[1..], c);
      if s[0] < 0x80 {
        assert BasicUnits(CodePoints(s)) == [s[0]] + BasicUnits(points);
      }
    }
  }

  /** The four parts of a converted label. */
  lemma LabelParts(s: Text) returns (basic: Text, ending: Text)
    requires NotAscii(s)
    ensures AsciiLabel(s) == ACE_PREFIX + basic + ending
    ensures basic == BasicUnits(CodePoints(s)) && forall u | u in basic :: u < 0x80
    ensures forall u | u in ending :: u == HYPHEN || IsDigit(u)
  {
    hide CodePoints, Encoded, BasicPart, BasicUnits;
    AsciiPoints(s);
    basic := BasicUnits(CodePoints(s));
    var digits := EncodedShape(CodePoints(s));
    ending := (if basic == [] then [] else [HYPHEN]) + digits;
    assert ACE_PREFIX + (basic + (if basic == [] then [] else [HYPHEN]) + digits) == ACE_PREFIX + basic + ending;
    BasicIsAscii(CodePoints(s));
  }

  lemma CountLabel(s: Text, c: Unit)
    requires Kept(c)
    ensures Count(AsciiLabel(s), c) == Count(s, c)
  {
    if NotAscii(s) {
      hide CodePoints, BasicUnits, Count, AsciiLabel;
      var basic, ending := LabelParts(s);
      CountAppend(ACE_PREFIX + basic, ending, c);
      CountAppend(ACE_PREFIX, basic, c);
      CountMember(ACE_PREFIX, c);
      CountMember(ending, c);
      CountBasic(s, c);
    }
  }

  lemma {:induction false} CountJoin(a: seq<Text>, b: seq<Text>, c: Unit)
    requires |a| == |b| && forall i | 0 <= i < |a| :: Count(a[i], c) == Count(b[i], c)
    ensures Count(Join(a, DOT), c) == Count(Join(b, DOT), c)
  {
    if |a| > 1 {
      CountAppend(a[0] + [DOT], Join(a[1..], DOT), c);
      CountAppend(b[0] + [DOT], Join(b[1..], DOT), c);
      CountAppend(a[0], [DOT], c);
      CountAppend(b[0], [DOT], c);
      CountJoin(a[1..], b[1..], c);
    }
  }

  lemma {:induction false} CountDots(s: Text, c: Unit)
    requires c < 0x80 && c != DOT
    ensures Count(NormalizedDots(s), c) == Count(s, c)
  {
    if s != [] {
      assert NormalizedDots(s)[1..] == NormalizedDots(s[1..]);
      CountDots(s[1..], c);
    }
  }

  /** The conversion neither adds nor drops a '/', '?', '#', '@', ':', '[' or ']'. */
  lemma {:induction false} CountDomain(domain: Text, c: Unit)
    requires Kept(c)
    ensures Count(IdnDomain(domain), c) == Count(domain, c)
  {
    if NotAscii(domain) {
      hide AsciiLabel, Count;
      var labels := Labels(domain);
      forall i | 0 <= i < |labels|
        ensures Count(AsciiLabels(labels)[i], c) == Count(labels[i], c)
      {
        CountLabel(labels[i], c);
      }
      CountJoin(AsciiLabels(labels), labels, c);
      JoinOfSplit(NormalizedDots(domain), DOT);
      CountDots(domain, c);
    }
  }

  // ---- The new host

  lemma AsciiLabelUnits(s: Text, u: Unit)
    requires u in AsciiLabel(s)
    ensures u < 0x80
    ensures DOT !in s ==> u != DOT
  {
    hide CodePoints, BasicUnits, Count, Encoded;
    if NotAscii(s) {
      var basic, ending := LabelParts(s);
      hide AsciiLabel;
      UnitOfParts(basic, ending, u);
      CountBasic(s, DOT);
      CountMember(s, DOT);
      CountMember(basic, DOT);
    }
  }

  lemma UnitOfParts(basic: Text, ending: Text, u: Unit)
    requires u in ACE_PREFIX + basic + ending
    requires forall v | v in ending :: v == HYPHEN || IsDigit(v)
    ensures u in basic || (u < 0x80 && u != DOT)
  {
    assert u in ACE_PREFIX || u in basic || u in ending;
  }

  /** An ASCII label is unchanged, and any other is `xn--` and an encoding that decodes to the original. */
  predicate Converted(former: Text, renewed: Text) {
    if exists j :: 0 <= j < |former| && former[j] >= 0x80 then
      |renewed| >= 4 && renewed[..4] == [0x78, 0x6E, 0x2D, 0x2D] && Decode(renewed[4..]) == Some(CodePoints(former))
    else renewed == former
  }

  lemma LabelConverted(s: Text)
    ensures Converted(s, AsciiLabel(s))
  {
    hide Decode, Encoded, CodePoints;
    if NotAscii(s) {
      LabelRoundTrip(s);
      assert AsciiLabel(s)[4..] == Encoded(CodePoints(s));
    }
  }

  /**
   The labels of the new host are the converted labels of the dot-normalised old one: as many
   and in order.
   */
  lemma {:induction false} HostLabels(domain: Text)
    ensures Split(IdnDomain(domain), DOT) == AsciiLabels(Labels(domain))
    ensures forall i | 0 <= i < |Labels(domain)| :: Converted(Labels(domain)[i], Split(IdnDomain(domain), DOT)[i])
  {
    hide AsciiLabel, Decode, Encoded, CodePoints;
    var labels := Labels(domain);
    forall i | 0 <= i < |labels|
      ensures DOT !in AsciiLabels(labels)[i]
    {
      if DOT in AsciiLabel(labels[i]) {
        AsciiLabelUnits(labels[i], DOT);
      }
    }
    SplitOfJoin(AsciiLabels(labels), DOT);
    if !NotAscii(domain) {
      AsciiDomain(domain);
    }
    forall i | 0 <= i < |labels|
      ensures Converted(labels[i], AsciiLabel(labels[i]))
    {
      LabelConverted(labels[i]);
    }
  }

  lemma AsciiDomain(domain: Text)
    requires !NotAscii(domain)
    ensures Split(domain, DOT) == AsciiLabels(Labels(domain))
  {
    assert NormalizedDots(domain) == domain;
    var labels := Labels(domain);
    JoinOfSplit(domain, DOT);
    forall i | 0 <= i < |labels|
      ensures AsciiLabel(labels[i]) == labels[i]
    {
      if NotAscii(labels[i]) {
        PartIn(labels, DOT, i);
        assert false;
      }
    }
    assert AsciiLabels(labels) == labels;
  }

  lemma {:induction false} PartIn(parts: seq<Text>, separator: Unit, i: nat)
    requires i < |parts|
    ensures NotAscii(parts[i]) ==> NotAscii(Join(parts, separator))
    decreases |parts|
  {
    if |parts| > 1 {
      var s := Join(parts, separator);
      assert s == parts[0] + [separator] + Join(parts[1..], separator);
      if i > 0 {
        PartIn(parts[1..], separator, i - 1);
        if k :| 0 <= k < |Join(parts[1..], separator)| && Join(parts[1..], separator)[k] >= 0x80 {
          assert s[|parts[0]| + 1 + k] >= 0x80;
        }
      } else if k :| 0 <= k < |parts[0]| && parts[0][k] >= 0x80 {
        assert s[k] >= 0x80;
      }
    }
  }

  lemma DomainUnit(domain: Text, u: Unit)
    requires NotAscii(domain) && u in IdnDomain(domain)
    ensures u < 0x80
  {
    hide AsciiLabel;
    var parts := AsciiLabels(Labels(domain));
    JoinElements(parts, DOT);
    if u != DOT {
      var i :| 0 <= i < |parts| && u in parts[i];
      AsciiLabelUnits(Labels(domain)[i], u);
    }
  }

  /** The new host is pure ASCII. */
  lemma {:induction false} HostIsAscii(domain: Text)
    ensures !NotAscii(IdnDomain(domain))
  {
    if NotAscii(domain) {
      hide IdnDomain;
      var d := IdnDomain(domain);
      forall i | 0 <= i < |d|
        ensures d[i] < 0x80
      {
        DomainUnit(domain, d[i]);
      }
    }
  }

  // ---- The first unit of the new host

  /** A host whose only colon comes first and whose first label is not ASCII. */
  predicate ColonMoves(host: Text) {
    host != [] && host[0] == COLON && COLON !in host[1..] && NotAscii(Labels(host)[0])
  }

  lemma FirstOfSplit(s: Text)
    requires s != [] && s[0] != DOT
    ensures Split(s, DOT)[0] != [] && Split(s, DOT)[0][0] == s[0]
  {
  }

  lemma FirstOfJoin(parts: seq<Text>)
    requires |parts| > 0 && parts[0] != []
    ensures Join(parts, DOT) != [] && Join(parts, DOT)[0] == parts[0][0]
  {
  }

  /** A kept unit stands first in the new host when it does in the old one and its label is ASCII. */
  lemma FirstUnit(domain: Text, c: Unit)
    requires domain != [] && Kept(c)
    ensures IdnDomain(domain) != []
    ensures IdnDomain(domain)[0] == c <==> domain[0] == c && !NotAscii(Labels(domain)[0])
  {
    hide AsciiLabel, CodePoints, Encoded;
    var labels := Labels(domain);
    if !NotAscii(domain) {
      PartIn(labels, DOT, 0);
      assert NormalizedDots(domain) == domain;
      JoinOfSplit(domain, DOT);
    } else {
      FirstOfNew(domain, c);
    }
  }

  lemma FirstOfNew(domain: Text, c: Unit)
    requires domain != [] && Kept(c) && NotAscii(domain)
    ensures IdnDomain(domain) != []
    ensures IdnDomain(domain)[0] == c <==> domain[0] == c && !NotAscii(Labels(domain)[0])
  {
    hide CodePoints, Encoded;
    var dotted := NormalizedDots(domain);
    var labels := Labels(domain);
    var parts := AsciiLabels(labels);
    if dotted[0] == DOT {
      assert labels[0] == [];
      assert labels == [[]] + Split(dotted[1..], DOT);
      assert Join(parts, DOT) == parts[0] + [DOT] + Join(parts[1..], DOT);
    } else {
      FirstOfSplit(dotted);
      assert parts[0] != [] && parts[0][0] == (if NotAscii(labels[0]) then 0x78 else dotted[0]);
      FirstOfJoin(parts);
    }
  }
}
