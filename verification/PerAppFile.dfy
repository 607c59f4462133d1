/** PerAppProxy.ets: the text file a list is exported to and imported from. */
module PerAppFile {
  import opened JsText
  import opened JsTrim
  import opened PerApp
  import PerAppAlgebra

  const LF: Unit := 0x0A
  const CR: Unit := 0x0D
  /** `true` and `false` */
  const TRUE: Text := [0x74, 0x72, 0x75, 0x65]
  const FALSE: Text := [0x66, 0x61, 0x6C, 0x73, 0x65]

  datatype Import = Import(success: bool, bypass: bool, packages: seq<Text>, count: nat)

  function Header(bypass: bool): Text { if bypass then TRUE else FALSE }

  method ExportPerAppProxyList(bypass: bool, packages: seq<Text>, self: Text) returns (content: Text)
    ensures content == Exported(bypass, packages, self)
  {
    var normalized := NormalizePerAppPackageList(packages, self);
    content := Join([Header(bypass)] + normalized, LF);
  }

  function Exported(bypass: bool, packages: seq<Text>, self: Text): Text {
    Join([Header(bypass)] + Normalized(packages, self), LF)
  }

  // ---- Reading

  /** The pieces between `\r?\n`: all but the last lose one CR in front of the LF. */
  function WithoutCr(pieces: seq<Text>): seq<Text> {
    if |pieces| <= 1 then pieces
    else
      var p := pieces[0];
      [if p != [] && p[|p| - 1] == CR then p[..|p| - 1] else p] + WithoutCr(pieces[1..])
  }

  function SplitLines(content: Text): seq<Text> { WithoutCr(Split(content, LF)) }

  predicate IsSeparator(u: Unit) { IsSpace(u) || u == COMMA }

  /** How many separators the text starts with, and how many units come before its first one. */
  function SeparatorRun(s: Text): (n: nat)
    ensures n <= |s| && (s != [] && IsSeparator(s[0]) ==> n > 0)
  {
    if s != [] && IsSeparator(s[0]) then 1 + SeparatorRun(s[1..]) else 0
  }

  function TokenLength(s: Text): (n: nat)
    ensures n <= |s|
    ensures n == |s| || (IsSeparator(s[n]) && s[n] in s)
    ensures forall i | 0 <= i < n :: !IsSeparator(s[i])
  {
    if s == [] || IsSeparator(s[0]) then 0 else 1 + TokenLength(s[1..])
  }

  /** `line.split(/[\s,]+/)` */
  function Tokens(line: Text): seq<Text>
    decreases |line|
  {
    var n := TokenLength(line);
    if n == |line| then [line] else [line[..n]] + Tokens(line[n + SeparatorRun(line[n..])..])
  }

  function AllTokens(lines: seq<Text>): seq<Text> {
    if lines == [] then [] else AllTokens(lines[..|lines| - 1]) + Tokens(lines[|lines| - 1])
  }

  predicate IsHeader(line: Text) { Key(line) == TRUE || Key(line) == FALSE }

  function Imported(content: Text, fallback: bool, self: Text): Import {
    var lines := NonBlank(SplitLines(content));
    if lines == [] then Import(false, fallback, [], 0)
    else
      var header := IsHeader(lines[0]);
      var packages := Normalized(AllTokens(if header then lines[1..] else lines), self);
      Import(packages != [] || header, if header then Key(lines[0]) == TRUE else fallback, packages, |packages|)
  }

  method ImportPerAppProxyList(content: Text, fallback: bool, self: Text) returns (result: Import)
    ensures result == Imported(content, fallback, self)
  {
    hide SplitLines, NonBlank, Key, Normalized, AllTokens, Tokens;
    var lines := NonBlank(SplitLines(content));
    if |lines| == 0 {
      return Import(false, fallback, [], 0);
    }
    var bypass, startIndex := fallback, 0;
    var firstLine := Key(lines[0]);
    if firstLine == TRUE || firstLine == FALSE {
      bypass := firstLine == TRUE;
      startIndex := 1;
    }
    var tokens := TokensFrom(lines, startIndex);
    var packages := NormalizePerAppPackageList(tokens, self);
    assert lines[0..] == lines;
    result := Import(|packages| > 0 || startIndex > 0, bypass, packages, |packages|);
  }

  method TokensFrom(lines: seq<Text>, startIndex: nat) returns (tokens: seq<Text>)
    requires startIndex <= |lines|
    ensures tokens == AllTokens(lines[startIndex..])
  {
    hide Tokens;
    tokens := [];
    for index := startIndex to |lines|
      invariant tokens == AllTokens(lines[startIndex..index])
    {
      assert lines[startIndex..index + 1][..index - startIndex] == lines[startIndex..index];
      var parts := Tokens(lines[index]);
      ghost var before := tokens;
      for partIndex := 0 to |parts|
        invariant tokens == before + parts[..partIndex]
      {
        tokens := tokens + [parts[partIndex]];
      }
      assert parts[..|parts|] == parts;
    }
    assert lines[startIndex..|lines|] == lines[startIndex..];
  }

  // ---- The round trip

  predicate IsPlainLine(line: Text) { line != [] && forall u | u in line :: !IsSeparator(u) }

  lemma PlainLine(line: Text)
    requires IsPlainLine(line)
    ensures line != [] && LF !in line && line[|line| - 1] != CR && IsTrimmed(line)
  {
    assert line[0] in line && line[|line| - 1] in line;
  }

  lemma {:induction false} PlainLinesStay(lines: seq<Text>)
    requires forall line | line in lines :: IsPlainLine(line)
    ensures WithoutCr(lines) == lines
    ensures forall line | line in lines :: line != [] && IsTrimmed(line)
  {
    hide IsPlainLine, IsTrimmed;
    if lines == [] {
      assert WithoutCr(lines) == lines;
    } else {
      assert lines[0] in lines && forall line | line in lines[1..] :: line in lines;
      assert [lines[0]] + lines[1..] == lines;
      PlainLine(lines[0]);
      PlainLinesStay(lines[1..]);
    }
  }

  lemma {:induction false} WholeToken(s: Text)
    requires forall u | u in s :: !IsSeparator(u)
    ensures Tokens(s) == [s]
  {
    assert TokenLength(s) == |s|;
  }

  lemma {:induction false} OneTokenEach(lines: seq<Text>)
    requires forall line | line in lines :: IsPlainLine(line)
    ensures AllTokens(lines) == lines
  {
    if lines != [] {
      var n := |lines| - 1;
      assert lines[..n] + [lines[n]] == lines;
      assert lines[n] in lines && forall line | line in lines[..n] :: line in lines;
      OneTokenEach(lines[..n]);
      WholeToken(lines[n]);
      hide Tokens;
    }
  }

  lemma ValidIsPlain(p: Text)
    requires IsValid(p)
    ensures IsPlainLine(p)
  {
  }

  lemma LowerKey(s: Text)
    requires forall u | u in s :: 0x61 <= u <= 0x7A
    ensures Key(s) == s
  {
    forall i | 0 <= i < |s| ensures Key(s)[i] == s[i] {
      assert s[i] in s;
    }
  }

  lemma HeaderLine(bypass: bool)
    ensures IsPlainLine(Header(bypass)) && Key(Header(bypass)) == Header(bypass)
    ensures Header(bypass) == TRUE <==> bypass
  {
    assert |TRUE| == 4 && |FALSE| == 5;
    LowerKey(TRUE);
    LowerKey(FALSE);
    hide Key;
  }

  /** What was exported is imported: the flag, and exactly the normalised list in order. */
  lemma ImportOfExport(bypass: bool, packages: seq<Text>, self: Text, fallback: bool)
    ensures var list := Normalized(packages, self);
      Imported(Exported(bypass, packages, self), fallback, self) == Import(true, bypass, list, |list|)
  {
    var list := Normalized(packages, self);
    var lines := [Header(bypass)] + list;
    NormalizedIsNormal(packages, self);
    HeaderLine(bypass);
    LinesArePlain(bypass, list, self);
    LinesComeBack(lines);
    OneTokenEach(list);
    PerAppAlgebra.NormalizedOfNormal(list, self);
    assert lines[1..] == list && lines[0] == Header(bypass);
    hide Normalized, Key, IsNormal, NonBlank, SplitLines, AllTokens, IsPlainLine, Join;
  }

  lemma LinesArePlain(bypass: bool, list: seq<Text>, self: Text)
    requires IsNormal(list, self)
    ensures forall line | line in list :: IsPlainLine(line)
    ensures forall line | line in [Header(bypass)] + list :: IsPlainLine(line)
  {
    HeaderLine(bypass);
    hide Key;
    forall line | line in list ensures IsPlainLine(line) {
      ValidIsPlain(line);
    }
  }

  lemma LinesComeBack(lines: seq<Text>)
    requires lines != [] && forall line | line in lines :: IsPlainLine(line)
    ensures NonBlank(SplitLines(Join(lines, LF))) == lines
  {
    forall i | 0 <= i < |lines| ensures LF !in lines[i] {
      PlainLine(lines[i]);
    }
    SplitOfJoin(lines, LF);
    PlainLinesStay(lines);
    NonBlankStays(lines);
    hide NonBlank, WithoutCr, Join, Split;
  }

  /** Whatever is imported is already in normal form, and importing what that exports changes nothing more. */
  lemma ImportIsStable(content: Text, fallback: bool, self: Text, other: bool)
    requires Imported(content, fallback, self).success
    ensures var first := Imported(content, fallback, self);
      && IsNormal(first.packages, self)
      && Imported(Exported(first.bypass, first.packages, self), other, self) == first
  {
    var first := Imported(content, fallback, self);
    hide Normalized, Key, IsNormal, NonBlank, SplitLines, AllTokens, IsPlainLine, Join;
    var lines := NonBlank(SplitLines(content));
    NormalizedIsNormal(AllTokens(if IsHeader(lines[0]) then lines[1..] else lines), self);
    PerAppAlgebra.NormalizedOfNormal(first.packages, self);
    ImportOfExport(first.bypass, first.packages, self, other);
  }
}
