/** Which names the per-app lists accept and take for the same, and how a file is cut up, in characters. */
module PerAppMeaning {
  import opened JsText
  import opened JsTrim
  import opened PerApp
  import opened PerAppFile

  // ---- Names

  predicate IsNameCharacter(c: char) {
    'A' <= c <= 'Z' || 'a' <= c <= 'z' || '0' <= c <= '9' || c == '_' || c == '.' || c == '$' || c == '-'
  }

  /** Five characters or more, with a dot among them but neither first nor last. */
  lemma ValidExactly(name: Text)
    ensures IsValid(name) <==>
      && |name| >= 5 && 0x2E in name && name[0] != 0x2E && name[|name| - 1] != 0x2E
      && forall i | 0 <= i < |name| :: name[i] < 0x80 && IsNameCharacter(name[i] as char)
  {
    forall i | 0 <= i < |name|
      ensures IsPackageUnit(name[i]) <==> name[i] < 0x80 && IsNameCharacter(name[i] as char)
    {
      UnitIsCharacter(name[i]);
    }
    hide IsPackageUnit, IsNameCharacter;
    assert (forall u | u in name :: IsPackageUnit(u)) <==> forall i | 0 <= i < |name| :: IsPackageUnit(name[i]);
  }

  lemma UnitIsCharacter(u: Unit)
    ensures IsPackageUnit(u) <==> u < 0x80 && IsNameCharacter(u as char)
  {
  }

  /** The same unit, or the two cases of one letter. */
  predicate SameLetter(a: Unit, b: Unit) {
    a == b || (0x41 <= a <= 0x5A && b == a + 0x20) || (0x41 <= b <= 0x5A && a == b + 0x20)
  }

  /** Two names are the same exactly if they differ at most in the case of letters. */
  lemma SameKeyExactly(a: Text, b: Text)
    ensures Key(a) == Key(b) <==> |a| == |b| && forall i | 0 <= i < |a| :: SameLetter(a[i], b[i])
  {
    assert |Key(a)| == |a| && |Key(b)| == |b|;
    if |a| == |b| {
      assert forall i | 0 <= i < |a| :: Key(a)[i] == LowerUnit(a[i]) && Key(b)[i] == LowerUnit(b[i]);
      assert forall i | 0 <= i < |a| :: LowerUnit(a[i]) == LowerUnit(b[i]) <==> SameLetter(a[i], b[i]);
      hide Key, LowerUnit, SameLetter;
    }
  }

  // ---- Lines

  /** The lines with LF after all but the last, and CR before it where `crlf` says so. */
  function Content(lines: seq<Text>, crlf: seq<bool>): Text
    requires |lines| == |crlf| + 1
  {
    if crlf == [] then lines[0]
    else lines[0] + (if crlf[0] then [0x0D, 0x0A] else [0x0A]) + Content(lines[1..], crlf[1..])
  }

  predicate IsLine(line: Text) { 0x0A !in line && (line == [] || line[|line| - 1] != 0x0D) }

  lemma {:induction false} LinesOfContent(lines: seq<Text>, crlf: seq<bool>)
    requires |lines| == |crlf| + 1
    requires forall i | 0 <= i < |lines| :: IsLine(lines[i])
    ensures SplitLines(Content(lines, crlf)) == lines
  {
    var first := lines[0];
    if crlf == [] {
      SplitWhole(first, LF);
      assert lines == [first];
    } else {
      var rest := Content(lines[1..], crlf[1..]);
      var piece := if crlf[0] then first + [0x0D] else first;
      assert Content(lines, crlf) == piece + [0x0A] + rest;
      hide Content, Split, WithoutCr;
      LinesOfContent(lines[1..], crlf[1..]);
      SplitFirst(piece, LF, rest);
      FirstLine(first, crlf[0], Split(rest, LF));
      assert [first] + lines[1..] == lines;
    }
  }

  lemma FirstLine(line: Text, crlf: bool, pieces: seq<Text>)
    requires IsLine(line) && pieces != []
    ensures WithoutCr([if crlf then line + [0x0D] else line] + pieces) == [line] + WithoutCr(pieces)
  {
    var piece := if crlf then line + [0x0D] else line;
    assert ([piece] + pieces)[1..] == pieces;
    assert crlf ==> piece[..|piece| - 1] == line;
  }

  // ---- Words on a line

  /** A comma, or white space. */
  predicate IsGap(s: Text) { s != [] && forall i | 0 <= i < |s| :: s[i] == 0x2C || s[i] in SPACES }

  predicate IsWord(s: Text) { forall i | 0 <= i < |s| :: s[i] != 0x2C && s[i] !in SPACES }

  function Spaced(words: seq<Text>, gaps: seq<Text>): Text
    requires |words| == |gaps| + 1
  {
    if gaps == [] then words[0] else words[0] + gaps[0] + Spaced(words[1..], gaps[1..])
  }

  lemma SeparatorExactly(u: Unit)
    ensures IsSeparator(u) <==> u == 0x2C || u in SPACES
  {
    SpacesExactly(u);
  }

  lemma {:induction false} WordLength(word: Text, rest: Text)
    requires forall i | 0 <= i < |word| :: !IsSeparator(word[i])
    requires rest == [] || IsSeparator(rest[0])
    ensures TokenLength(word + rest) == |word|
  {
    hide IsSeparator;
    var s := word + rest;
    if word == [] {
      assert s == rest;
    } else {
      assert s[1..] == word[1..] + rest && s[0] == word[0];
      WordLength(word[1..], rest);
    }
  }

  lemma {:induction false} GapLength(gap: Text, rest: Text)
    requires forall i | 0 <= i < |gap| :: IsSeparator(gap[i])
    requires rest == [] || !IsSeparator(rest[0])
    ensures SeparatorRun(gap + rest) == |gap|
  {
    hide IsSeparator;
    var s := gap + rest;
    if gap == [] {
      assert s == rest;
    } else {
      assert s[1..] == gap[1..] + rest && s[0] == gap[0];
      GapLength(gap[1..], rest);
    }
  }

  lemma TokensFirst(word: Text, gap: Text, rest: Text)
    requires IsWord(word) && IsGap(gap) && (rest == [] || !IsSeparator(rest[0]))
    ensures Tokens(word + gap + rest) == [word] + Tokens(rest)
  {
    forall u: Unit ensures IsSeparator(u) <==> u == 0x2C || u in SPACES {
      SeparatorExactly(u);
    }
    hide IsSeparator;
    var line := word + gap + rest;
    assert line == word + (gap + rest);
    WordLength(word, gap + rest);
    GapLength(gap, rest);
    assert line[..|word|] == word && line[|word|..] == gap + rest;
    assert line[|word| + |gap|..] == rest;
  }

  /** A line is cut at every run of commas and white space; only its first word and its last can be empty. */
  lemma {:induction false} TokensOfLine(words: seq<Text>, gaps: seq<Text>)
    requires |words| == |gaps| + 1
    requires forall i | 0 <= i < |words| :: IsWord(words[i])
    requires forall i | 0 < i < |words| - 1 :: words[i] != []
    requires forall i | 0 <= i < |gaps| :: IsGap(gaps[i])
    ensures Tokens(Spaced(words, gaps)) == words
  {
    hide IsWord, IsGap, IsSeparator, Tokens;
    if gaps == [] {
      WordIsToken(words[0]);
      assert words == [words[0]];
    } else {
      var more, others := words[1..], gaps[1..];
      var rest := Spaced(more, others);
      assert forall i | 0 <= i < |more| :: more[i] == words[i + 1];
      assert forall i | 0 <= i < |others| :: others[i] == gaps[i + 1];
      assert Spaced(words, gaps) == words[0] + gaps[0] + rest;
      hide Spaced;
      TokensOfLine(more, others);
      RestStarts(more, others);
      TokensFirst(words[0], gaps[0], rest);
      assert [words[0]] + more == words;
    }
  }

  lemma WordIsToken(word: Text)
    requires IsWord(word)
    ensures Tokens(word) == [word]
  {
    forall i | 0 <= i < |word| ensures !IsSeparator(word[i]) {
      SeparatorExactly(word[i]);
    }
    hide IsSeparator;
    assert word + [] == word;
    WordLength(word, []);
  }

  lemma RestStarts(words: seq<Text>, gaps: seq<Text>)
    requires |words| == |gaps| + 1 && IsWord(words[0]) && (gaps != [] ==> words[0] != [])
    ensures Spaced(words, gaps) == [] || !IsSeparator(Spaced(words, gaps)[0])
  {
    if words[0] != [] {
      SeparatorExactly(words[0][0]);
      assert Spaced(words, gaps)[0] == words[0][0];
    }
  }

  // ---- A file

  /** `true` or `false` in any case. */
  predicate IsFlag(line: Text, value: bool) {
    var word: Text := if value then [0x74, 0x72, 0x75, 0x65] else [0x66, 0x61, 0x6C, 0x73, 0x65];
    |line| == |word| && forall i | 0 <= i < |line| :: SameLetter(line[i], word[i])
  }

  lemma FlagLine(line: Text, value: bool)
    ensures IsFlag(line, value) <==> Key(line) == Header(value)
  {
    hide Key, SameLetter;
    SameKeyExactly(line, Header(value));
    HeaderLine(value);
  }

  /**
   A file of trimmed lines with ink, ended by LF or CR LF: if the first is a flag it is taken, else the fallback;
   the names are those of the words of the other lines, normalised.
   */
  lemma ImportOfLines(lines: seq<Text>, crlf: seq<bool>, fallback: bool, self: Text)
    requires |lines| == |crlf| + 1
    requires forall i | 0 <= i < |lines| :: IsLine(lines[i]) && lines[i] != [] && IsTrimmed(lines[i])
    ensures var result := Imported(Content(lines, crlf), fallback, self);
      && (forall value :: IsFlag(lines[0], value) ==>
            var packages := Normalized(AllTokens(lines[1..]), self);
            result == Import(true, value, packages, |packages|))
      && (!IsFlag(lines[0], true) && !IsFlag(lines[0], false) ==>
            var packages := Normalized(AllTokens(lines), self);
            result == Import(packages != [], fallback, packages, |packages|))
  {
    LinesOfContent(lines, crlf);
    NonBlankStays(lines);
    FlagLine(lines[0], true);
    FlagLine(lines[0], false);
    assert |TRUE| == 4 && |FALSE| == 5;
    hide SplitLines, NonBlank, Key, Normalized, AllTokens, Content, IsFlag, IsLine, IsTrimmed;
  }

  /** A file of white space alone is refused. */
  lemma ImportOfNothing(content: Text, fallback: bool, self: Text)
    requires !HasInk(content)
    ensures Imported(content, fallback, self) == Import(false, fallback, [], 0)
  {
    BlankPieces(content);
    BlankLines(Split(content, LF));
    hide HasInk, NonBlank, Normalized, AllTokens, WithoutCr;
  }

  lemma {:induction false} BlankPieces(s: Text)
    requires !HasInk(s)
    ensures forall i | 0 <= i < |Split(s, LF)| :: !HasInk(Split(s, LF)[i])
  {
    if s != [] {
      var rest := s[1..];
      assert forall i | 0 <= i < |rest| :: rest[i] == s[i + 1];
      BlankPieces(rest);
    }
  }

  lemma {:induction false} BlankLines(pieces: seq<Text>)
    requires forall i | 0 <= i < |pieces| :: !HasInk(pieces[i])
    ensures NonBlank(WithoutCr(pieces)) == []
  {
    hide Trim;
    if |pieces| > 0 {
      TrimKeepsInk(pieces[0]);
      if |pieces| == 1 {
        assert pieces[1..] == [] && NonBlank([]) == [];
      } else {
        BlankLines(pieces[1..]);
        var p := pieces[0];
        var line := if p != [] && p[|p| - 1] == CR then p[..|p| - 1] else p;
        assert forall i | 0 <= i < |line| :: line[i] == p[i];
        TrimKeepsInk(line);
        assert WithoutCr(pieces)[1..] == WithoutCr(pieces[1..]);
      }
    }
  }
}
