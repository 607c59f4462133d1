/** `s.trim()`: white space and line terminators removed at both ends. */
module JsTrim {
  import opened JsText

  predicate IsSpace(u: Unit) {
    || 0x09 <= u <= 0x0D || u == 0x20 || u == 0xA0 || u == 0x1680 || 0x2000 <= u <= 0x200A
    || u == 0x2028 || u == 0x2029 || u == 0x202F || u == 0x205F || u == 0x3000 || u == 0xFEFF
  }

  predicate IsTrimmed(s: Text) { s == [] || (!IsSpace(s[0]) && !IsSpace(s[|s| - 1])) }

  function TrimStart(s: Text): (r: Text)
    ensures r == [] || !IsSpace(r[0])
    ensures r != [] ==> s != [] && r[|r| - 1] == s[|s| - 1]
    ensures forall u | u in r :: u in s
  {
    if s != [] && IsSpace(s[0]) then TrimStart(s[1..]) else s
  }

  function TrimEnd(s: Text): (r: Text)
    ensures r == [] || !IsSpace(r[|r| - 1])
    ensures forall u | u in r :: u in s
  {
    if s != [] && IsSpace(s[|s| - 1]) then TrimEnd(s[..|s| - 1]) else s
  }

  function Trim(s: Text): (r: Text)
    ensures IsTrimmed(r)
    ensures IsTrimmed(s) ==> r == s
    ensures forall u | u in r :: u in s
  {
    TrimStart(TrimEnd(s))
  }

  /** Exactly the spaces at the two ends go; of a blank text nothing is left. */
  lemma {:induction false} TrimCuts(before: Text, s: Text, after: Text)
    requires IsTrimmed(s)
    requires forall u | u in before + after :: IsSpace(u)
    ensures Trim(before + s + after) == s
  {
    if s == [] {
      assert before + s + after == before + after;
      TrimBlank(before + after);
    } else if after != [] {
      var all := before + s + after;
      assert after[|after| - 1] in before + after;
      assert all[..|all| - 1] == before + s + after[..|after| - 1];
      assert forall u | u in before + after[..|after| - 1] :: u in before + after;
      TrimCuts(before, s, after[..|after| - 1]);
    } else {
      assert before + s + after == before + s;
      assert TrimEnd(before + s) == before + s;
      TrimStartCuts(before, s);
    }
  }

  lemma {:induction false} TrimBlank(s: Text)
    requires forall u | u in s :: IsSpace(u)
    ensures TrimEnd(s) == [] && Trim(s) == []
  {
    if s != [] {
      assert s[|s| - 1] in s && forall u | u in s[..|s| - 1] :: u in s;
      TrimBlank(s[..|s| - 1]);
    }
  }

  lemma {:induction false} TrimStartCuts(before: Text, s: Text)
    requires IsTrimmed(s) && s != []
    requires forall u | u in before :: IsSpace(u)
    ensures TrimStart(before + s) == s
  {
    if before == [] {
      assert before + s == s;
    } else {
      assert before[0] in before;
      assert (before + s)[1..] == before[1..] + s;
      TrimStartCuts(before[1..], s);
    }
  }

  /** WhiteSpace and LineTerminator of ECMAScript, unit by unit. */
  const SPACES: set<Unit> :=
    {0x09, 0x0A, 0x0B, 0x0C, 0x0D, 0x20, 0xA0, 0x1680, 0x2000, 0x2001, 0x2002, 0x2003, 0x2004, 0x2005, 0x2006,
     0x2007, 0x2008, 0x2009, 0x200A, 0x2028, 0x2029, 0x202F, 0x205F, 0x3000, 0xFEFF}

  lemma SpacesExactly(u: Unit)
    ensures IsSpace(u) <==> u in SPACES
  {
  }

  /** Some unit is neither white space nor a line terminator. */
  predicate HasInk(s: Text) { exists i :: 0 <= i < |s| && s[i] !in SPACES }

  lemma {:induction false} TrimKeepsInk(s: Text)
    ensures Trim(s) != [] <==> HasInk(s)
  {
    forall u: Unit ensures IsSpace(u) <==> u in SPACES {
      SpacesExactly(u);
    }
    hide IsSpace;
    if i :| 0 <= i < |s| && s[i] !in SPACES {
      EndKeepsInk(s, i);
      var t := TrimEnd(s);
      StartKeepsInk(t, i);
    } else {
      assert forall u | u in s :: IsSpace(u);
      TrimBlank(s);
    }
  }

  lemma {:induction false} EndKeepsInk(s: Text, i: nat)
    requires i < |s| && !IsSpace(s[i])
    ensures i < |TrimEnd(s)| && TrimEnd(s)[i] == s[i]
  {
    hide IsSpace;
    if IsSpace(s[|s| - 1]) {
      EndKeepsInk(s[..|s| - 1], i);
    }
  }

  lemma {:induction false} StartKeepsInk(s: Text, i: nat)
    requires i < |s| && !IsSpace(s[i])
    ensures TrimStart(s) != []
  {
    hide IsSpace;
    if IsSpace(s[0]) {
      StartKeepsInk(s[1..], i - 1);
    }
  }

  /** Every part trimmed, the empty ones dropped: `parts.map(trim).filter(nonEmpty)`. */
  function NonBlank(parts: seq<Text>): (r: seq<Text>)
    ensures forall p | p in r :: p != [] && IsTrimmed(p)
  {
    if parts == [] then []
    else (if Trim(parts[0]) == [] then [] else [Trim(parts[0])]) + NonBlank(parts[1..])
  }

  lemma {:induction false} NonBlankStays(parts: seq<Text>)
    requires forall p | p in parts :: p != [] && IsTrimmed(p)
    ensures NonBlank(parts) == parts
  {
    if parts != [] {
      assert parts[0] in parts && forall p | p in parts[1..] :: p in parts;
      assert [parts[0]] + parts[1..] == parts;
      NonBlankStays(parts[1..]);
      hide Trim, IsTrimmed;
    }
  }

  /** Trimming adds nothing: what no part holds, no result holds. */
  lemma {:induction false} NonBlankLacks(parts: seq<Text>, x: Unit)
    requires forall i | 0 <= i < |parts| :: x !in parts[i]
    ensures forall p | p in NonBlank(parts) :: x !in p
  {
    hide Trim, IsTrimmed;
    if parts != [] {
      NonBlankLacks(parts[1..], x);
    }
  }
}
