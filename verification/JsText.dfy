/**
 JavaScript strings and the few built-in string operations the core files call.

 A string is a sequence of UTF-16 code units, so an unpaired surrogate is an
 ordinary unit. The searching functions are stated for any element type, because
 the native side uses the same ones on bytes.
 */
module JsText {

  type Unit = u: int | 0 <= u < 0x10000
  type Text = seq<Unit>

  const HYPHEN: Unit := 0x2D
  const DOT: Unit := 0x2E
  const SLASH: Unit := 0x2F
  const COLON: Unit := 0x3A
  const QUESTION: Unit := 0x3F
  const HASH: Unit := 0x23
  const AT: Unit := 0x40
  const COMMA: Unit := 0x2C
  const OPEN_BRACKET: Unit := 0x5B
  const CLOSE_BRACKET: Unit := 0x5D

  /** The units of a literal. */
  function Units(literal: string): (s: Text)
    requires forall i | 0 <= i < |literal| :: literal[i] as int < 0x80
    ensures |s| == |literal| && forall i | 0 <= i < |s| :: s[i] == literal[i] as int
  {
    seq(|literal|, i requires 0 <= i < |literal| => literal[i] as int)
  }

  datatype Option<+T> = None | Some(value: T)

  /** `s.indexOf(x, from)` for a single element: the first position at or after `from`, or -1. */
  function IndexOf<T(==)>(s: seq<T>, x: T, from: nat): (r: int)
    ensures r == -1 || from <= r < |s|
    ensures r >= 0 ==> s[r] == x && forall j | from <= j < r :: s[j] != x
    ensures r == -1 ==> forall j | from <= j < |s| :: s[j] != x
    decreases |s| - from
  {
    if from >= |s| then -1
    else if s[from] == x then from
    else IndexOf(s, x, from + 1)
  }

  /** `s.lastIndexOf(x)` for a single element: the last position, or -1. */
  function LastIndexOf<T(==)>(s: seq<T>, x: T): (r: int)
    ensures -1 <= r < |s|
    ensures r >= 0 ==> s[r] == x
    ensures forall j | r < j < |s| :: s[j] != x
  {
    if s == [] then -1
    else if s[|s| - 1] == x then |s| - 1
    else LastIndexOf(s[..|s| - 1], x)
  }

  predicate OccursAt<T(==)>(s: seq<T>, pattern: seq<T>, at: nat) {
    at + |pattern| <= |s| && s[at..at + |pattern|] == pattern
  }

  /** `s.indexOf(pattern, from)` for a longer pattern. */
  function IndexOfText<T(==)>(s: seq<T>, pattern: seq<T>, from: nat): (r: int)
    ensures r == -1 || (from <= r && OccursAt(s, pattern, r))
    ensures r >= 0 ==> forall j | from <= j < r :: !OccursAt(s, pattern, j)
    ensures r == -1 ==> forall j: nat | from <= j :: !OccursAt(s, pattern, j)
    decreases |s| - from
  {
    if from + |pattern| > |s| then -1
    else if OccursAt(s, pattern, from) then from
    else IndexOfText(s, pattern, from + 1)
  }

  /** `s.split(separator)` for a one-element separator. */
  function Split<T(==)>(s: seq<T>, separator: T): (parts: seq<seq<T>>)
    ensures |parts| > 0
    ensures forall i | 0 <= i < |parts| :: separator !in parts[i]
  {
    if s == [] then [[]]
    else
      var rest := Split(s[1..], separator);
      if s[0] == separator then [[]] + rest else [[s[0]] + rest[0]] + rest[1..]
  }

  /** `parts.join(separator)`. */
  function Join<T>(parts: seq<seq<T>>, separator: T): (s: seq<T>) {
    if parts == [] then []
    else if |parts| == 1 then parts[0]
    else parts[0] + [separator] + Join(parts[1..], separator)
  }

  lemma {:induction false} SplitFirst<T>(part: seq<T>, separator: T, rest: seq<T>)
    requires separator !in part
    ensures Split(part + [separator] + rest, separator) == [part] + Split(rest, separator)
  {
    if part == [] {
      assert part + [separator] + rest == [separator] + rest;
    } else {
      SplitFirst(part[1..], separator, rest);
      assert (part + [separator] + rest)[1..] == part[1..] + [separator] + rest;
      assert [part[0]] + part[1..] == part;
    }
  }

  lemma {:induction false} SplitWhole<T>(part: seq<T>, separator: T)
    requires separator !in part
    ensures Split(part, separator) == [part]
  {
    if part != [] {
      SplitWhole(part[1..], separator);
      assert [part[0]] + part[1..] == part;
    }
  }

  /** Splitting undoes joining as long as no part holds the separator. */
  lemma {:induction false} SplitOfJoin<T>(parts: seq<seq<T>>, separator: T)
    requires |parts| > 0
    requires forall i | 0 <= i < |parts| :: separator !in parts[i]
    ensures Split(Join(parts, separator), separator) == parts
  {
    if |parts| == 1 {
      SplitWhole(parts[0], separator);
    } else {
      SplitOfJoin(parts[1..], separator);
      SplitFirst(parts[0], separator, Join(parts[1..], separator));
    }
  }

  /** Joining undoes splitting on every string. */
  lemma {:induction false} JoinOfSplit<T>(s: seq<T>, separator: T)
    ensures Join(Split(s, separator), separator) == s
  {
    if s != [] {
      JoinOfSplit(s[1..], separator);
      var rest := Split(s[1..], separator);
      if |rest| > 1 && s[0] != separator {
        assert ([[s[0]] + rest[0]] + rest[1..])[1..] == rest[1..];
      }
    }
  }

  lemma {:induction false} JoinElements<T>(parts: seq<seq<T>>, separator: T)
    ensures forall x | x in Join(parts, separator) :: x == separator || exists i :: 0 <= i < |parts| && x in parts[i]
  {
    if |parts| > 1 {
      JoinElements(parts[1..], separator);
      forall x | x in Join(parts, separator)
        ensures x == separator || exists i :: 0 <= i < |parts| && x in parts[i]
      {
        if x !in parts[0] && x != separator {
          var i :| 0 <= i < |parts[1..]| && x in parts[1..][i];
          assert x in parts[i + 1];
        }
      }
    }
  }
}
