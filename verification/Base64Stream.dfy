/**
 Base64 one byte or one character at a time, through a 32-bit accumulator that is never
 masked: the facts both streaming codecs rest on.
 */
module Base64Stream {
  import opened Base64

  /** `x >> n` on a signed 32-bit integer. */
  function Sar(x: bv32, n: nat): bv32
    requires n < 32
  {
    if x & 0x8000_0000 == 0 then x >> n else !((!x) >> n)
  }

  // ---- Decoding: what one more index adds

  /** The octet that is completed by index x when it is index number `phase` of its group. */
  function Completed(phase: nat, last: bv6, x: bv6): seq<bv8> {
    if phase == 1 then [((last as bv8) << 2) | ((x as bv8) >> 4)]
    else if phase == 2 then [((last as bv8) << 4) | ((x as bv8) >> 2)]
    else if phase == 3 then [((last as bv8) << 6) | (x as bv8)]
    else []
  }

  function Last(s: seq<bv6>): bv6 { if s == [] then 0 else s[|s| - 1] }

  lemma GroupOctets(a: bv6, b: bv6, c: bv6, d: bv6)
    ensures var g := FourGroup(a, b, c, d);
      && [(g >> 16) as bv8] == Completed(1, a, b)
      && [((g >> 8) & 0xFF) as bv8] == Completed(2, b, c)
      && [(g & 0xFF) as bv8] == Completed(3, c, d)
  {
  }

  lemma OctetsOne(a: bv6)
    ensures Octets([a]) == [] == Octets([])
  {
  }

  lemma OctetsTwo(a: bv6, b: bv6)
    ensures Octets([a, b]) == Completed(1, a, b)
  {
    GroupOctets(a, b, 0, 0);
  }

  lemma OctetsThree(a: bv6, b: bv6, c: bv6)
    ensures Octets([a, b, c]) == Completed(1, a, b) + Completed(2, b, c)
  {
    hide FourGroup, Completed;
    GroupOctets(a, b, c, 0);
  }

  lemma OctetsFour(a: bv6, b: bv6, c: bv6, d: bv6)
    ensures Octets([a, b, c, d]) == Completed(1, a, b) + Completed(2, b, c) + Completed(3, c, d)
  {
    hide FourGroup, Completed;
    GroupOctets(a, b, c, d);
    OctetsOne(a);
    assert [a, b, c, d][4..] == [];
  }

  lemma OctetsGroup(s: seq<bv6>)
    requires |s| >= 4
    ensures Octets(s) == Octets(s[..4]) + Octets(s[4..])
  {
    hide FourGroup;
    var head := s[..4];
    assert head[4..] == [] && head[0] == s[0] && head[1] == s[1] && head[2] == s[2] && head[3] == s[3];
  }

  lemma {:induction false} OctetsSnoc(s: seq<bv6>, x: bv6)
    ensures Octets(s + [x]) == Octets(s) + Completed(|s| % 4, Last(s), x)
  {
    hide Octets, Completed;
    if |s| >= 4 {
      var t := s + [x];
      assert t[..4] == s[..4] && t[4..] == s[4..] + [x];
      OctetsGroup(s);
      OctetsGroup(t);
      OctetsSnoc(s[4..], x);
      LastOfTail(s, x);
    } else {
      OctetsSnocShort(s, x);
    }
  }

  lemma LastOfTail(s: seq<bv6>, x: bv6)
    requires |s| >= 4
    ensures Completed(|s| % 4, Last(s), x) == Completed(|s[4..]| % 4, Last(s[4..]), x)
  {
    assert |s[4..]| % 4 == |s| % 4;
    if |s| > 4 {
      assert Last(s[4..]) == Last(s);
    }
  }

  lemma OctetsSnocShort(s: seq<bv6>, x: bv6)
    requires |s| < 4
    ensures Octets(s + [x]) == Octets(s) + Completed(|s| % 4, Last(s), x)
  {
    hide Octets, Completed, Last;
    LastIs(s);
    if s == [] {
      assert s + [x] == [x];
      OctetsOne(x);
      NothingCompleted(Last(s), x);
    } else if |s| == 1 {
      assert s == [s[0]] && s + [x] == [s[0], x];
      OctetsOne(s[0]);
      OctetsTwo(s[0], x);
    } else {
      OctetsSnocLong(s, x);
    }
  }

  lemma OctetsSnocLong(s: seq<bv6>, x: bv6)
    requires 2 <= |s| < 4
    ensures Octets(s + [x]) == Octets(s) + Completed(|s|, s[|s| - 1], x)
  {
    hide Octets, Completed, Last;
    if |s| == 2 {
      assert s == [s[0], s[1]] && s + [x] == [s[0], s[1], x];
      OctetsTwo(s[0], s[1]);
      OctetsThree(s[0], s[1], x);
    } else {
      assert s == [s[0], s[1], s[2]] && s + [x] == [s[0], s[1], s[2], x];
      OctetsThree(s[0], s[1], s[2]);
      OctetsFour(s[0], s[1], s[2], x);
    }
  }

  lemma LastIs(s: seq<bv6>)
    ensures s != [] ==> Last(s) == s[|s| - 1]
  {
  }

  lemma NothingCompleted(last: bv6, x: bv6)
    ensures Completed(0, last, x) == []
  {
  }

  /** The accumulator's low bits are the bits of the last index not yet written. */
  predicate Holds(acc: bv32, phase: nat, last: bv6) {
    if phase == 1 then acc & 0x3F == last as bv32
    else if phase == 2 then acc & 0xF == (last as bv32) & 0xF
    else if phase == 3 then acc & 0x3 == (last as bv32) & 0x3
    else true
  }

  /** How far the completed octet stands above the accumulator's end. */
  function Shift(phase: nat): nat { if phase == 1 then 4 else if phase == 2 then 2 else 0 }

  function Pushed(acc: bv32, x: bv6): bv32 { (acc << 6) + (x as bv32) }

  /** `(acc >> n) & 0xFF` */
  function OctetAt(acc: bv32, n: nat): bv8
    requires n < 32
  {
    (Sar(acc, n) & 0xFF) as bv8
  }

  lemma OrIsPlus(acc: bv32, x: bv6)
    ensures (acc << 6) | (x as bv32) == Pushed(acc, x)
  {
  }

  lemma HoldsNext(acc: bv32, x: bv6, phase: nat)
    ensures phase < 4 ==> Holds(Pushed(acc, x), phase, x)
  {
  }

  /** The bits that the sign fills in are masked away. */
  lemma OctetAtIs(acc: bv32)
    ensures OctetAt(acc, 4) == ((acc >> 4) & 0xFF) as bv8
    ensures OctetAt(acc, 2) == ((acc >> 2) & 0xFF) as bv8
    ensures OctetAt(acc, 0) == (acc & 0xFF) as bv8
  {
  }

  lemma CompletedIs(acc: bv32, last: bv6, x: bv6)
    ensures Holds(acc, 1, last) ==> Completed(1, last, x) == [OctetAt(Pushed(acc, x), 4)]
    ensures Holds(acc, 2, last) ==> Completed(2, last, x) == [OctetAt(Pushed(acc, x), 2)]
    ensures Holds(acc, 3, last) ==> Completed(3, last, x) == [OctetAt(Pushed(acc, x), 0)]
  {
    hide OctetAt;
    OctetAtIs(Pushed(acc, x));
  }

  /** Reading one more index: what the accumulator holds and what it writes out. */
  lemma PushIndex(acc: bv32, phase: nat, last: bv6, x: bv6)
    requires phase < 4 && Holds(acc, phase, last)
    ensures Holds(Pushed(acc, x), (phase + 1) % 4, x)
    ensures Completed(phase, last, x) == if phase == 0 then [] else [OctetAt(Pushed(acc, x), Shift(phase))]
  {
    hide Holds, OctetAt, Completed, Pushed;
    HoldsNext(acc, x, (phase + 1) % 4);
    CompletedIs(acc, last, x);
    NothingCompleted(last, x);
  }

  // ---- Encoding: what one more byte adds

  /** The indices that the bytes determine completely. */
  function Whole(b: seq<bv8>): seq<bv6> {
    if |b| == 0 then []
    else if |b| == 1 then [First(Group(b[0], 0, 0))]
    else if |b| == 2 then [First(Group(b[0], b[1], 0)), Second(Group(b[0], b[1], 0))]
    else
      var g := Group(b[0], b[1], b[2]);
      [First(g), Second(g), Third(g), Fourth(g)] + Whole(b[3..])
  }

  function LastByte(b: seq<bv8>): bv8 { if b == [] then 0 else b[|b| - 1] }

  /** The indices that byte x completes when it is byte number `phase` of its group. */
  function Emitted(phase: nat, last: bv8, x: bv8): seq<bv6> {
    if phase == 0 then [(x >> 2) as bv6]
    else if phase == 1 then [(((last & 0x3) << 4) | (x >> 4)) as bv6]
    else [(((last & 0xF) << 2) | (x >> 6)) as bv6, (x & 0x3F) as bv6]
  }

  /** The index that is left, filled with zero bits. */
  function Rest(phase: nat, last: bv8): seq<bv6> {
    if phase == 1 then [((last & 0x3) << 4) as bv6]
    else if phase == 2 then [((last & 0xF) << 2) as bv6]
    else []
  }

  lemma GroupIndices(a: bv8, b: bv8, c: bv8)
    ensures [First(Group(a, b, c))] == Emitted(0, 0, a)
    ensures [Second(Group(a, b, c))] == Emitted(1, a, b)
    ensures [Third(Group(a, b, c)), Fourth(Group(a, b, c))] == Emitted(2, b, c)
    ensures [Second(Group(a, 0, 0))] == Rest(1, a)
    ensures [Third(Group(a, b, 0))] == Rest(2, b)
    ensures Emitted(0, b, a) == Emitted(0, 0, a)
  {
  }

  lemma {:induction false} SextetsAreWhole(b: seq<bv8>)
    ensures Sextets(b) == Whole(b) + Rest(|b| % 3, LastByte(b))
  {
    hide Group, First, Second, Third, Fourth, Rest;
    if |b| >= 3 {
      SextetsAreWhole(b[3..]);
      RestOfTail(b);
    } else if |b| == 2 {
      GroupIndices(b[0], b[1], 0);
    } else if |b| == 1 {
      GroupIndices(b[0], 0, 0);
    } else {
      NoRest(LastByte(b));
    }
  }

  lemma NoRest(last: bv8)
    ensures Rest(0, last) == []
  {
  }

  lemma RestOfTail(b: seq<bv8>)
    requires |b| >= 3
    ensures Rest(|b| % 3, LastByte(b)) == Rest(|b[3..]| % 3, LastByte(b[3..]))
  {
    if |b| > 3 {
      assert LastByte(b[3..]) == LastByte(b);
    }
  }

  lemma WholeGroup(b: seq<bv8>)
    requires |b| >= 3
    ensures Whole(b) == Whole(b[..3]) + Whole(b[3..])
  {
    hide Group, First, Second, Third, Fourth;
    var head := b[..3];
    assert head[3..] == [] && head[0] == b[0] && head[1] == b[1] && head[2] == b[2];
  }

  lemma WholeSmall(a: bv8, b: bv8, c: bv8)
    ensures Whole([]) == []
    ensures Whole([a]) == Emitted(0, 0, a)
    ensures Whole([a, b]) == Emitted(0, 0, a) + Emitted(1, a, b)
    ensures Whole([a, b, c]) == Emitted(0, 0, a) + Emitted(1, a, b) + Emitted(2, b, c)
  {
    hide Group, First, Second, Third, Fourth, Emitted;
    GroupIndices(a, 0, 0);
    GroupIndices(a, b, 0);
    GroupIndices(a, b, c);
    assert [a, b, c][3..] == [];
  }

  lemma {:induction false} WholeSnoc(b: seq<bv8>, x: bv8)
    ensures Whole(b + [x]) == Whole(b) + Emitted(|b| % 3, LastByte(b), x)
  {
    hide Whole, Emitted;
    if |b| >= 3 {
      var t := b + [x];
      assert t[..3] == b[..3] && t[3..] == b[3..] + [x];
      WholeGroup(b);
      WholeGroup(t);
      WholeSnoc(b[3..], x);
      EmittedOfTail(b, x);
    } else if b == [] {
      WholeSmall(x, 0, 0);
      assert b + [x] == [x];
    } else if |b| == 1 {
      WholeSmall(b[0], x, 0);
      assert b == [b[0]] && b + [x] == [b[0], x];
    } else {
      WholeSmall(b[0], b[1], x);
      assert b == [b[0], b[1]] && b + [x] == [b[0], b[1], x];
    }
  }

  lemma EmittedOfTail(b: seq<bv8>, x: bv8)
    requires |b| >= 3
    ensures Emitted(|b| % 3, LastByte(b), x) == Emitted(|b[3..]| % 3, LastByte(b[3..]), x)
  {
    if |b| > 3 {
      assert LastByte(b[3..]) == LastByte(b);
    }
  }

  /** The accumulator's low bits are the bits of the last byte not yet written. */
  predicate HoldsByte(acc: bv32, phase: nat, last: bv8) {
    if phase == 1 then acc & 0x3 == (last as bv32) & 0x3
    else if phase == 2 then acc & 0xF == (last as bv32) & 0xF
    else true
  }

  function PushedByte(acc: bv32, x: bv8): bv32 { (acc << 8) + (x as bv32) }

  /** `(acc >> n) & 0x3F` */
  function IndexAt(acc: bv32, n: nat): bv6
    requires n < 32
  {
    (Sar(acc, n) & 0x3F) as bv6
  }

  lemma IndexAtIs(acc: bv32)
    ensures IndexAt(acc, 6) == ((acc >> 6) & 0x3F) as bv6
    ensures IndexAt(acc, 4) == ((acc >> 4) & 0x3F) as bv6
    ensures IndexAt(acc, 2) == ((acc >> 2) & 0x3F) as bv6
    ensures IndexAt(acc, 0) == (acc & 0x3F) as bv6
  {
  }

  lemma HoldsByteNext(acc: bv32, x: bv8, phase: nat)
    ensures HoldsByte(PushedByte(acc, x), phase, x)
  {
  }

  lemma EmittedIs(acc: bv32, last: bv8, x: bv8)
    ensures Emitted(0, last, x) == [IndexAt(PushedByte(acc, x), 2)]
    ensures HoldsByte(acc, 1, last) ==> Emitted(1, last, x) == [IndexAt(PushedByte(acc, x), 4)]
    ensures HoldsByte(acc, 2, last) ==>
      Emitted(2, last, x) == [IndexAt(PushedByte(acc, x), 6), IndexAt(PushedByte(acc, x), 0)]
  {
    hide IndexAt;
    IndexAtIs(PushedByte(acc, x));
  }

  /** What the encoder still writes once `bits` bits above a whole index are waiting. */
  function Drained(acc: bv32, bits: int): seq<bv6>
    requires bits < 32
    decreases bits + 6
  {
    if bits < 0 then [] else [IndexAt(acc, bits)] + Drained(acc, bits - 6)
  }

  /** Adding one more byte: what the accumulator holds and what it writes out. */
  lemma PushByte(acc: bv32, phase: nat, last: bv8, x: bv8)
    requires phase < 3 && HoldsByte(acc, phase, last)
    ensures HoldsByte(PushedByte(acc, x), (phase + 1) % 3, x)
    ensures Emitted(phase, last, x) == Drained(PushedByte(acc, x), 2 + 2 * phase)
  {
    hide HoldsByte, IndexAt, Emitted, PushedByte;
    HoldsByteNext(acc, x, (phase + 1) % 3);
    EmittedIs(acc, last, x);
  }

  /** After the last byte: the waiting bits, filled with zeros. */
  lemma FlushByte(acc: bv32, phase: nat, last: bv8)
    requires 1 <= phase < 3 && HoldsByte(acc, phase, last)
    ensures Rest(phase, last) == [IndexAt(acc << 8, 2 + 2 * phase)]
  {
    hide IndexAt;
    IndexAtIs(acc << 8);
  }
}
