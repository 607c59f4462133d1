/**
 Strict readers of UTF-8 (RFC 3629, sections 3 and 4) and of UTF-16 (RFC 2781, section 2.2), in the numbers
 of the standards and apart from the codec: what they accept stands for exactly one list of code points.
 */
module Rfc3629 {
  import opened JsText

  datatype Character = Malformed | Character(point: bv32, width: nat)

  predicate IsTail(b: bv8) { 0x80 <= b <= 0xBF }

  /** The six low bits that a continuation byte carries. */
  function Low(b: bv8): bv32 { (b as bv32) & 0x3F }

  /** The first character by the ABNF of section 4: no overlong form, no surrogate, nothing past 10FFFF. */
  function ReadPoint(b: seq<bv8>): (r: Character)
    requires b != []
    ensures r.Character? ==> 1 <= r.width <= |b|
  {
    if b[0] <= 0x7F then Character(b[0] as bv32, 1)
    else if 0xC2 <= b[0] <= 0xDF && |b| >= 2 && IsTail(b[1]) then
      Character((((b[0] as bv32) & 0x1F) << 6) | Low(b[1]), 2)
    else if 0xE0 <= b[0] <= 0xEF && |b| >= 3 && IsTail(b[1]) && IsTail(b[2])
            && (b[0] == 0xE0 ==> b[1] >= 0xA0) && (b[0] == 0xED ==> b[1] <= 0x9F) then
      Character((((b[0] as bv32) & 0x0F) << 12) | (Low(b[1]) << 6) | Low(b[2]), 3)
    else if 0xF0 <= b[0] <= 0xF4 && |b| >= 4 && IsTail(b[1]) && IsTail(b[2]) && IsTail(b[3])
            && (b[0] == 0xF0 ==> b[1] >= 0x90) && (b[0] == 0xF4 ==> b[1] <= 0x8F) then
      Character((((b[0] as bv32) & 0x07) << 18) | (Low(b[1]) << 12) | (Low(b[2]) << 6) | Low(b[3]), 4)
    else Malformed
  }

  /** The bytes of a code point of the basic plane (section 3). */
  function Written(unit: bv16): (b: seq<bv8>)
    ensures 1 <= |b| <= 3
  {
    if unit <= 0x7F then [unit as bv8]
    else if unit <= 0x7FF then [(0xC0 | (unit >> 6)) as bv8, (0x80 | (unit & 0x3F)) as bv8]
    else [(0xE0 | (unit >> 12)) as bv8, (0x80 | ((unit >> 6) & 0x3F)) as bv8, (0x80 | (unit & 0x3F)) as bv8]
  }

  function Wide(u: bv16): bv32 { u as bv32 }

  function Before(point: bv32, rest: Option<seq<bv32>>): Option<seq<bv32>> {
    match rest
    case None => None
    case Some(points) => Some([point] + points)
  }

  /** The code points of a UTF-8 byte string. */
  function Points8(b: seq<bv8>): Option<seq<bv32>> {
    if b == [] then Some([])
    else
      match ReadPoint(b)
      case Malformed => None
      case Character(point, width) => Before(point, Points8(b[width..]))
  }

  function Paired(high: bv16, low: bv16): bv32 {
    0x10000 + (((high - 0xD800) as bv32) << 10) + ((low - 0xDC00) as bv32)
  }

  /** The code points of a UTF-16 string in which every surrogate is half of a pair. */
  function Points16(v: seq<bv16>): Option<seq<bv32>> {
    if v == [] then Some([])
    else if v[0] <= 0xD7FF || v[0] >= 0xE000 then Before(Wide(v[0]), Points16(v[1..]))
    else if v[0] <= 0xDBFF && |v| > 1 && 0xDC00 <= v[1] <= 0xDFFF then
      Before(Paired(v[0], v[1]), Points16(v[2..]))
    else None
  }
}
