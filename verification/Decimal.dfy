/** Decimal digits of natural numbers, as `Number` reads them and `String` prints them. */
module Decimal {
  import opened JsText

  predicate IsDecimalDigit(u: Unit) { 0x30 <= u <= 0x39 }

  predicate AllDigits(text: Text) { forall i | 0 <= i < |text| :: IsDecimalDigit(text[i]) }

  /** The regular expression `^[0-9]+$`. */
  predicate IsDecimal(text: Text) { text != [] && AllDigits(text) }

  function Value(text: Text): nat
    requires AllDigits(text)
  {
    if text == [] then 0
    else
      var digit: int := text[|text| - 1];
      assert IsDecimalDigit(digit);
      10 * Value(text[..|text| - 1]) + (digit - 0x30)
  }

  function Print(n: nat): (text: Text)
    ensures IsDecimal(text)
  {
    if n < 10 then [0x30 + n] else Print(n / 10) + [0x30 + n % 10]
  }

  lemma {:induction false} ValueOfPrint(n: nat)
    ensures Value(Print(n)) == n
  {
    if n >= 10 {
      assert Print(n)[..|Print(n)| - 1] == Print(n / 10);
      ValueOfPrint(n / 10);
    }
  }

  lemma PrintIsDecimal(n: nat)
    ensures forall u | u in Print(n) :: IsDecimalDigit(u)
  {
  }
}
