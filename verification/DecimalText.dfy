/** Decimal text: the reference the printers are compared with. */
module DecimalText {

  /** The canonical decimal text of a natural number. */
  function Decimal(v: nat): string {
    if v < 10 then [DigitChar(v)] else Decimal(v / 10) + [DigitChar(v % 10)]
  }

  function DigitChar(d: nat): char
    requires d < 10
  {
    (48 + d) as char
  }

  function DecimalInt(v: int): string {
    if v < 0 then "-" + Decimal(-v) else Decimal(v)
  }

  lemma DecimalZero()
    ensures Decimal(0) == "0"
  {
  }

  lemma DecimalStep(v: nat)
    requires v > 0
    ensures Decimal(v) == (if v / 10 == 0 then "" else Decimal(v / 10)) + [DigitChar(v % 10)]
  {
  }

  lemma DecimalNotEmpty(v: nat)
    ensures |Decimal(v)| > 0
  {
  }
}
