/** The texts that `from_str` in base/common/wide_integer_impl.h reads, hexadecimal ones included:
    written out here digit by digit, and read back. */
module WideHex {
  import opened Arith
  import opened WideValue
  import opened WideText

  const DECIMALS: string := "0123456789"
  const LOWER: string := "0123456789abcdef"
  const UPPER: string := "0123456789ABCDEF"

  /** A hexadecimal digit and the letter case it is written in. */
  datatype Digit = Digit(value: nat, upper: bool)

  predicate AllDigits(ds: seq<Digit>) {
    forall i :: 0 <= i < |ds| ==> ds[i].value < 16
  }

  function Letter(d: Digit): char
    requires d.value < 16
  {
    if d.upper then UPPER[d.value] else LOWER[d.value]
  }

  function Spelled(ds: seq<Digit>): string
    requires AllDigits(ds)
  {
    seq(|ds|, i requires 0 <= i < |ds| => Letter(ds[i]))
  }

  /** The number the digits make up, the highest digit first. */
  function Worth(ds: seq<Digit>): nat {
    if |ds| == 0 then 0 else 16 * Worth(ds[..|ds| - 1]) + ds[|ds| - 1].value
  }

  /** The digits of v without leading zeros, each in the case chosen for its place. */
  function HexDigits(v: nat, upper: nat -> bool, place: nat): seq<Digit>
    decreases v
  {
    (if v < 16 then [] else HexDigits(v / 16, upper, place + 1)) + [Digit(v % 16, upper(place))]
  }

  lemma {:induction false} HexDigitsWorth(v: nat, upper: nat -> bool, place: nat)
    ensures AllDigits(HexDigits(v, upper, place)) && Worth(HexDigits(v, upper, place)) == v
    decreases v
  {
    var ds := HexDigits(v, upper, place);
    var n := |ds| - 1;
    if v < 16 {
      assert ds[..n] == [];
    } else {
      HexDigitsWorth(v / 16, upper, place + 1);
      assert ds[..n] == HexDigits(v / 16, upper, place + 1);
    }
  }

  // ----- The digits of each table are read as their places

  lemma LetterRead(d: Digit)
    requires d.value < 16
    ensures DigitValue(Letter(d), true) == Number(d.value) && Letter(d) != '\0'
  {
  }

  lemma {:induction false} ReadOneMore(s: string, c: char, hex: bool, acc: nat)
    requires NumberOf(s, hex, acc).Number? && DigitValue(c, hex).Number?
    ensures NumberOf(s + [c], hex, acc)
         == Number(NumberOf(s, hex, acc).value * (if hex then 16 else 10) + DigitValue(c, hex).value)
    decreases |s|
  {
    hide DigitValue;
    if s == "" {
      assert s + [c] == [c] && [c][1..] == "";
    } else {
      assert (s + [c])[1..] == s[1..] + [c];
      ReadOneMore(s[1..], c, hex, acc * Radix(hex) + DigitValue(s[0], hex).value);
    }
  }

  lemma {:induction false} SpelledRead(ds: seq<Digit>)
    requires AllDigits(ds)
    ensures NumberOf(Spelled(ds), true, 0) == Number(Worth(ds)) && '\0' !in Spelled(ds)
    decreases |ds|
  {
    hide DigitValue, Letter;
    if |ds| > 0 {
      var n := |ds| - 1;
      SpelledRead(ds[..n]);
      LetterRead(ds[n]);
      ReadOneMore(Spelled(ds[..n]), Letter(ds[n]), true, 0);
      assert Spelled(ds) == Spelled(ds[..n]) + [Letter(ds[n])];
    }
  }

  // ----- Whole texts

  function HexText(ds: seq<Digit>, minus: bool, capital: bool): string
    requires AllDigits(ds)
  {
    (if minus then "-" else "") + ((if capital then "0X" else "0x") + Spelled(ds))
  }

  lemma HexTextDenotes(ds: seq<Digit>, minus: bool, capital: bool, signed: bool)
    requires AllDigits(ds) && (minus ==> signed)
    ensures var s := HexText(ds, minus, capital);
      '\0' !in s && Denoted(s, signed) == Number(Worth(ds)) && (HasMinus(s, signed) <==> minus)
  {
    hide NumberOf, Spelled, Worth;
    SpelledRead(ds);
    var s, body := HexText(ds, minus, capital), (if capital then "0X" else "0x") + Spelled(ds);
    assert Unsigned(s, signed) == body;
    assert body[2..] == Spelled(ds);
  }

  /** Every hexadecimal text reads back as its number modulo the capacity: either letter case digit
      by digit, either prefix, leading zeros, a minus in a signed type. */
  method ParseSpelled(ds: seq<Digit>, minus: bool, capital: bool, signed: bool, limbs: nat) returns (r: Parsed)
    requires AllDigits(ds) && (minus ==> signed) && limbs > 0
    ensures r.Parsed? && |r.value| == limbs
    ensures Val(r.value) == Mod(if minus then 0 - Worth(ds) else Worth(ds), Cap(limbs))
  {
    hide Val, Cap, Mod, Div, Denoted, HexText, Worth;
    HexTextDenotes(ds, minus, capital, signed);
    r := FromStr(HexText(ds, minus, capital), signed, limbs);
  }

  /** Printing any number in hexadecimal and parsing it. */
  method ParseHex(v: nat, upper: nat -> bool, minus: bool, signed: bool, limbs: nat) returns (r: Parsed)
    requires (minus ==> signed) && limbs > 0
    ensures r.Parsed? && |r.value| == limbs && Val(r.value) == Mod(if minus then 0 - v else v, Cap(limbs))
  {
    hide Val, Cap, Mod, Div, Worth, HexDigits;
    HexDigitsWorth(v, upper, 0);
    r := ParseSpelled(HexDigits(v, upper, 0), minus, false, signed, limbs);
  }

  // ----- Which texts are readable

  ghost predicate OnlyFrom(s: string, table: string) {
    forall i :: 0 <= i < |s| ==> s[i] in table
  }

  function DigitTable(hex: bool): string {
    if hex then LOWER + UPPER else DECIMALS
  }

  lemma InTable(c: char, hex: bool)
    ensures DigitValue(c, hex).Number? <==> c in DigitTable(hex)
  {
    var d := DigitValue(c, hex);
    if d.Number? {
      assert LOWER[d.value] == c || UPPER[d.value] == c;
      if !hex {
        assert DECIMALS[d.value] == c;
      } else if LOWER[d.value] == c {
        assert (LOWER + UPPER)[d.value] == c;
      } else {
        assert (LOWER + UPPER)[16 + d.value] == c;
      }
    }
  }

  lemma {:induction false} ReadableDigits(s: string, hex: bool, acc: nat)
    ensures NumberOf(s, hex, acc).Number? <==> OnlyFrom(s, DigitTable(hex))
    decreases |s|
  {
    hide DigitValue, DigitTable, OnlyFrom;
    OnlyFromParts(s, DigitTable(hex));
    if s != "" {
      InTable(s[0], hex);
      var d := DigitValue(s[0], hex);
      if d.Number? {
        ReadableDigits(s[1..], hex, acc * Radix(hex) + d.value);
      }
    }
  }

  lemma OnlyFromParts(s: string, table: string)
    ensures OnlyFrom(s, table) <==> s == "" || (s[0] in table && OnlyFrom(s[1..], table))
  {
    if s != "" && s[0] in table && OnlyFrom(s[1..], table) {
      forall i | 0 <= i < |s| ensures s[i] in table {
        assert i > 0 ==> s[i] == s[1..][i - 1];
      }
    }
  }

  /** A text is read exactly when, after a minus in a signed type, it is a 0x or 0X with digits of
      either hexadecimal table, or decimal digits; no digits at all included. */
  ghost predicate Readable(s: string, signed: bool) {
    var u := if signed && "-" <= s then s[1..] else s;
    if "0x" <= u || "0X" <= u then OnlyFrom(u[2..], LOWER + UPPER) else OnlyFrom(u, DECIMALS)
  }

  /** `from_str` throws exactly on the other texts. */
  method ParseOrThrow(s: CString, signed: bool, limbs: nat) returns (r: Parsed)
    requires limbs > 0
    ensures r.Parsed? <==> Readable(s, signed)
  {
    hide Val, Cap, Mod, Div, NumberOf, OnlyFrom;
    var u := Unsigned(s, signed);
    assert IsHex(u) <==> "0x" <= u || "0X" <= u;
    if IsHex(u) {
      ReadableDigits(u[2..], true, 0);
    } else {
      ReadableDigits(u, false, 0);
    }
    r := FromStr(s, signed, limbs);
  }
}
