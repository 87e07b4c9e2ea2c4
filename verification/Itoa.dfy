/** Integer printing (base/common/itoa.h). The fast printer divides by powers of ten through
    multiplication and splits a number into halves of its digits; the second printer fills the
    buffer from the back. Both are proved against the canonical decimal text. */
module Itoa {
  import opened DecimalText

  // ----- Text in a buffer

  /** The buffer after writing t at p. */
  function Written(s: seq<char>, p: nat, t: string): seq<char>
    requires p + |t| <= |s|
  {
    s[..p] + t + s[p + |t|..]
  }

  lemma WrittenTwice(s: seq<char>, p: nat, a: string, b: string)
    requires p + |a| + |b| <= |s|
    ensures |Written(s, p, a)| == |s|
    ensures Written(Written(s, p, a), p + |a|, b) == Written(s, p, a + b)
  {
  }

  // ----- Division by multiplication

  /** A number of N bytes is below 256^N; its digits are split N at a time. */
  predicate Size(n: nat) {
    n in {1, 2, 4, 8}
  }

  function Range(n: nat): nat
    requires Size(n)
  {
    if n == 1 then 0x100 else if n == 2 then 0x1_0000 else if n == 4 then 0x1_0000_0000
    else 0x1_0000_0000_0000_0000
  }

  /** 10^N. */
  function Pow10(n: nat): nat
    requires Size(n)
  {
    if n == 1 then 10 else if n == 2 then 100 else if n == 4 then 1_0000 else 1_0000_0000
  }

  /** 10^2N. */
  function Square(n: nat): nat
    requires Size(n)
  {
    if n == 1 then 100 else if n == 2 then 1_0000 else if n == 4 then 1_0000_0000 else 1_0000_0000_0000_0000
  }

  /** Quotient and remainder by 10^N. */
  function Quot(u: nat, n: nat): nat
    requires Size(n)
  {
    u / Pow10(n)
  }

  function Rem(u: nat, n: nat): nat
    requires Size(n)
  {
    u % Pow10(n)
  }

  /** Halving the size takes the square root of the range of digits. */
  lemma HalfSize(n: nat)
    requires Size(n) && n > 1
    ensures Size(n / 2) && 2 * (n / 2) == n && Square(n / 2) == Pow10(n)
  {
  }

  lemma Ranges(n: nat)
    requires Size(n)
    ensures Pow10(n) < Square(n) < Range(n)
  {
  }

  /** What fits where. */
  lemma Sizes(u: nat, n: nat)
    requires Size(n) && u < Range(n)
    ensures Rem(u, n) < Pow10(n) && Quot(u, n) < Square(n) && Quot(u, n) < Range(n)
    ensures u < Square(n) ==> Quot(u, n) < Pow10(n)
    ensures u >= Pow10(n) ==> Quot(u, n) > 0
    ensures u >= Square(n) ==> Quot(u, n) >= Pow10(n)
  {
  }

  /** The quotient of `split`: multiply and shift, with the add of the two-byte case. */
  function MagicQuotient(v: nat, n: nat): nat
    requires Size(n)
  {
    if n == 1 then 205 * v / 0x800
    else if n == 2 then 41943 * (v + 1) / 0x40_0000
    else if n == 4 then 3518437209 * v / 0x2000_0000_0000
    else 12379400392853802749 * v / 0x400_0000_0000_0000_0000_0000
  }

  /** The quotient is exact for every number of the size, and no product leaves its type. */
  lemma MagicExact(v: nat, n: nat)
    requires Size(n) && v < Range(n)
    ensures MagicQuotient(v, n) == Quot(v, n)
    ensures n == 2 ==> 41943 * (v + 1) < 0x1_0000_0000
    ensures n == 4 ==> 3518437209 * v < 0x1_0000_0000_0000_0000
    ensures n == 8 ==> 12379400392853802749 * v < 0x1_0000_0000_0000_0000_0000_0000_0000_0000
  {
    if n == 1 {
      var q, r := v / 10, v % 10;
      assert v == 10 * q + r;
    } else if n == 2 {
      var q, r := v / 100, v % 100;
      assert v == 100 * q + r;
    } else if n == 4 {
      var q, r := v / 1_0000, v % 1_0000;
      assert v == 1_0000 * q + r;
    } else {
      var q, r := v / 1_0000_0000, v % 1_0000_0000;
      assert v == 1_0000_0000 * q + r;
    }
  }

  function Split(v: nat, n: nat): (qr: (nat, nat))
    requires Size(n) && v < Range(n)
    ensures qr == (Quot(v, n), Rem(v, n))
  {
    MagicExact(v, n);
    (MagicQuotient(v, n), v - MagicQuotient(v, n) * Pow10(n))
  }

  // ----- Digits with leading zeros

  /** Exactly k digits. */
  function Padded(v: nat, k: nat): (t: string)
    ensures |t| == k
  {
    if k == 0 then "" else Padded(v / 10, k - 1) + [DigitChar(v % 10)]
  }

  function Ten(k: nat): (t: nat)
    ensures t > 0
  {
    if k == 0 then 1 else 10 * Ten(k - 1)
  }

  lemma TenSucc(k: nat)
    requires k > 0
    ensures Ten(k) == 10 * Ten(k - 1)
  {
  }

  lemma ShiftDigits(q: nat, t: nat, r: nat)
    ensures (q * (10 * t) + r) / 10 == q * t + r / 10 && (q * (10 * t) + r) % 10 == r % 10
  {
    var x := q * t;
    assert q * (10 * t) == 10 * x;
  }

  /** Splitting a padded text at 10^k. */
  lemma {:induction false} PaddedSplit(q: nat, r: nat, j: nat, k: nat)
    requires r < Ten(k)
    ensures Padded(q * Ten(k) + r, j + k) == Padded(q, j) + Padded(r, k)
    decreases k
  {
    hide Ten;
    if k == 0 {
      TenZero();
      assert Padded(q, j) + "" == Padded(q, j);
    } else {
      TenSucc(k);
      var t := Ten(k - 1);
      ShiftDigits(q, t, r);
      PaddedSplit(q, r / 10, j, k - 1);
      assert Padded(q, j) + (Padded(r / 10, k - 1) + [DigitChar(r % 10)])
          == (Padded(q, j) + Padded(r / 10, k - 1)) + [DigitChar(r % 10)];
    }
  }

  lemma TenZero()
    ensures Ten(0) == 1
  {
  }

  /** The canonical text of q * 10^k + r is that of q followed by k digits of r. */
  lemma {:induction false} DecimalSplit(q: nat, r: nat, k: nat)
    requires q > 0 && r < Ten(k)
    ensures Decimal(q * Ten(k) + r) == Decimal(q) + Padded(r, k)
    decreases k
  {
    hide Ten, Decimal;
    if k == 0 {
      TenZero();
      assert Decimal(q) + "" == Decimal(q);
    } else {
      TenSucc(k);
      var t := Ten(k - 1);
      ShiftDigits(q, t, r);
      Positive(q, t);
      DecimalSplit(q, r / 10, k - 1);
      DecimalStep(q * Ten(k) + r);
      assert Decimal(q) + (Padded(r / 10, k - 1) + [DigitChar(r % 10)])
          == (Decimal(q) + Padded(r / 10, k - 1)) + [DigitChar(r % 10)];
    }
  }

  lemma Positive(q: nat, t: nat)
    requires q > 0 && t > 0
    ensures q * t > 0 && q * (10 * t) > 0
  {
  }

  lemma Pow10IsTen(n: nat)
    requires Size(n)
    ensures Ten(n) == Pow10(n)
  {
    hide Ten;
    TenValues();
  }

  lemma Recombine(u: nat, n: nat)
    requires Size(n)
    ensures u == Quot(u, n) * Pow10(n) + Rem(u, n) && Rem(u, n) < Pow10(n)
  {
  }

  /** The digits of a number that splits at 10^n. */
  lemma SplitText(u: nat, n: nat)
    requires Size(n)
    ensures var q, r := Quot(u, n), Rem(u, n);
      && (q > 0 ==> Decimal(u) == Decimal(q) + Padded(r, n))
      && Padded(u, 2 * n) == Padded(q, n) + Padded(r, n)
  {
    hide Decimal, Padded, Ten, Quot, Rem, Pow10;
    Pow10IsTen(n);
    var q, r := Quot(u, n), Rem(u, n);
    Recombine(u, n);
    if q > 0 {
      DecimalSplit(q, r, n);
    }
    PaddedSplit(q, r, n, n);
  }

  // ----- The fast printer

  method OutDigit(buf: array<char>, p: nat, v: nat) returns (p': nat)
    requires v < 10 && p < buf.Length
    modifies buf
    ensures p' == p + 1 && buf[..] == Written(old(buf[..]), p, Decimal(v))
  {
    buf[p] := DigitChar(v);
    p' := p + 1;
  }

  /** Both digits, from the table of the pairs 00 to 99. */
  method OutTwoDigits(buf: array<char>, p: nat, v: nat) returns (p': nat)
    requires v < 100 && p + 2 <= buf.Length
    modifies buf
    ensures p' == p + 2 && buf[..] == Written(old(buf[..]), p, Padded(v, 2))
  {
    TwoDigits(v);
    buf[p], buf[p + 1] := DigitChar(v / 10), DigitChar(v % 10);
    p' := p + 2;
  }

  lemma TwoDigits(v: nat)
    requires v < 100
    ensures Padded(v, 2) == [DigitChar(v / 10), DigitChar(v % 10)]
    ensures v >= 10 ==> Decimal(v) == Padded(v, 2)
  {
    hide Padded, Decimal, DigitChar;
    var q := v / 10;
    PaddedStep(v, 2);
    PaddedStep(q, 1);
    PaddedNone(q / 10);
    if v >= 10 {
      DecimalStep(v);
      DecimalStep(q);
    }
  }

  lemma PaddedStep(v: nat, k: nat)
    requires k > 0
    ensures Padded(v, k) == Padded(v / 10, k - 1) + [DigitChar(v % 10)]
  {
  }

  lemma PaddedNone(v: nat)
    ensures Padded(v, 0) == ""
  {
  }

  /** All 2n digits, leading zeros included. */
  method Tail(buf: array<char>, p: nat, u: nat, n: nat) returns (p': nat)
    requires Size(n) && u < Square(n) && p + 2 * n <= buf.Length
    modifies buf
    ensures p' == p + 2 * n && buf[..] == Written(old(buf[..]), p, Padded(u, 2 * n))
    decreases n
  {
    hide Padded, MagicQuotient, Pow10, Range, Quot, Rem, Split, Written;
    Ranges(n);
    Sizes(u, n);
    if n == 1 {
      p' := OutTwoDigits(buf, p, u);
    } else {
      HalfSize(n);
      var x := Split(u, n);
      ghost var s := buf[..];
      p' := Tail(buf, p, x.0, n / 2);
      p' := Tail(buf, p', x.1, n / 2);
      WrittenTwice(s, p, Padded(x.0, n), Padded(x.1, n));
      SplitText(u, n);
    }
  }

  /** The digits without leading zeros, for a number of at most 2n digits. */
  method Head(buf: array<char>, p: nat, u: nat, n: nat) returns (p': nat)
    requires Size(n) && u < Square(n) && p + |Decimal(u)| <= buf.Length
    modifies buf
    ensures p' == p + |Decimal(u)| && buf[..] == Written(old(buf[..]), p, Decimal(u))
    decreases n
  {
    hide Padded, Decimal, MagicQuotient, Pow10, Range, Quot, Rem, Split, Written;
    Ranges(n);
    Sizes(u, n);
    if n > 1 {
      HalfSize(n);
    }
    if n == 1 {
      OneByteText(u);
      if u < 10 {
        p' := OutDigit(buf, p, u);
      } else {
        p' := OutTwoDigits(buf, p, u);
      }
    } else if u < Pow10(n) {
      p' := Head(buf, p, u, n / 2);
    } else {
      var x := Split(u, n);
      SplitText(u, n);
      p' := HeadTail(buf, p, x, n);
    }
  }

  lemma OneByteText(u: nat)
    requires u < 100
    ensures if u < 10 then |Decimal(u)| == 1 else Decimal(u) == Padded(u, 2)
  {
    TwoDigits(u);
  }

  /** `head` of a quotient and remainder by 10^n. */
  method HeadTail(buf: array<char>, p: nat, x: (nat, nat), n: nat) returns (p': nat)
    requires Size(n) && n > 1 && x.0 < Pow10(n) && x.1 < Pow10(n) && p + |Decimal(x.0)| + n <= buf.Length
    modifies buf
    ensures p' == p + |Decimal(x.0)| + n
    ensures buf[..] == Written(old(buf[..]), p, Decimal(x.0) + Padded(x.1, n))
    decreases n, 0
  {
    hide Padded, Decimal, Pow10, Square, Written;
    HalfSize(n);
    ghost var s := buf[..];
    p' := Head(buf, p, x.0, n / 2);
    p' := Tail(buf, p', x.1, n / 2);
    WrittenTwice(s, p, Decimal(x.0), Padded(x.1, n));
  }

  /** `uitoa`: any number of n bytes. */
  method Uitoa(buf: array<char>, p: nat, u: nat, n: nat) returns (p': nat)
    requires Size(n) && u < Range(n) && p + |Decimal(u)| <= buf.Length
    modifies buf
    ensures p' == p + |Decimal(u)| && buf[..] == Written(old(buf[..]), p, Decimal(u))
  {
    hide Padded, Decimal, MagicQuotient, Pow10, Square, Quot, Rem, Split, Written;
    if n == 1 {
      p' := UitoaByte(buf, p, u);
      return;
    }
    Sizes(u, n);
    HalfSize(n);
    if u < Pow10(n) {
      p' := Head(buf, p, u, n / 2);
      return;
    }
    var x := Split(u, n);
    SplitText(u, n);
    if u < Square(n) {
      p' := HeadTail(buf, p, x, n);
    } else {
      p' := Large(buf, p, x, n);
    }
  }

  /** `large`: three groups of digits. */
  method Large(buf: array<char>, p: nat, x: (nat, nat), n: nat) returns (p': nat)
    requires Size(n) && n > 1 && Pow10(n) <= x.0 < Square(n) && x.0 < Range(n) && x.1 < Pow10(n)
    requires p + |Decimal(x.0)| + n <= buf.Length
    modifies buf
    ensures p' == p + |Decimal(x.0)| + n
    ensures buf[..] == Written(old(buf[..]), p, Decimal(x.0) + Padded(x.1, n))
  {
    hide Padded, Decimal, MagicQuotient, Pow10, Square, Range, Quot, Rem, Split, Written;
    ghost var s := buf[..];
    Sizes(x.0, n);
    HalfSize(n);
    var y := Split(x.0, n);
    SplitText(x.0, n);
    p' := HeadTail(buf, p, y, n);
    p' := Tail(buf, p', x.1, n / 2);
    WrittenTwice(s, p, Decimal(x.0), Padded(x.1, n));
  }

  method UitoaByte(buf: array<char>, p: nat, u: nat) returns (p': nat)
    requires u < 0x100 && p + |Decimal(u)| <= buf.Length
    modifies buf
    ensures p' == p + |Decimal(u)| && buf[..] == Written(old(buf[..]), p, Decimal(u))
  {
    hide Padded, Decimal;
    if u < 100 {
      OneByteText(u);
    }
    if u < 10 {
      p' := OutDigit(buf, p, u);
    } else if u < 100 {
      p' := OutTwoDigits(buf, p, u);
    } else {
      SplitText(u, 2);
      ghost var s := buf[..];
      OneByteText(u / 100);
      p' := OutDigit(buf, p, u / 100);
      p' := OutTwoDigits(buf, p', u % 100);
      WrittenTwice(s, p, Decimal(u / 100), Padded(u % 100, 2));
    }
  }

  /** `itoa` of a signed number: the minus sign is stored always and stays only if negative. */
  method ItoaSigned(buf: array<char>, p: nat, i: int, n: nat) returns (p': nat)
    requires Size(n) && 0 - Range(n) <= 2 * i < Range(n) && p + |DecimalInt(i)| <= buf.Length
    modifies buf
    ensures p' == p + |DecimalInt(i)| && buf[..] == Written(old(buf[..]), p, DecimalInt(i))
  {
    hide Decimal, Magnitude, Range, Written;
    ghost var s := buf[..];
    var u := Magnitude(i, n);
    DecimalNotEmpty(u);
    StoreMinus(buf, p);
    if i < 0 {
      p' := Uitoa(buf, p + 1, u, n);
      WrittenTwice(s, p, "-", Decimal(u));
    } else {
      p' := Uitoa(buf, p, u, n);
      Overwritten(s, p, "-", Decimal(u));
    }
  }

  /** The absolute value without a branch on the sign: 2 * u, masked to zero for negatives, less u,
      in the unsigned type. */
  function Magnitude(i: int, n: nat): (u: nat)
    requires Size(n) && 0 - Range(n) <= 2 * i < Range(n)
    ensures u == (if i < 0 then -i else i) && u < Range(n)
  {
    AbsoluteValue(i, Range(n));
    var asUnsigned := if i < 0 then i + Range(n) else i;
    var doubled := if i < 0 then 0 else 2 * asUnsigned;
    (doubled - asUnsigned + Range(n)) % Range(n)
  }

  method StoreMinus(buf: array<char>, p: nat)
    requires p < buf.Length
    modifies buf
    ensures buf[..] == Written(old(buf[..]), p, "-")
  {
    buf[p] := '-';
  }

  lemma AbsoluteValue(i: int, m: nat)
    requires m in {0x100, 0x1_0000, 0x1_0000_0000, 0x1_0000_0000_0000_0000} && 0 - m <= 2 * i < m
    ensures var a := if i < 0 then i + m else i; var d := if i < 0 then 0 else 2 * a;
      (d - a + m) % m == if i < 0 then -i else i
  {
  }

  lemma Overwritten(s: seq<char>, p: nat, a: string, b: string)
    requires p + |b| <= |s| && |a| <= |b|
    ensures |Written(s, p, a)| == |s| && Written(Written(s, p, a), p, b) == Written(s, p, b)
  {
  }

  // ----- The second printer

  /** The number of decimal digits. */
  function Digits10(x: nat): nat {
    if x < 10 then 1
    else if x < 100 then 2
    else if x < 1000 then 3
    else if x < 1_0000_0000_0000 then
      if x < 1_0000_0000 then
        if x < 100_0000 then (if x < 1_0000 then 4 else 5 + (if x >= 10_0000 then 1 else 0))
        else 7 + (if x >= 1000_0000 then 1 else 0)
      else if x < 100_0000_0000 then 9 + (if x >= 10_0000_0000 then 1 else 0)
      else 11 + (if x >= 1000_0000_0000 then 1 else 0)
    else 12 + Digits10(x / 1_0000_0000_0000)
  }

  /** It is the length of the canonical text. */
  lemma {:induction false} Digits10Exact(x: nat)
    ensures Digits10(x) == |Decimal(x)|
    decreases x
  {
    hide Decimal, Padded, Ten;
    if x < 10 {
      TextLength(x, 0);
    } else if x < 1_0000_0000_0000 {
      TenValues();
      var k := Digits10(x) - 1;
      TextLength(x, k);
    } else {
      TenValues();
      Digits10Exact(x / 1_0000_0000_0000);
      DecimalSplit(x / 1_0000_0000_0000, x % 1_0000_0000_0000, 12);
    }
  }

  lemma TenValues()
    ensures Ten(0) == 1 && Ten(1) == 10 && Ten(2) == 100 && Ten(3) == 1000 && Ten(4) == 1_0000
    ensures Ten(5) == 10_0000 && Ten(6) == 100_0000 && Ten(7) == 1000_0000 && Ten(8) == 1_0000_0000
    ensures Ten(9) == 10_0000_0000 && Ten(10) == 100_0000_0000 && Ten(11) == 1000_0000_0000
    ensures Ten(12) == 1_0000_0000_0000
  {
    assert Ten(3) == 1000;
    assert Ten(4) == 10 * Ten(3) && Ten(5) == 10 * Ten(4) && Ten(6) == 10 * Ten(5) && Ten(7) == 10 * Ten(6);
    assert Ten(8) == 10 * Ten(7) && Ten(9) == 10 * Ten(8) && Ten(10) == 10 * Ten(9) && Ten(11) == 10 * Ten(10);
    assert Ten(12) == 10 * Ten(11);
  }

  /** A number from 10^k up to below 10^(k+1) has k + 1 digits. */
  lemma {:induction false} TextLength(x: nat, k: nat)
    requires (k == 0 || Ten(k) <= x) && x < 10 * Ten(k)
    ensures |Decimal(x)| == k + 1
    decreases k
  {
    if k == 0 {
      TenZero();
    } else {
      TenSucc(k);
      TextLength(x / 10, k - 1);
    }
  }

  /** `writeUIntText`: two digits at a time, from the back. */
  method WriteUIntText(buf: array<char>, p: nat, x0: nat) returns (p': nat)
    requires p + |Decimal(x0)| <= buf.Length
    modifies buf
    ensures p' == p + |Decimal(x0)| && buf[..] == Written(old(buf[..]), p, Decimal(x0))
  {
    hide Decimal, Padded, Digits10, Written;
    var len := Digits10(x0);
    Digits10Exact(x0);
    var x, pp := x0, p + len;
    ghost var s := buf[..];
    ghost var done := "";
    WrittenNothing(s, pp);
    while x >= 100
      invariant Decimal(x0) == Decimal(x) + done && pp == p + |Decimal(x)|
      invariant buf[..] == Written(s, pp, done)
    {
      TwoMore(x, done);
      pp := pp - 2;
      var i := x % 100;
      ghost var two := Padded(i, 2);
      x := x / 100;
      var end := OutTwoDigits(buf, pp, i);
      WrittenBefore(s, pp, two, done);
      done := two + done;
    }
    OneByteText(x);
    ghost var first := Decimal(x);
    if x < 10 {
      var end := OutDigit(buf, p, x);
    } else {
      var end := OutTwoDigits(buf, p, x);
    }
    WrittenBefore(s, p, first, done);
    p' := p + len;
  }

  /** The two lowest digits go in front of those already written. */
  lemma TwoMore(x: nat, done: string)
    requires x >= 100
    ensures var q, two := x / 100, Padded(x % 100, 2);
      Decimal(x) + done == Decimal(q) + (two + done) && |Decimal(x)| == |Decimal(q)| + 2
  {
    hide Decimal, Padded;
    SplitText(x, 2);
    var q, two := x / 100, Padded(x % 100, 2);
    assert (Decimal(q) + two) + done == Decimal(q) + (two + done);
  }

  lemma WrittenNothing(s: seq<char>, p: nat)
    requires p <= |s|
    ensures Written(s, p, "") == s
  {
  }

  lemma WrittenBefore(s: seq<char>, p: nat, a: string, b: string)
    requires p + |a| + |b| <= |s|
    ensures |Written(s, p + |a|, b)| == |s|
    ensures Written(Written(s, p + |a|, b), p, a) == Written(s, p, a + b)
  {
  }

  const MIN_INT128: int := -170141183460469231731687303715884105728

  /** `writeSIntText`: the most negative value, whose absolute value does not fit, is a literal. */
  method WriteSIntText(buf: array<char>, p: nat, x: int) returns (p': nat)
    requires MIN_INT128 <= x < -MIN_INT128 && p + |DecimalInt(x)| <= buf.Length
    modifies buf
    ensures p' == p + |DecimalInt(x)| && buf[..] == Written(old(buf[..]), p, DecimalInt(x))
  {
    hide Decimal;
    ghost var s := buf[..];
    if x == MIN_INT128 {
      MinText();
      p' := CopyText(buf, p, "-170141183460469231731687303715884105728");
      return;
    }
    if x < 0 {
      buf[p] := '-';
      assert buf[..] == Written(s, p, "-");
      p' := WriteUIntText(buf, p + 1, -x);
      WrittenTwice(s, p, "-", Decimal(-x));
    } else {
      p' := WriteUIntText(buf, p, x);
    }
  }

  lemma MinText()
    ensures DecimalInt(MIN_INT128) == "-170141183460469231731687303715884105728"
  {
    hide Decimal;
    MinPart1();
    MinPart2();
    MinPart3();
    assert DecimalInt(MIN_INT128) == "-" + Decimal(170141183460469231731687303715884105728);
  }

  /** Four digits from the text of a number, appended. */
  lemma FourMore(q: nat, a: nat, b: nat, c: nat, d: nat)
    requires q > 0 && a < 10 && b < 10 && c < 10 && d < 10
    ensures Decimal(q * 1_0000 + (1000 * a + 100 * b + 10 * c + d))
         == Decimal(q) + [DigitChar(a), DigitChar(b), DigitChar(c), DigitChar(d)]
  {
    hide Decimal, Ten;
    TenValues();
    var r := 1000 * a + 100 * b + 10 * c + d;
    DecimalSplit(q, r, 4);
    assert r / 10 == 100 * a + 10 * b + c && r / 10 / 10 == 10 * a + b && r / 10 / 10 / 10 == a;
    assert Padded(r, 4) == Padded(r / 10, 3) + [DigitChar(d)];
    assert Padded(r / 10, 3) == Padded(r / 10 / 10, 2) + [DigitChar(c)];
    TwoDigits(10 * a + b);
  }

  lemma MinPart1()
    ensures Decimal(170141183460469) == "170141183460469"
  {
    assert Decimal(170) == "170";
    hide Decimal;
    FourMore(170, 1, 4, 1, 1);
    FourMore(1701411, 8, 3, 4, 6);
    FourMore(17014118346, 0, 4, 6, 9);
  }

  lemma MinPart2()
    ensures Decimal(170141183460469231731687303) == "170141183460469231731687303"
  {
    MinPart1();
    hide Decimal;
    FourMore(170141183460469, 2, 3, 1, 7);
    FourMore(1701411834604692317, 3, 1, 6, 8);
    FourMore(17014118346046923173168, 7, 3, 0, 3);
  }

  lemma MinPart3()
    ensures Decimal(170141183460469231731687303715884105728) == "170141183460469231731687303715884105728"
  {
    MinPart2();
    hide Decimal;
    FourMore(170141183460469231731687303, 7, 1, 5, 8);
    FourMore(1701411834604692317316873037158, 8, 4, 1, 0);
    FourMore(17014118346046923173168730371588410, 5, 7, 2, 8);
  }

  /** memcpy of a text. */
  method CopyText(buf: array<char>, p: nat, t: string) returns (p': nat)
    requires p + |t| <= buf.Length
    modifies buf
    ensures p' == p + |t| && buf[..] == Written(old(buf[..]), p, t)
  {
    ghost var s := buf[..];
    for i := 0 to |t|
      invariant buf[..] == Written(s, p, t[..i])
    {
      buf[p + i] := t[i];
      assert t[..i + 1] == t[..i] + [t[i]];
    }
    assert t[..|t|] == t;
    p' := p + |t|;
  }
}
