/** Variable-length numbers in DWARF data (src/Common/Dwarf.cpp; section 7.6 of the DWARF 4
    standard). A cursor is an offset into one byte sequence. */
module DwarfRead {
  import opened Arith
  import opened Bits

  type Byte = b: nat | b < 256

  /** Where reading stops: at an offset, or with an exception for want of bytes. */
  datatype Pos = Bad | At(p: nat)

  const WORD: nat := 0x1_0000_0000_0000_0000

  /** The offset after the first byte without a continuation bit. */
  function LebEnd(s: seq<Byte>, p: nat): (r: Pos)
    ensures r.At? ==> p < r.p <= |s|
    decreases |s| - p
  {
    if p >= |s| then Bad
    else if s[p] < 128 then At(p + 1)
    else LebEnd(s, p + 1)
  }

  lemma {:induction false} LebShape(s: seq<Byte>, p: nat)
    ensures var r := LebEnd(s, p);
      if r.At? then s[r.p - 1] < 128 && forall i :: p <= i < r.p - 1 ==> s[i] >= 128
      else forall i :: p <= i < |s| ==> s[i] >= 128
    decreases |s| - p
  {
    if p < |s| && s[p] >= 128 {
      LebShape(s, p + 1);
    }
  }

  /** The number in the low seven bits of each byte, least significant group first. */
  function Groups(b: seq<Byte>): nat {
    if |b| == 0 then 0 else b[0] % 128 + 128 * Groups(b[1..])
  }

  lemma {:induction false} GroupsAppend(a: seq<Byte>, x: Byte)
    ensures Groups(a + [x]) == Groups(a) + Pow2(7 * |a|) * (x % 128)
    decreases |a|
  {
    hide Pow2;
    if |a| == 0 {
      assert a + [x] == [x] && [x][1..] == [];
      Pow2Small();
    } else {
      assert (a + [x])[1..] == a[1..] + [x];
      GroupsAppend(a[1..], x);
      SevenMore(|a| - 1);
      MulAssoc(128, Pow2(7 * (|a| - 1)), x % 128);
    }
  }

  lemma SevenMore(n: nat)
    ensures Pow2(7 * (n + 1)) == 128 * Pow2(7 * n)
  {
    Pow2Seven();
    hide Pow2;
    Pow2Add(7, 7 * n);
  }

  lemma Pow2Seven()
    ensures Pow2(7) == 128
  {
  }

  lemma {:induction false} GroupsBound(b: seq<Byte>)
    ensures Groups(b) < Pow2(7 * |b|)
    decreases |b|
  {
    hide Pow2;
    if |b| == 0 {
      Pow2Small();
    } else {
      GroupsBound(b[1..]);
      SevenMore(|b| - 1);
    }
  }

  /** The signed number: the top group's bit 6 is the sign. */
  function SignedGroups(b: seq<Byte>): int
    requires |b| > 0
  {
    if b[|b| - 1] % 128 >= 64 then Groups(b) - Pow2(7 * |b|) else Groups(b)
  }

  /** `readULEB` with its shift and last byte. A shift of 64 or more contributes nothing. */
  method ReadUlebRaw(s: seq<Byte>, start: nat) returns (next: Pos, r: nat, shift: nat, val: Byte)
    requires start <= |s|
    ensures next == LebEnd(s, start)
    ensures next.At? ==> r == Mod(Groups(s[start..next.p]), WORD)
    ensures next.At? ==> shift == 7 * (next.p - start) && val == s[next.p - 1]
  {
    hide Mod, Div, Groups, Or, Pow2, LebEnd;
    r, shift, val := 0, 0, 0;
    var p := start;
    assert s[start..start] == [];
    GroupsEmpty();
    ModSmall(0, WORD);
    while true
      invariant start <= p <= |s| && shift == 7 * (p - start)
      invariant LebEnd(s, p) == LebEnd(s, start)
      invariant r == Mod(Groups(s[start..p]), WORD)
      decreases |s| - p
    {
      LebStep(s, p);
      if p >= |s| {
        return Bad, r, shift, val;
      }
      val := s[p];
      AddGroup(s, start, p, r);
      r := Or(r, Mod((val % 128) * Pow2(shift), WORD));
      shift := shift + 7;
      p := p + 1;
      if val < 128 {
        return At(p), r, shift, val;
      }
    }
  }

  lemma GroupsEmpty()
    ensures Groups([]) == 0
  {
  }

  lemma LebStep(s: seq<Byte>, p: nat)
    ensures p >= |s| ==> LebEnd(s, p) == Bad
    ensures p < |s| && s[p] < 128 ==> LebEnd(s, p) == At(p + 1)
    ensures p < |s| && s[p] >= 128 ==> LebEnd(s, p) == LebEnd(s, p + 1)
  {
  }

  /** Or-ing in the next group adds it, modulo the word size. */
  lemma AddGroup(s: seq<Byte>, start: nat, p: nat, r: nat)
    requires start <= p < |s| && r == Mod(Groups(s[start..p]), WORD)
    ensures Or(r, Mod((s[p] % 128) * Pow2(7 * (p - start)), WORD)) == Mod(Groups(s[start..p + 1]), WORD)
  {
    hide Mod, Div, Groups, Or, Pow2;
    var k, g, x := p - start, Groups(s[start..p]), s[p] % 128;
    assert s[start..p + 1] == s[start..p] + [s[p]];
    GroupsAppend(s[start..p], s[p]);
    GroupsBound(s[start..p]);
    OrGroup(g, x, 7 * k);
  }

  lemma OrGroup(g: nat, x: nat, k: nat)
    requires g < Pow2(k)
    ensures Or(Mod(g, WORD), Mod(x * Pow2(k), WORD)) == Mod(g + Pow2(k) * x, WORD)
  {
    hide Mod, Div, Or, Pow2;
    WordSizes();
    if k <= 64 {
      Pow2Monotone(k, 64);
      ModSmall(g, WORD);
      Pow2Add(k, 64 - k);
      var e := Pow2(64 - k);
      ModScaled(x, Pow2(k), e);
      OrDisjoint(g, Mod(x, e), k);
      BelowTop(g, Mod(x, e), Pow2(k), e);
      CongruentMod(x * Pow2(k), WORD);
      CongruentAdd(g, g, Mod(x * Pow2(k), WORD), x * Pow2(k), WORD);
      ModSmall(g + Mod(x, e) * Pow2(k), WORD);
    } else {
      Pow2Add(64, k - 64);
      MulAssoc(x, Pow2(k - 64), WORD);
      DivModUnique(x * Pow2(k), x * Pow2(k - 64), 0, WORD);
      OrZero(Mod(g, WORD), 0);
      CongruentBy(g + Pow2(k) * x, g, x * Pow2(k - 64), WORD);
    }
  }

  lemma ModScaled(x: nat, p: nat, e: nat)
    requires p > 0 && e > 0 && p * e == WORD
    ensures Mod(x * p, WORD) == Mod(x, e) * p
  {
    hide Mod, Div;
    DivMod(x, e);
    var q, r := Div(x, e), Mod(x, e);
    MulSub(q * e, r, p);
    assert (q * e) * p == q * (p * e);
    MulMonotone(r + 1, e, p);
    MulSub(r, 1, p);
    DivModUnique(x * p, q, r * p, WORD);
  }

  lemma BelowTop(g: nat, r: nat, p: nat, e: nat)
    requires g < p && r < e && p * e == WORD
    ensures g + r * p < WORD
  {
    MulMonotone(r + 1, e, p);
    MulSub(r, 1, p);
  }

  method ReadUleb(s: seq<Byte>, start: nat) returns (next: Pos, r: nat)
    requires start <= |s|
    ensures next == LebEnd(s, start)
    ensures next.At? ==> r == Mod(Groups(s[start..next.p]), WORD)
  {
    var shift, val;
    next, r, shift, val := ReadUlebRaw(s, start);
  }

  /** `readSLEB`: the 64-bit two's complement of the signed number. */
  method ReadSleb(s: seq<Byte>, start: nat) returns (next: Pos, r: nat)
    requires start <= |s|
    ensures next == LebEnd(s, start)
    ensures next.At? ==> r == Mod(SignedGroups(s[start..next.p]), WORD)
  {
    hide Mod, Div, Groups, Or, Pow2, And;
    var shift, val;
    next, r, shift, val := ReadUlebRaw(s, start);
    if next.At? {
      SignExtend(s[start..next.p]);
      LebShape(s, start);
      SignBit(val);
      if shift < 64 && And(val, 0x40) != 0 {
        r := Or(r, WORD - Pow2(shift));
      }
    }
  }

  lemma SignBit(val: Byte)
    requires val < 128
    ensures And(val, 0x40) != 0 <==> val >= 64
  {
    hide Div, Mod, Bit, And;
    assert Pow2(6) == 0x40;
    AndPow2(val, 6);
    BitSix(val);
  }

  lemma BitSix(val: Byte)
    requires val < 128
    ensures Bit(val, 6) <==> val >= 64
  {
    assert Pow2(6) == 64;
  }

  lemma SignExtend(b: seq<Byte>)
    requires |b| > 0
    ensures Pow2(7 * |b|) < WORD <==> 7 * |b| < 64
    ensures b[|b| - 1] % 128 < 64 || 7 * |b| >= 64 ==> Mod(Groups(b), WORD) == Mod(SignedGroups(b), WORD)
    ensures b[|b| - 1] % 128 >= 64 && 7 * |b| < 64 ==>
      Or(Mod(Groups(b), WORD), WORD - Pow2(7 * |b|)) == Mod(SignedGroups(b), WORD)
  {
    hide Mod, Div, Groups, Or, Pow2;
    var k, g := 7 * |b|, Groups(b);
    GroupsBound(b);
    WordSizes();
    if k >= 64 {
      Pow2Monotone(64, k);
      Pow2Add(64, k - 64);
      CongruentBy(g, g - Pow2(k), Pow2(k - 64), WORD);
    } else {
      Pow2Monotone(k, 64);
      ModSmall(g, WORD);
      Pow2Add(k, 64 - k);
      var e := Pow2(64 - k);
      MulSub(e, 1, Pow2(k));
      assert WORD - Pow2(k) == (e - 1) * Pow2(k);
      OrDisjoint(g, e - 1, k);
      DivModUnique(g - Pow2(k), -1, g + WORD - Pow2(k), WORD);
    }
  }

  // ----- What an encoder writes

  /** The shortest unsigned encoding. */
  function EncodeUleb(v: nat): (b: seq<Byte>)
    ensures |b| > 0
  {
    if v < 128 then [v] else [128 + v % 128] + EncodeUleb(v / 128)
  }

  /** The shortest signed encoding. */
  function EncodeSleb(v: int): (b: seq<Byte>)
    ensures |b| > 0
    decreases if v >= 0 then v else -v
  {
    if -64 <= v < 64 then [v % 128] else [128 + v % 128] + EncodeSleb(v / 128)
  }

  /** Where reading ends depends only on the bytes of the number. */
  lemma {:induction false} LebEndAt(s: seq<Byte>, p: nat, b: seq<Byte>)
    requires |b| > 0 && p + |b| <= |s| && s[p..p + |b|] == b
    requires b[|b| - 1] < 128 && forall i :: 0 <= i < |b| - 1 ==> b[i] >= 128
    ensures LebEnd(s, p) == At(p + |b|)
    decreases |b|
  {
    assert s[p] == b[0];
    if |b| > 1 {
      assert s[p + 1..p + 1 + (|b| - 1)] == b[1..];
      LebEndAt(s, p + 1, b[1..]);
    }
  }

  lemma {:induction false} EncodedUleb(v: nat)
    ensures Groups(EncodeUleb(v)) == v
    ensures var b := EncodeUleb(v); b[|b| - 1] < 128 && forall i :: 0 <= i < |b| - 1 ==> b[i] >= 128
    decreases v
  {
    hide Groups;
    var b := EncodeUleb(v);
    if v < 128 {
      GroupsEmpty();
      GroupsCons(v, []);
      assert b == [v] + [];
    } else {
      EncodedUleb(v / 128);
      GroupsCons(128 + v % 128, EncodeUleb(v / 128));
      assert b[1..] == EncodeUleb(v / 128);
    }
  }

  lemma GroupsCons(x: Byte, t: seq<Byte>)
    ensures Groups([x] + t) == x % 128 + 128 * Groups(t)
  {
    assert ([x] + t)[1..] == t;
  }

  lemma {:induction false} EncodedSleb(v: int)
    ensures SignedGroups(EncodeSleb(v)) == v
    ensures var b := EncodeSleb(v); b[|b| - 1] < 128 && forall i :: 0 <= i < |b| - 1 ==> b[i] >= 128
    decreases if v >= 0 then v else -v
  {
    hide Pow2, SignedGroups;
    var b := EncodeSleb(v);
    if -64 <= v < 64 {
      SignedOne(v % 128);
    } else {
      EncodedSleb(v / 128);
      var t := EncodeSleb(v / 128);
      SignedCons(128 + v % 128, t);
      assert b[1..] == t && b[|b| - 1] == t[|t| - 1];
    }
  }

  lemma SignedOne(x: Byte)
    requires x < 128
    ensures SignedGroups([x]) == if x >= 64 then x - 128 else x
  {
    hide Pow2;
    var b := [x];
    assert b[1..] == [];
    assert Groups(b) == x % 128 + 128 * Groups(b[1..]);
    Pow2Seven();
    assert 7 * |b| == 7;
  }

  lemma SignedCons(x: Byte, t: seq<Byte>)
    requires |t| > 0
    ensures SignedGroups([x] + t) == x % 128 + 128 * SignedGroups(t)
  {
    hide Pow2;
    var b := [x] + t;
    assert b[1..] == t && b[|b| - 1] == t[|t| - 1];
    SevenMore(|t|);
  }

  /** Reading back an encoded number, wherever it lies, gives the number. */
  method ReadEncodedUleb(before: seq<Byte>, v: nat, after: seq<Byte>) returns (next: Pos, r: nat)
    requires v < WORD
    ensures r == v && next == At(|before| + |EncodeUleb(v)|)
  {
    hide Mod, Div, Groups, LebEnd, EncodeUleb;
    var b := EncodeUleb(v);
    var s := before + b + after;
    EncodedUleb(v);
    assert s[|before|..|before| + |b|] == b;
    LebEndAt(s, |before|, b);
    next, r := ReadUleb(s, |before|);
    ModSmall(v, WORD);
  }

  method ReadEncodedSleb(before: seq<Byte>, v: int, after: seq<Byte>) returns (next: Pos, r: nat)
    requires FitsSigned64(v)
    ensures Signed64(r) == v
    ensures next == At(|before| + |EncodeSleb(v)|)
  {
    hide Mod, Div, Groups, LebEnd, EncodeSleb, SignedGroups;
    var b := EncodeSleb(v);
    var s := before + b + after;
    EncodedSleb(v);
    assert s[|before|..|before| + |b|] == b;
    LebEndAt(s, |before|, b);
    next, r := ReadSleb(s, |before|);
    DivModUnique(v, if v < 0 then -1 else 0, if v < 0 then v + WORD else v, WORD);
  }

  // ----- Values at an offset

  /** The unsigned number at p, when there is one. */
  function Uleb(s: seq<Byte>, p: nat): nat
    requires LebEnd(s, p).At?
  {
    Mod(Groups(s[p..LebEnd(s, p).p]), WORD)
  }

  /** A number of fixed size, least significant byte first. */
  function Little(b: seq<Byte>): nat {
    if |b| == 0 then 0 else b[0] + 256 * Little(b[1..])
  }

  /** b lies in s at p. */
  predicate Holds(s: seq<Byte>, p: nat, b: seq<Byte>) {
    p + |b| <= |s| && s[p..p + |b|] == b
  }

  lemma HoldsParts(s: seq<Byte>, p: nat, a: seq<Byte>, b: seq<Byte>)
    requires Holds(s, p, a + b)
    ensures Holds(s, p, a) && Holds(s, p + |a|, b)
  {
    var n, m := |a|, |b|;
    assert s[p..p + n] == s[p..p + n + m][..n] == a;
    assert s[p + n..p + n + m] == s[p..p + n + m][n..] == b;
  }

  lemma HoldsByte(s: seq<Byte>, p: nat, b: seq<Byte>, i: nat)
    requires Holds(s, p, b) && i < |b|
    ensures s[p + i] == b[i]
  {
    assert s[p..p + |b|][i] == s[p + i];
  }

  lemma HoldsFits(s: seq<Byte>, p: nat, b: seq<Byte>)
    requires Holds(s, p, b)
    ensures p + |b| <= |s|
  {
  }

  lemma HeldSlice(s: seq<Byte>, p: nat, b: seq<Byte>)
    requires Holds(s, p, b)
    ensures p + |b| <= |s| && s[p..p + |b|] == b
  {
  }

  lemma SliceInside(s: seq<Byte>, p: nat, b: seq<Byte>, k: nat, n: nat)
    requires Holds(s, p, b) && k + n <= |b|
    ensures s[p + k..p + k + n] == b[k..k + n]
  {
    forall i | k <= i < k + n ensures s[p + i] == b[i] {
      HoldsByte(s, p, b, i);
    }
  }

  /** Reading inside a part of the data is reading there. */
  lemma LebInside(s: seq<Byte>, p: nat, b: seq<Byte>, k: nat)
    requires Holds(s, p, b) && LebEnd(b, k).At?
    ensures LebEnd(s, p + k) == At(p + LebEnd(b, k).p) && Uleb(s, p + k) == Uleb(b, k)
  {
    hide Mod, Div, Groups;
    var e := LebEnd(b, k).p;
    LebShape(b, k);
    SliceInside(s, p, b, k, e - k);
    LebEndAt(s, p + k, b[k..e]);
  }

  lemma EncodedInside(s: seq<Byte>, p: nat, b: seq<Byte>)
    requires |b| > 0 && Holds(s, p, b) && b[|b| - 1] < 128 && forall i :: 0 <= i < |b| - 1 ==> b[i] >= 128
    ensures LebEnd(s, p) == At(p + |b|) && s[p..p + |b|] == b
  {
    LebEndAt(s, p, b);
  }

  /** An encoded number is read where it was written. */
  lemma WrittenUleb(s: seq<Byte>, p: nat, v: nat)
    requires v < WORD && Holds(s, p, EncodeUleb(v))
    ensures LebEnd(s, p) == At(p + |EncodeUleb(v)|) && Uleb(s, p) == v
  {
    hide Mod, Div, Groups, LebEnd, EncodeUleb;
    EncodedUleb(v);
    EncodedInside(s, p, EncodeUleb(v));
    ModSmall(v, WORD);
  }

  /** The signed number at p. */
  function Sleb(s: seq<Byte>, p: nat): int
    requires LebEnd(s, p).At?
  {
    Signed64(Mod(SignedGroups(s[p..LebEnd(s, p).p]), WORD))
  }

  function Signed64(r: nat): int {
    if r < 0x8000_0000_0000_0000 then r else r - WORD
  }

  predicate FitsSigned64(v: int) {
    -0x8000_0000_0000_0000 <= v < 0x8000_0000_0000_0000
  }

  lemma WrittenSleb(s: seq<Byte>, p: nat, v: int)
    requires FitsSigned64(v) && Holds(s, p, EncodeSleb(v))
    ensures LebEnd(s, p) == At(p + |EncodeSleb(v)|) && Sleb(s, p) == v
  {
    hide Mod, Div, Groups, LebEnd, EncodeSleb, SignedGroups;
    EncodedSleb(v);
    EncodedInside(s, p, EncodeSleb(v));
    DivModUnique(v, if v < 0 then -1 else 0, if v < 0 then v + WORD else v, WORD);
  }
}
