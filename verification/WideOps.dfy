/** Addition, subtraction, shifts, comparisons and bit operations on wide integers
    (base/common/wide_integer_impl.h), for any number of limbs. Operands and results are
    passed by value; every loop works on a limb buffer. A built-in operand is the sequence
    of its own limbs: one for up to 64 bits, two for 128. */
module WideOps {
  import opened Arith
  import opened Bits
  import opened WideValue

  /** The operand as `get_item` shows it: truncated or padded with zero limbs to n limbs. */
  function Extend(s: seq<Limb>, n: nat): (r: seq<Limb>)
    ensures |r| == n
    ensures forall i :: 0 <= i < n ==> r[i] == if i < |s| then s[i] else 0
  {
    seq(n, i requires 0 <= i < n => if i < |s| then s[i] else 0)
  }

  lemma ExtendValue(s: seq<Limb>, n: nat)
    ensures Congruent(Val(Extend(s, n)), Val(s), Cap(n))
    ensures |s| <= n ==> Val(Extend(s, n)) == Val(s)
  {
    hide Mod, Div, Val, Cap;
    var r := Extend(s, n);
    if |s| <= n {
      assert r == s + r[|s|..];
      ValZeros(r[|s|..]);
      ValAppend(s, r[|s|..]);
    } else {
      assert s == r + s[n..];
      ValAppend(r, s[n..]);
      CongruentBy(Val(s), Val(r), Val(s[n..]), Cap(n));
    }
  }

  /** A value below the capacity that is congruent to v is v modulo the capacity. */
  lemma IsMod(x: nat, v: int, m: nat)
    requires m > 0 && x < m && Congruent(x, v, m)
    ensures x == Mod(v, m)
  {
    hide Mod, Div;
    ModSmall(x, m);
  }

  /** 64-bit addition and subtraction wrap around. */
  function WrapAdd(x: int, y: int): Limb {
    (x + y) % BASE
  }

  function WrapSub(x: int, y: int): Limb {
    (x - y) % BASE
  }

  lemma AddLimb(a: Limb, b: Limb)
    ensures AddsTo(a, b, false, WrapAdd(a, b), WrapAdd(a, b) < b)
    ensures AddsTo(a, 0, false, a, false)
  {
  }

  /** A limb that already overflowed cannot overflow again when the carry comes in. */
  lemma CarryLimb(a: Limb, b: Limb, r: Limb, o: bool)
    requires AddsTo(a, b, false, r, o)
    ensures AddsTo(a, b, true, WrapAdd(r, 1), o || WrapAdd(r, 1) == 0)
  {
  }

  lemma SubLimb(a: Limb, b: Limb)
    ensures AddsTo(WrapSub(a, b), b, false, a, a < b)
    ensures AddsTo(a, 0, false, a, false)
  {
  }

  lemma BorrowLimb(a: Limb, b: Limb, r: Limb, o: bool)
    requires AddsTo(r, b, false, a, o)
    ensures AddsTo(WrapSub(r, 1), b, true, a, o || r == 0)
  {
  }

  /** Every limb on its own, with an overflow flag each. */
  method AddEach(lhs: seq<Limb>, rhs: seq<Limb>) returns (items: array<Limb>, overflows: array<bool>)
    ensures fresh(items) && fresh(overflows) && items.Length == overflows.Length == |lhs|
    ensures forall j :: 0 <= j < |lhs| ==>
      AddsTo(lhs[j], Extend(rhs, |lhs|)[j], false, items[j], overflows[j])
  {
    hide AddsTo, Extend, WrapAdd, WrapSub;
    var n := |lhs|;
    var opItems := if n < |rhs| then n else |rhs|;
    items := new Limb[n](i requires 0 <= i < n => lhs[i]);
    overflows := new bool[n](_ => false);
    for i := 0 to opItems
      invariant forall j :: 0 <= j < i ==> AddsTo(lhs[j], rhs[j], false, items[j], overflows[j])
      invariant forall j :: i <= j < n ==> items[j] == lhs[j] && !overflows[j]
    {
      AddLimb(lhs[i], rhs[i]);
      items[i] := WrapAdd(items[i], rhs[i]);
      overflows[i] := items[i] < rhs[i];
    }
    forall j | opItems <= j < n ensures AddsTo(lhs[j], 0, false, items[j], overflows[j]) {
      AddLimb(lhs[j], 0);
    }
  }

  /** The flag of the limb below. */
  predicate CarryIn(flags: seq<bool>, j: nat)
    requires j < |flags|
  {
    j > 0 && flags[j - 1]
  }

  /** The carries have been added in below limb i. */
  ghost predicate Carried(a: seq<Limb>, b: seq<Limb>, o: seq<bool>, r: seq<Limb>, i: nat) {
    && |a| == |b| == |o| == |r|
    && (forall j :: 0 <= j < |a| && j < i ==> AddsTo(a[j], b[j], CarryIn(o, j), r[j], o[j]))
    && (forall j :: i <= j < |a| ==> AddsTo(a[j], b[j], false, r[j], o[j]))
  }

  lemma CarryStep(a: seq<Limb>, b: seq<Limb>, o: seq<bool>, r: seq<Limb>, i: nat)
    requires 0 < i < |a| && Carried(a, b, o, r, i)
    ensures !o[i - 1] ==> Carried(a, b, o, r, i + 1)
    ensures o[i - 1] ==> Carried(a, b, o[i := o[i] || WrapAdd(r[i], 1) == 0], r[i := WrapAdd(r[i], 1)], i + 1)
  {
    hide AddsTo, WrapAdd;
    CarryLimb(a[i], b[i], r[i], o[i]);
  }

  /** Then the carries, from the bottom up. */
  method PropagateCarries(items: array<Limb>, overflows: array<bool>, ghost a: seq<Limb>, ghost b: seq<Limb>)
    requires items.Length > 0 && Carried(a, b, overflows[..], items[..], 1)
    modifies items, overflows
    ensures items.Length == |a| && Carried(a, b, overflows[..], items[..], |a|)
  {
    hide Carried, WrapAdd;
    SameLengths(a, b, overflows[..], items[..], 1);
    for i := 1 to items.Length
      invariant Carried(a, b, overflows[..], items[..], i)
    {
      ghost var o, r := overflows[..], items[..];
      CarryStep(a, b, o, r, i);
      if overflows[i - 1] {
        items[i] := WrapAdd(items[i], 1);
        if items[i] == 0 {
          overflows[i] := true;
        }
        assert items[..] == r[i := WrapAdd(r[i], 1)];
        assert overflows[..] == o[i := o[i] || WrapAdd(r[i], 1) == 0];
      }
    }
  }

  lemma SameLengths(a: seq<Limb>, b: seq<Limb>, o: seq<bool>, r: seq<Limb>, i: nat)
    requires Carried(a, b, o, r, i) || Borrowed(a, b, o, r, i)
    ensures |a| == |b| == |o| == |r|
  {
  }

  method Plus(lhs: seq<Limb>, rhs: seq<Limb>) returns (res: seq<Limb>)
    requires |lhs| > 0 && |rhs| > 0
    ensures |res| == |lhs| && Val(res) == Mod(Val(lhs) + Val(rhs), Cap(|lhs|))
  {
    hide Mod, Div, Val, Cap, AddsTo, Extend;
    var items, overflows := AddEach(lhs, rhs);
    PropagateCarries(items, overflows, lhs, Extend(rhs, |lhs|));
    res := items[..];
    PlusValue(lhs, rhs, overflows[..], res);
  }

  lemma PlusValue(a: seq<Limb>, rhs: seq<Limb>, o: seq<bool>, r: seq<Limb>)
    requires Carried(a, Extend(rhs, |a|), o, r, |a|)
    ensures Val(r) == Mod(Val(a) + Val(rhs), Cap(|a|))
  {
    hide Mod, Div, Val, Cap, Extend, Carried, AddChain, Congruent;
    var b, c := Extend(rhs, |a|), [false] + o;
    CarriedChain(a, b, o, r);
    AddChainValue(a, b, c, r);
    ExtendValue(rhs, |a|);
    ValBound(r);
    SumIsMod(Val(r), Val(a), Val(b), Val(rhs), c[|a|], Cap(|a|));
  }

  lemma CarriedChain(a: seq<Limb>, b: seq<Limb>, o: seq<bool>, r: seq<Limb>)
    requires Carried(a, b, o, r, |a|)
    ensures |a| == |b| == |o| == |r| && AddChain(a, b, [false] + o, r)
  {
    hide AddsTo;
  }

  lemma SumIsMod(r: nat, a: nat, b: nat, b': nat, carry: bool, m: nat)
    requires r < m && Congruent(b, b', m)
    requires r + (if carry then m else 0) == a + b
    ensures r == Mod(a + b', m)
  {
    hide Mod, Div;
    CongruentAdd(a, a, b, b', m);
    CongruentBy(a + b, r, if carry then 1 else 0, m);
    IsMod(r, a + b', m);
  }

  method SubEach(lhs: seq<Limb>, rhs: seq<Limb>) returns (items: array<Limb>, underflows: array<bool>)
    ensures fresh(items) && fresh(underflows) && items.Length == underflows.Length == |lhs|
    ensures forall j :: 0 <= j < |lhs| ==>
      AddsTo(items[j], Extend(rhs, |lhs|)[j], false, lhs[j], underflows[j])
  {
    hide AddsTo, Extend, WrapAdd, WrapSub;
    var n := |lhs|;
    var opItems := if n < |rhs| then n else |rhs|;
    items := new Limb[n](i requires 0 <= i < n => lhs[i]);
    underflows := new bool[n](_ => false);
    for i := 0 to opItems
      invariant forall j :: 0 <= j < i ==> AddsTo(items[j], rhs[j], false, lhs[j], underflows[j])
      invariant forall j :: i <= j < n ==> items[j] == lhs[j] && !underflows[j]
    {
      SubLimb(lhs[i], rhs[i]);
      underflows[i] := items[i] < rhs[i];
      items[i] := WrapSub(items[i], rhs[i]);
    }
    forall j | opItems <= j < n ensures AddsTo(items[j], 0, false, lhs[j], underflows[j]) {
      SubLimb(lhs[j], 0);
    }
  }

  /** The borrows have been taken out below limb i. */
  ghost predicate Borrowed(a: seq<Limb>, b: seq<Limb>, o: seq<bool>, r: seq<Limb>, i: nat) {
    && |a| == |b| == |o| == |r|
    && (forall j :: 0 <= j < |a| && j < i ==> AddsTo(r[j], b[j], CarryIn(o, j), a[j], o[j]))
    && (forall j :: i <= j < |a| ==> AddsTo(r[j], b[j], false, a[j], o[j]))
  }

  lemma BorrowStep(a: seq<Limb>, b: seq<Limb>, o: seq<bool>, r: seq<Limb>, i: nat)
    requires 0 < i < |a| && Borrowed(a, b, o, r, i)
    ensures !o[i - 1] ==> Borrowed(a, b, o, r, i + 1)
    ensures o[i - 1] ==> Borrowed(a, b, o[i := o[i] || r[i] == 0], r[i := WrapSub(r[i], 1)], i + 1)
  {
    hide AddsTo, WrapSub;
    BorrowLimb(a[i], b[i], r[i], o[i]);
  }

  method PropagateBorrows(items: array<Limb>, underflows: array<bool>, ghost a: seq<Limb>, ghost b: seq<Limb>)
    requires items.Length > 0 && Borrowed(a, b, underflows[..], items[..], 1)
    modifies items, underflows
    ensures items.Length == |a| && Borrowed(a, b, underflows[..], items[..], |a|)
  {
    hide Borrowed, WrapSub;
    SameLengths(a, b, underflows[..], items[..], 1);
    for i := 1 to items.Length
      invariant Borrowed(a, b, underflows[..], items[..], i)
    {
      ghost var o, r := underflows[..], items[..];
      BorrowStep(a, b, o, r, i);
      if underflows[i - 1] {
        if items[i] == 0 {
          underflows[i] := true;
        }
        items[i] := WrapSub(items[i], 1);
        assert items[..] == r[i := WrapSub(r[i], 1)];
        assert underflows[..] == o[i := o[i] || r[i] == 0];
      }
    }
  }

  method Minus(lhs: seq<Limb>, rhs: seq<Limb>) returns (res: seq<Limb>)
    requires |lhs| > 0 && |rhs| > 0
    ensures |res| == |lhs| && Val(res) == Mod(Val(lhs) - Val(rhs), Cap(|lhs|))
  {
    hide Mod, Div, Val, Cap, AddsTo, Extend;
    var items, underflows := SubEach(lhs, rhs);
    PropagateBorrows(items, underflows, lhs, Extend(rhs, |lhs|));
    res := items[..];
    MinusValue(lhs, rhs, underflows[..], res);
  }

  lemma MinusValue(a: seq<Limb>, rhs: seq<Limb>, o: seq<bool>, r: seq<Limb>)
    requires Borrowed(a, Extend(rhs, |a|), o, r, |a|)
    ensures Val(r) == Mod(Val(a) - Val(rhs), Cap(|a|))
  {
    hide Mod, Div, Val, Cap, Extend, Borrowed, SubChain, Congruent;
    var b, c := Extend(rhs, |a|), [false] + o;
    BorrowedChain(a, b, o, r);
    SubChainValue(a, b, c, r);
    ExtendValue(rhs, |a|);
    ValBound(r);
    DifferenceIsMod(Val(r), Val(a), Val(b), Val(rhs), c[|a|], Cap(|a|));
  }

  lemma BorrowedChain(a: seq<Limb>, b: seq<Limb>, o: seq<bool>, r: seq<Limb>)
    requires Borrowed(a, b, o, r, |a|)
    ensures |a| == |b| == |o| == |r| && SubChain(a, b, [false] + o, r)
  {
    hide AddsTo;
  }

  lemma DifferenceIsMod(r: nat, a: nat, b: nat, b': nat, borrow: bool, m: nat)
    requires r < m && Congruent(b, b', m)
    requires r - (if borrow then m else 0) == a - b
    ensures r == Mod(a - b', m)
  {
    hide Mod, Div;
    CongruentAdd(a, a, b, b', m);
    CongruentBy(r, a - b, if borrow then 1 else 0, m);
    IsMod(r, a - b', m);
  }

  // ----- Shifts

  /** x << s and x >> s on one limb. */
  function Shl64(x: Limb, s: nat): Limb {
    Mod(x * Pow2(s), BASE)
  }

  function Shr64(x: Limb, s: nat): Limb {
    ShrBound(x, Pow2(s));
    Div(x, Pow2(s))
  }

  lemma ShrBound(x: nat, p: nat)
    requires p > 0
    ensures 0 <= Div(x, p) <= x
  {
    hide Mod, Div;
    DivMod(x, p);
    MulMonotone(1, p, Div(x, p));
  }

  function OrLimb(x: Limb, y: Limb): Limb {
    OrLimbBound(x, y);
    Or(x, y)
  }

  lemma OrLimbBound(x: Limb, y: Limb)
    ensures Or(x, y) < BASE
  {
    hide Or, Pow2;
    WordSizes();
    OrBound(x, y, 64);
  }

  /** Limb k of x << (64 * items + bits), for k >= items. */
  function ShlLimb(x: seq<Limb>, items: nat, bits: nat, k: nat): Limb
    requires items <= k < |x| && bits < 64
  {
    if bits == 0 then x[k - items]
    else if k == items then Shl64(x[0], bits)
    else OrLimb(Shl64(x[k - items], bits), Shr64(x[k - items - 1], 64 - bits))
  }

  /** The limbs of the left shift. */
  ghost predicate ShiftedLeft(x: seq<Limb>, items: nat, bits: nat, r: seq<Limb>)
    requires items < |x| && bits < 64
  {
    && |r| == |x|
    && (forall k :: 0 <= k < items ==> r[k] == 0)
    && (forall k :: items <= k < |x| ==> r[k] == ShlLimb(x, items, bits, k))
  }

  /** From the top limb down; the buffer starts out zero. */
  method ShiftLeftLimbs(rhs: seq<Limb>, itemsShift: nat, bitShift: nat) returns (items: array<Limb>)
    requires itemsShift < |rhs| && bitShift < 64
    ensures fresh(items) && ShiftedLeft(rhs, itemsShift, bitShift, items[..])
  {
    hide Shl64, Shr64, OrLimb;
    var count := |rhs|;
    items := new Limb[count](_ => 0);
    if bitShift != 0 {
      items[count - 1] := Shl64(rhs[count - 1 - itemsShift], bitShift);
      for i := 1 to count - itemsShift
        invariant forall k :: count - i < k < count ==> items[k] == ShlLimb(rhs, itemsShift, bitShift, k)
        invariant items[count - i] == Shl64(rhs[count - i - itemsShift], bitShift)
        invariant forall k :: 0 <= k < itemsShift ==> items[k] == 0
      {
        items[count - i] := OrLimb(items[count - i], Shr64(rhs[count - 1 - itemsShift - i], 64 - bitShift));
        items[count - 1 - i] := Shl64(rhs[count - 1 - itemsShift - i], bitShift);
      }
    } else {
      for i := 0 to count - itemsShift
        invariant forall k :: count - i <= k < count ==> items[k] == ShlLimb(rhs, itemsShift, bitShift, k)
        invariant forall k :: 0 <= k < itemsShift ==> items[k] == 0
      {
        items[count - 1 - i] := rhs[count - 1 - itemsShift - i];
      }
    }
  }

  method ShiftLeft(rhs: seq<Limb>, n: nat) returns (lhs: seq<Limb>)
    requires n < 64 * |rhs|
    ensures |lhs| == |rhs| && Val(lhs) == Mod(Val(rhs) * Pow2(n), Cap(|rhs|))
  {
    hide Mod, Div, Val, Cap, Pow2, ShlLimb;
    var itemsShift := n / 64;
    var items := ShiftLeftLimbs(rhs, itemsShift, n % 64);
    for i := 0 to itemsShift
      invariant ShiftedLeft(rhs, itemsShift, n % 64, items[..])
    {
      items[i] := 0;
    }
    lhs := items[..];
    ShiftLeftValue(rhs, itemsShift, n % 64, lhs);
  }

  lemma ShiftLeftValue(x: seq<Limb>, items: nat, bits: nat, r: seq<Limb>)
    requires items < |x| && bits < 64 && ShiftedLeft(x, items, bits, r)
    ensures Val(r) == Mod(Val(x) * Pow2(64 * items + bits), Cap(|x|))
  {
    hide Mod, Div, Val, Cap, Pow2, ShlLimb;
    var m := |x| - items;
    var lo, hi := x[..m], x[m..];
    var t := r[items..];
    assert x == lo + hi && r == r[..items] + t;
    ValAppend(lo, hi);
    ValAppend(r[..items], t);
    ValZeros(r[..items]);
    forall k | 0 <= k < m ensures t[k] == ShlLimb(lo, 0, bits, k) {
      assert t[k] == ShlLimb(x, items, bits, k + items);
      ShlLocal(x, items, bits, k);
    }
    var h := ShiftBitsValue(lo, bits, t);
    CapIsPow2(items);
    Pow2Add(64 * items, bits);
    CapAdd(items, m);
    ShiftAlgebra(Val(x), Val(lo), Val(hi), Val(t), h, Cap(items), Cap(m), Pow2(bits));
    CongruentBy(Val(x) * (Cap(items) * Pow2(bits)), Val(r), h + Val(hi) * Pow2(bits), Cap(|x|));
    ValBound(r);
    IsMod(Val(r), Val(x) * Pow2(64 * items + bits), Cap(|x|));
  }

  lemma ShlLocal(x: seq<Limb>, items: nat, bits: nat, k: nat)
    requires items + k < |x| && bits < 64
    ensures ShlLimb(x, items, bits, k + items) == ShlLimb(x[..|x| - items], 0, bits, k)
  {
    hide Shl64, Shr64, OrLimb;
  }

  lemma {:induction false} CapAdd(a: nat, b: nat)
    ensures Cap(a + b) == Cap(a) * Cap(b)
    decreases a
  {
    if a > 0 {
      CapAdd(a - 1, b);
      MulAssoc(BASE, Cap(a - 1), Cap(b));
    }
  }

  lemma ShiftAlgebra(x: int, lo: int, hi: int, t: int, h: int, ci: int, cm: int, p: int)
    requires x == lo + cm * hi && t + cm * h == lo * p
    ensures x * (ci * p) == ci * t + (h + hi * p) * (ci * cm)
  {
    calc {
      x * (ci * p);
      { assert x * (ci * p) == ci * (x * p); }
      ci * (x * p);
      { MulSub(lo, cm * hi, p); MulAssoc(cm, hi, p); }
      ci * (t + cm * h + cm * (hi * p));
      { assert cm * h + cm * (hi * p) == cm * (h + hi * p); }
      ci * (t + cm * (h + hi * p));
      { MulAssoc(ci, cm, h + hi * p); }
      ci * t + (h + hi * p) * (ci * cm);
    }
  }

  /** Shifting by less than a limb multiplies by the power of two; the excess is h. */
  lemma ShiftBitsValue(x: seq<Limb>, bits: nat, r: seq<Limb>) returns (h: nat)
    requires |x| == |r| && bits < 64
    requires forall k :: 0 <= k < |x| ==> r[k] == ShlLimb(x, 0, bits, k)
    ensures Val(r) + Cap(|x|) * h == Val(x) * Pow2(bits)
  {
    hide Mod, Div, Val, Cap, Pow2, ShlLimb;
    if bits == 0 {
      Pow2Small();
      forall k | 0 <= k < |x| ensures r[k] == x[k] { ShlNone(x, k); }
      assert r == x;
      h := 0;
    } else {
      var p, q := Pow2(bits), Pow2(64 - bits);
      WordSizes();
      Pow2Add(bits, 64 - bits);
      var hs := seq(|x| + 1, i requires 0 <= i <= |x| => if i == 0 then 0 else Div(x[i - 1], q));
      forall i | 0 <= i < |x| ensures r[i] + BASE * hs[i + 1] == x[i] * p + hs[i] {
        assert r[i] == ShlLimb(x, 0, bits, i);
        ShlLimbValue(x, bits, i);
      }
      ScaleChainValue(x, p, hs, r);
      h := hs[|x|];
    }
  }

  lemma ShlNone(x: seq<Limb>, k: nat)
    requires k < |x|
    ensures ShlLimb(x, 0, 0, k) == x[k]
  {
  }

  lemma ShlLimbValue(x: seq<Limb>, bits: nat, i: nat)
    requires 0 < bits < 64 && i < |x|
    ensures ShlLimb(x, 0, bits, i) + BASE * Div(x[i], Pow2(64 - bits))
         == x[i] * Pow2(bits) + (if i == 0 then 0 else Div(x[i - 1], Pow2(64 - bits)))
  {
    hide Mod, Div, Pow2, Or;
    var p, q := Pow2(bits), Pow2(64 - bits);
    WordSizes();
    Pow2Add(bits, 64 - bits);
    LimbShift(x[i], p, q);
    if i > 0 {
      LimbShift(x[i - 1], p, q);
      OrDisjoint(Div(x[i - 1], q), Mod(x[i], q), bits);
    }
  }

  /** Limb k of the unsigned x >> (64 * items + bits). */
  function ShrLimb(x: seq<Limb>, items: nat, bits: nat, k: nat): Limb
    requires items + k < |x| && bits < 64
  {
    if bits == 0 then x[k + items]
    else if k + items + 1 == |x| then Shr64(x[k + items], bits)
    else OrLimb(Shr64(x[k + items], bits), Shl64(x[k + items + 1], 64 - bits))
  }

  /** The limbs of the right shift before any sign filling. */
  ghost predicate ShiftedRight(x: seq<Limb>, items: nat, bits: nat, r: seq<Limb>)
    requires items < |x| && bits < 64
  {
    && |r| == |x|
    && (forall k :: 0 <= k < |x| - items ==> r[k] == ShrLimb(x, items, bits, k))
    && (forall k :: |x| - items <= k < |x| ==> r[k] == 0)
  }

  /** The part of `shift_right` that both signs share. */
  method ShiftRightLimbs(rhs: seq<Limb>, n: nat) returns (items: array<Limb>)
    requires n < 64 * |rhs|
    ensures fresh(items) && items.Length == |rhs|
    ensures ShiftedRight(rhs, n / 64, n % 64, items[..])
  {
    hide Mod, Div, Val, Cap, Pow2, Shl64, Shr64, OrLimb;
    var count := |rhs|;
    items := new Limb[count](_ => 0);
    var itemsShift, bitShift := n / 64, n % 64;
    if bitShift != 0 {
      items[0] := Shr64(rhs[itemsShift], bitShift);
      for i := 1 to count - itemsShift
        invariant forall k :: 0 <= k < i - 1 ==> items[k] == ShrLimb(rhs, itemsShift, bitShift, k)
        invariant items[i - 1] == Shr64(rhs[itemsShift + i - 1], bitShift)
        invariant forall k :: i <= k < count ==> items[k] == 0
      {
        items[i - 1] := OrLimb(items[i - 1], Shl64(rhs[itemsShift + i], 64 - bitShift));
        items[i] := Shr64(rhs[itemsShift + i], bitShift);
      }
    } else {
      for i := 0 to count - itemsShift
        invariant forall k :: 0 <= k < i ==> items[k] == ShrLimb(rhs, itemsShift, bitShift, k)
        invariant forall k :: i <= k < count ==> items[k] == 0
      {
        items[i] := rhs[itemsShift + i];
      }
    }
  }

  /** The unsigned right shift divides. */
  lemma ShiftRightValue(x: seq<Limb>, items: nat, bits: nat, r: seq<Limb>)
    requires items < |x| && bits < 64 && ShiftedRight(x, items, bits, r)
    ensures Val(r) == Div(Val(x), Pow2(64 * items + bits))
  {
    hide Mod, Div, Val, Cap, Pow2, ShrLimb;
    var m := |x| - items;
    var lo, hi := x[..items], x[items..];
    var t := r[..m];
    assert x == lo + hi && r == t + r[m..];
    ValAppend(lo, hi);
    ValAppend(t, r[m..]);
    ValZeros(r[m..]);
    forall k | 0 <= k < m ensures t[k] == ShrLimb(hi, 0, bits, k) {
      assert t[k] == ShrLimb(x, items, bits, k);
      ShrLocal(x, items, bits, k);
    }
    var rest := ShiftRightBits(hi, bits, t);
    CapIsPow2(items);
    Pow2Add(64 * items, bits);
    ValBound(lo);
    var ci, p := Cap(items), Pow2(bits);
    MulMonotone(rest + 1, p, ci);
    ShrAlgebra(ci, p, Val(t), rest);
    DivModUnique(Val(x), Val(t), Val(lo) + ci * rest, ci * p);
  }

  lemma ShrAlgebra(ci: int, p: int, t: int, rest: int)
    ensures ci * (p * t + rest) == t * (ci * p) + ci * rest
    ensures (rest + 1) * ci == ci * rest + ci
  {
    assert ci * (p * t) == t * (ci * p);
  }

  lemma ShrLocal(x: seq<Limb>, items: nat, bits: nat, k: nat)
    requires items + k < |x| && bits < 64
    ensures ShrLimb(x, items, bits, k) == ShrLimb(x[items..], 0, bits, k)
  {
    hide Shl64, Shr64, OrLimb;
  }

  lemma ShiftRightBits(x: seq<Limb>, bits: nat, r: seq<Limb>) returns (rest: nat)
    requires |x| == |r| > 0 && bits < 64
    requires forall k :: 0 <= k < |x| ==> r[k] == ShrLimb(x, 0, bits, k)
    ensures Val(x) == Pow2(bits) * Val(r) + rest && rest < Pow2(bits)
  {
    hide Mod, Div, Val, Pow2, ShrLimb, DivideLimb;
    if bits == 0 {
      Pow2Small();
      forall k | 0 <= k < |x| ensures r[k] == x[k] { ShrNone(x, k); }
      assert r == x;
      rest := 0;
    } else {
      var p, q := Pow2(bits), Pow2(64 - bits);
      WordSizes();
      Pow2Add(bits, 64 - bits);
      forall i | 0 <= i < |x| ensures r[i] == DivideLimb(x, p, q, i) {
        assert r[i] == ShrLimb(x, 0, bits, i);
        ShrLimbValue(x, bits, i);
      }
      DivideChainValue(x, p, q, r);
      rest := Mod(x[0], p);
    }
  }

  lemma ShrNone(x: seq<Limb>, k: nat)
    requires k < |x|
    ensures ShrLimb(x, 0, 0, k) == x[k]
  {
  }

  lemma ShrLimbValue(x: seq<Limb>, bits: nat, i: nat)
    requires 0 < bits < 64 && i < |x|
    ensures ShrLimb(x, 0, bits, i) == DivideLimb(x, Pow2(bits), Pow2(64 - bits), i)
  {
    hide Mod, Div, Pow2, Or;
    var p, q := Pow2(bits), Pow2(64 - bits);
    WordSizes();
    Pow2Add(bits, 64 - bits);
    if i + 1 < |x| {
      LimbShift(x[i + 1], q, p);
      LimbShift(x[i], q, p);
      OrDisjoint(Div(x[i], p), Mod(x[i + 1], p), 64 - bits);
    }
  }

  // ----- Comparisons

  /** `operator_more`. A shorter right operand is padded with zeros, also when it is negative: then
      a negative left operand always counts as more. */
  method OperatorMore(lhs: seq<Limb>, rhs: seq<Limb>, signed: bool) returns (r: bool)
    requires |rhs| <= |lhs|
    ensures |rhs| == |lhs| || !IsNegative(lhs, signed) || !IsNegative(rhs, signed) ==>
      (r <==> Value(lhs, signed) > Value(rhs, signed))
    ensures |rhs| < |lhs| && IsNegative(lhs, signed) && IsNegative(rhs, signed) ==> r
  {
    hide Val, Cap, Extend;
    ValBound(lhs);
    ValBound(rhs);
    if |lhs| > 0 && |rhs| > 0 {
      NegativeIff(lhs);
      NegativeIff(rhs);
    }
    if IsNegative(lhs, signed) != IsNegative(rhs, signed) {
      return IsNegative(rhs, signed);
    }
    ExtendValue(rhs, |lhs|);
    r := MoreLimbs(lhs, Extend(rhs, |lhs|));
    if |rhs| < |lhs| {
      ShorterBound(rhs, |lhs|);
    } else {
      assert Extend(rhs, |lhs|) == rhs;
    }
  }

  /** The values of a shorter operand lie below the sign bit of the longer type. */
  lemma ShorterBound(rhs: seq<Limb>, n: nat)
    requires |rhs| < n
    ensures 2 * Val(rhs) < Cap(n)
  {
    hide Val, Cap;
    ValBound(rhs);
    CapGrows(|rhs|, n);
  }

  lemma {:induction false} CapGrows(m: nat, n: nat)
    requires m < n
    ensures 2 * Cap(m) < Cap(n)
    decreases n
  {
    hide Cap;
    CapSucc(n - 1);
    if m < n - 1 {
      CapGrows(m, n - 1);
    }
  }

  /** The loop: from the top limb down, the first difference decides. */
  method MoreLimbs(lhs: seq<Limb>, rhs: seq<Limb>) returns (r: bool)
    requires |lhs| == |rhs|
    ensures r <==> Val(lhs) > Val(rhs)
  {
    hide Val, Cap;
    var n := |lhs|;
    for i := 0 to n
      invariant lhs[n - i..] == rhs[n - i..]
    {
      var k := n - 1 - i;
      if lhs[k] != rhs[k] {
        if lhs[k] < rhs[k] { ValCompare(lhs, rhs, k); } else { ValCompare(rhs, lhs, k); }
        return lhs[k] > rhs[k];
      }
      assert lhs[k..] == [lhs[k]] + lhs[k + 1..] && rhs[k..] == [rhs[k]] + rhs[k + 1..];
    }
    assert lhs[0..] == lhs && rhs[0..] == rhs;
    return false;
  }

  method OperatorEq(lhs: seq<Limb>, rhs: seq<Limb>) returns (r: bool)
    requires |rhs| <= |lhs|
    ensures r <==> Val(lhs) == Val(rhs)
  {
    hide Val, Cap, Mod, Div;
    var b := Extend(rhs, |lhs|);
    ExtendValue(rhs, |lhs|);
    for i := 0 to |lhs|
      invariant lhs[..i] == b[..i]
    {
      if lhs[i] != b[i] {
        if Val(lhs) == Val(rhs) { ValInjective(lhs, b); }
        return false;
      }
    }
    assert lhs == lhs[..|lhs|] && b == b[..|b|];
    return true;
  }

  // ----- Bit operations

  method OperatorPipe(lhs: seq<Limb>, rhs: seq<Limb>) returns (res: seq<Limb>)
    requires |rhs| <= |lhs|
    ensures |res| == |lhs| && Val(res) == Or(Val(lhs), Val(rhs))
  {
    hide Val, Cap, Or, Mod, Div;
    ghost var b := Extend(rhs, |lhs|);
    var items := new Limb[|lhs|](_ => 0);
    for i := 0 to |lhs|
      invariant forall j :: 0 <= j < i ==> items[j] == Or(lhs[j], b[j])
    {
      items[i] := OrLimb(lhs[i], if i < |rhs| then rhs[i] else 0);
    }
    res := items[..];
    ValOr(lhs, b, res);
    ExtendValue(rhs, |lhs|);
  }

  method OperatorAmp(lhs: seq<Limb>, rhs: seq<Limb>) returns (res: seq<Limb>)
    requires |rhs| <= |lhs|
    ensures |res| == |lhs| && Val(res) == And(Val(lhs), Val(rhs))
  {
    hide Val, Cap, And, Mod, Div;
    ghost var b := Extend(rhs, |lhs|);
    var items := new Limb[|lhs|](_ => 0);
    for i := 0 to |lhs|
      invariant forall j :: 0 <= j < i ==> items[j] == And(lhs[j], b[j])
    {
      AndBound(lhs[i], if i < |rhs| then rhs[i] else 0);
      items[i] := And(lhs[i], if i < |rhs| then rhs[i] else 0);
    }
    res := items[..];
    ValAnd(lhs, b, res);
    ExtendValue(rhs, |lhs|);
  }

  method OperatorTilda(lhs: seq<Limb>) returns (res: seq<Limb>)
    ensures |res| == |lhs| && Val(res) == Cap(|lhs|) - 1 - Val(lhs)
  {
    hide Val, Cap;
    var items := new Limb[|lhs|](_ => 0);
    for i := 0 to |lhs|
      invariant forall j :: 0 <= j < i ==> items[j] == BASE - 1 - lhs[j]
    {
      items[i] := BASE - 1 - lhs[i];
    }
    res := items[..];
    ComplementValue(lhs, res);
  }

  lemma {:induction false} ComplementValue(a: seq<Limb>, r: seq<Limb>)
    requires |a| == |r| && forall i :: 0 <= i < |a| ==> r[i] == BASE - 1 - a[i]
    ensures Val(r) == Cap(|a|) - 1 - Val(a)
    decreases |a|
  {
    if |a| > 0 {
      ComplementValue(a[1..], r[1..]);
    }
  }

  lemma Negation(v: nat, cap: nat)
    requires v < cap
    ensures Mod(0 - v, cap) == if v == 0 then 0 else cap - v
  {
    hide Mod, Div;
    if v == 0 {
      ModSmall(0, cap);
    } else {
      DivModUnique(0 - v, -1, cap - v, cap);
    }
  }

  /** `operator_unary_minus`: two's complement negation. */
  method OperatorUnaryMinus(lhs: seq<Limb>) returns (res: seq<Limb>)
    requires |lhs| > 0
    ensures |res| == |lhs| && Val(res) == Mod(0 - Val(lhs), Cap(|lhs|))
  {
    hide Val, Cap, Mod, Div;
    var t := OperatorTilda(lhs);
    res := Plus(t, [1]);
    ValSingle(1);
    CongruentBy(Val(t) + 1, 0 - Val(lhs), 1, Cap(|lhs|));
  }
}
