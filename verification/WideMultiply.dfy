/** `multiply` (base/common/wide_integer_impl.h): shift-and-add for any number of limbs. */
module WideMultiply {
  import opened Arith
  import opened Bits
  import opened WideValue
  import opened WideOps
  import opened WideHalves

  method MultiplyShiftAdd(lhs: seq<Limb>, rhs: seq<Limb>) returns (res: seq<Limb>)
    requires |lhs| > 0 && |rhs| > 0
    ensures |res| == |lhs| && Val(res) == Mod(Val(lhs) * Val(rhs), Cap(|lhs|))
  {
    hide Val, Cap, Mod, Div, Pow2, Extend;
    var n := |lhs|;
    ghost var L, cap, b := Val(lhs), Cap(n), Extend(rhs, n);
    res := Extend([0], n);
    ExtendValue([0], n);
    ValSingle(0);
    var lhs2, lhs3 := Multiples(lhs);
    assert b[..0] == [];
    ValEmpty();
    for i := 0 to n
      invariant |res| == n && Congruent(Val(res), L * Val(b[..i]), cap)
    {
      var item := if i < |rhs| then rhs[i] else 0;
      assert b[..i + 1] == b[..i] + [b[i]];
      ValAppend(b[..i], [b[i]]);
      ValSingle(b[i]);
      CapIsPow2(i);
      NextLimb(Val(res), L, Val(b[..i]), item, i, Val(b[..i + 1]), cap);
      res := AddMultiples(res, lhs, lhs2, lhs3, item, i, L * Val(b[..i + 1]));
    }
    assert b[..n] == b;
    ExtendValue(rhs, n);
    CongruentMul(L, L, Val(b), Val(rhs), cap);
    ValBound(res);
    IsMod(Val(res), L * Val(rhs), cap);
  }

  lemma ValEmpty()
    ensures Val([]) == 0
  {
  }

  lemma NextLimb(r: nat, L: nat, v: nat, item: nat, i: nat, v': nat, cap: nat)
    requires cap > 0 && Congruent(r, L * v, cap) && v' == v + Pow2(64 * i) * item
    ensures Owing(r, L, item, 64 * i, L * v', cap)
  {
    hide Mod, Div, Pow2;
    var p := Pow2(64 * i);
    CongruentAdd(r, L * v, L * (item * p), L * (item * p), cap);
    assert L * (v + item * p) == L * v + L * (item * p);
  }

  /** The 3x and 7x multiples behind the shortcuts. */
  method Multiples(lhs: seq<Limb>) returns (lhs2: seq<Limb>, lhs3: seq<Limb>)
    requires |lhs| > 0
    ensures |lhs2| == |lhs3| == |lhs|
    ensures Congruent(Val(lhs2), 3 * Val(lhs), Cap(|lhs|)) && Congruent(Val(lhs3), 7 * Val(lhs), Cap(|lhs|))
  {
    hide Val, Cap, Mod, Div, Pow2;
    ghost var L, cap := Val(lhs), Cap(|lhs|);
    Pow2Small();
    var s1 := ShiftLeft(lhs, 1);
    lhs2 := Plus(lhs, s1);
    var s2 := ShiftLeft(lhs, 2);
    lhs3 := Plus(lhs2, s2);
    CongruentMod(L * 2, cap);
    CongruentAdd(L, L, Val(s1), L * 2, cap);
    CongruentMod(L + Val(s1), cap);
    CongruentMod(L * 4, cap);
    CongruentAdd(Val(lhs2), 3 * L, Val(s2), L * 4, cap);
    CongruentMod(Val(lhs2) + Val(s2), cap);
  }

  /** r is r0 plus t times L, shifted up by pos. */
  ghost predicate Added(r: nat, r0: nat, t: nat, L: nat, pos: nat, cap: nat)
    requires cap > 0
  {
    Congruent(r, r0 + (t * L) * Pow2(pos), cap)
  }

  /** What is still to be added to r: L times the rest of the multiplier. */
  ghost predicate Owing(r: nat, L: nat, rest: nat, pos: nat, target: nat, cap: nat)
    requires cap > 0
  {
    Congruent(r + L * (rest * Pow2(pos)), target, cap)
  }

  /** Adds multiple << pos to the result: pos bits up, t times the multiplicand. */
  method AddShifted(res: seq<Limb>, multiple: seq<Limb>, pos: nat, ghost t: nat, ghost L: nat) returns (r: seq<Limb>)
    requires |res| == |multiple| > 0 && pos < 64 * |res|
    requires Congruent(Val(multiple), t * L, Cap(|res|))
    ensures |r| == |res| && Added(Val(r), Val(res), t, L, pos, Cap(|res|))
  {
    hide Val, Cap, Mod, Div, Pow2;
    ghost var cap := Cap(|res|);
    var s := ShiftLeft(multiple, pos);
    r := Plus(res, s);
    CongruentMul(Val(multiple), t * L, Pow2(pos), Pow2(pos), cap);
    CongruentMod(Val(multiple) * Pow2(pos), cap);
    CongruentAdd(Val(res), Val(res), Val(s), (t * L) * Pow2(pos), cap);
    CongruentMod(Val(res) + Val(s), cap);
  }

  /** One limb of the multiplier, low bits first. */
  method AddMultiples(res0: seq<Limb>, lhs: seq<Limb>, lhs2: seq<Limb>, lhs3: seq<Limb>, item: Limb, i: nat,
                      ghost target: nat)
    returns (res: seq<Limb>)
    requires |res0| == |lhs| == |lhs2| == |lhs3| && i < |lhs|
    requires Congruent(Val(lhs2), 3 * Val(lhs), Cap(|lhs|)) && Congruent(Val(lhs3), 7 * Val(lhs), Cap(|lhs|))
    requires Owing(Val(res0), Val(lhs), item, 64 * i, target, Cap(|lhs|))
    ensures |res| == |lhs| && Congruent(Val(res), target, Cap(|lhs|))
  {
    hide Val, Cap, Mod, Div, Pow2, And, Congruent, Added, Owing;
    ghost var L, cap := Val(lhs), Cap(|lhs|);
    res := res0;
    OneTimes(L, cap);
    var rest: nat, pos: nat := item, 64 * i;
    WordSizes();
    while rest > 0
      invariant |res| == |lhs|
      invariant 64 * i <= pos <= 64 * i + 64 && rest < Pow2(64 * i + 64 - pos)
      invariant Owing(Val(res), L, rest, pos, target, cap)
      decreases rest
    {
      Pow2Small();
      LowBits(rest);
      ghost var e := 64 * i + 64 - pos;
      ghost var r0 := Val(res);
      if And(rest, 7) == 7 {
        Shrink(rest, 8, 3, e);
        res := AddShifted(res, lhs3, pos, 7, L);
        Consume(r0, Val(res), L, 7, rest, rest / 8, 8, 3, pos, target, cap);
        rest := rest / 8;
        pos := pos + 3;
        continue;
      }
      if And(rest, 3) == 3 {
        Shrink(rest, 4, 2, e);
        res := AddShifted(res, lhs2, pos, 3, L);
        Consume(r0, Val(res), L, 3, rest, rest / 4, 4, 2, pos, target, cap);
        rest := rest / 4;
        pos := pos + 2;
        continue;
      }
      Shrink(rest, 2, 1, e);
      if And(rest, 1) == 1 {
        res := AddShifted(res, lhs, pos, 1, L);
      }
      Consume(r0, Val(res), L, rest % 2, rest, rest / 2, 2, 1, pos, target, cap);
      rest := rest / 2;
      pos := pos + 1;
    }
    Settled(Val(res), L, pos, target, cap);
  }

  lemma OneTimes(L: nat, cap: nat)
    requires cap > 0
    ensures Congruent(L, 1 * L, cap)
  {
  }

  lemma Settled(r: nat, L: nat, pos: nat, target: nat, cap: nat)
    requires cap > 0 && Owing(r, L, 0, pos, target, cap)
    ensures Congruent(r, target, cap)
  {
    hide Mod, Div, Pow2;
    assert L * (0 * Pow2(pos)) == 0;
  }

  lemma LowBits(x: nat)
    ensures And(x, 7) == x % 8 && And(x, 3) == x % 4 && And(x, 1) == x % 2
    ensures Pow2(3) == 8
  {
    assert Pow2(3) == 8;
    hide And, Div, Pow2;
    Pow2Small();
    AndMask(x, 1);
    AndMask(x, 2);
    AndMask(x, 3);
  }

  lemma Shrink(rest: nat, q: nat, m: nat, e: nat)
    requires q == Pow2(m) && q in {2, 4, 8} && rest < Pow2(e) && rest >= q - 1
    ensures m <= e && rest / q < Pow2(e - m)
  {
    hide Pow2;
    if e < m {
      Pow2Monotone(e, m);
    } else {
      Pow2Add(m, e - m);
    }
  }

  /** Moving m low bits with value t from the multiplier into the result. */
  lemma Consume(r0: nat, r: nat, L: nat, t: nat, rest: nat, rest': nat, q: nat, m: nat, pos: nat, target: nat, cap: nat)
    requires cap > 0 && q == Pow2(m) && rest == t + q * rest'
    requires t > 0 ==> Added(r, r0, t, L, pos, cap)
    requires t == 0 ==> r == r0
    requires Owing(r0, L, rest, pos, target, cap)
    ensures Owing(r, L, rest', pos + m, target, cap)
  {
    hide Mod, Div, Pow2;
    Pow2Add(pos, m);
    var p, z := Pow2(pos), L * (rest' * Pow2(pos + m));
    SplitProduct(L, t, rest, rest', q, p);
    CongruentAdd(r, r0 + (t * L) * p, z, z, cap);
  }

  lemma SplitProduct(L: int, t: int, rest: int, rest': int, q: int, p: int)
    requires rest == t + q * rest'
    ensures L * (rest * p) == (t * L) * p + L * (rest' * (p * q))
  {
    MulSub(t, q * rest', p);
    assert (q * rest') * p == rest' * (p * q);
    assert L * (t * p + rest' * (p * q)) == L * (t * p) + L * (rest' * (p * q));
    assert L * (t * p) == (t * L) * p;
  }

  /** `multiply` by a built-in operand of one limb, as the text conversions use it: the two
      algorithms agree. */
  method Multiply(lhs: seq<Limb>, rhs: Limb) returns (res: seq<Limb>)
    requires |lhs| > 0
    ensures |res| == |lhs| && Val(res) == Mod(Val(lhs) * rhs, Cap(|lhs|))
  {
    hide Val, Cap, Mod, Div;
    ValSingle(rhs);
    if |lhs| == 4 {
      res := MultiplyHalves(lhs, [rhs]);
    } else {
      res := MultiplyShiftAdd(lhs, [rhs]);
    }
  }
}
