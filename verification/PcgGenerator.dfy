/** The engine object (base/pcg-random/pcg_random.hpp): a state, a stream increment and the
    operations that move the state. */
module PcgGenerator {
  import opened Arith
  import opened Bits
  import opened PcgEngine

  class Engine {
    const mcg: bool
    const w: nat
    const mult: nat
    var inc: nat
    var state: nat

    ghost predicate Valid()
      reads this
    {
      && w >= 3
      && mult < Pow2(w) && inc < Pow2(w) && state < Pow2(w)
      && GoodConstants(mcg, mult, inc)
      && (mcg ==> Congruent(state, 3, 4))
    }

    /** Seeds the engine: a multiplicative generator sets its two low bits, the others take a
        step from the seed shifted by the increment. */
    constructor (mcg: bool, w: nat, mult: nat, inc: nat, seed: nat)
      requires w >= 3 && mult < Pow2(w) && inc < Pow2(w) && seed < Pow2(w)
      requires GoodConstants(mcg, mult, inc)
      ensures Valid()
      ensures this.mcg == mcg && this.w == w && this.mult == mult && this.inc == inc
      ensures state == if mcg then Or(seed, 3) else Bump(Mod(seed + inc, Pow2(w)), mult, inc, w)
    {
      this.mcg, this.w, this.mult, this.inc := mcg, w, mult, inc;
      state := if mcg then Or(seed, 3) else Bump(Mod(seed + inc, Pow2(w)), mult, inc, w);
      new;
      OrThree(seed, w);
    }

    /** `base_generate0`: one step, giving back the state before it. */
    method Generate() returns (previous: nat)
      requires Valid()
      modifies `state
      ensures Valid() && previous == old(state)
      ensures state == Steps(previous, 1, mult, inc, w)
    {
      previous := state;
      state := Bump(state, mult, inc, w);
      StepsOne(previous, mult, inc, w);
      KeepsLowBits(mcg, previous, 1, mult, inc, w);
    }

    method Advance(delta: nat)
      requires Valid() && delta < Pow2(w)
      modifies `state
      ensures Valid() && state == Steps(old(state), delta, mult, inc, w)
    {
      KeepsLowBits(mcg, state, delta, mult, inc, w);
      state := PcgEngine.Advance(state, delta, mult, inc, w);
    }

    /** Goes back delta steps "the long way round": advancing by delta afterwards, or having
        advanced by delta before, cancels it. */
    method Backstep(delta: nat)
      requires Valid() && delta < Pow2(w)
      modifies `state
      ensures Valid() && Steps(state, delta, mult, inc, w) == old(state)
    {
      ghost var s := state;
      hide Steps;
      Advance(Negate(delta, w));
      OddMultiplier(mcg, mult, inc);
      CommuteSteps(s, Negate(delta, w), delta, mult, inc, w);
      BackstepUndoesAdvance(s, delta, mult, inc, w);
    }

    /** The number of steps to another state of the same generator. */
    method DistanceTo(newstate: nat) returns (d: nat)
      requires Valid() && newstate < Pow2(w) && (mcg ==> Congruent(newstate, 3, 4))
      ensures d < Pow2(w) && Steps(state, d, mult, inc, w) == newstate
      ensures forall n: nat | n < d :: Steps(state, n, mult, inc, w) != newstate
    {
      hide Mod, Div, Steps;
      ThreeIsOdd(state);
      var count, passes := Distance(mcg, state, newstate, mult, inc, Pow2(w) - 1, w);
      d := count;
      Pow2Monotone(w - LowBit(mcg), w);
      forall n: nat | n < d ensures Steps(state, n, mult, inc, w) != newstate {
        if Steps(state, n, mult, inc, w) == newstate {
          StepsInjective(mcg, state, n, d, mult, inc, w);
        }
      }
    }

    /** `set_stream`: any requested stream gives an odd increment, so the period stays full. */
    method SetStream(sequence: nat)
      requires Valid() && !mcg && sequence < Pow2(w)
      modifies `inc
      ensures Valid() && inc == Mod(2 * sequence, Pow2(w)) + 1
    {
      inc := Or(Mod(2 * sequence, Pow2(w)), 1);
      OddIncrement(sequence, w);
    }
  }

  lemma OddMultiplier(mcg: bool, m: nat, c: nat)
    requires GoodConstants(mcg, m, c)
    ensures Odd(m)
  {
    hide Mod, Div;
    if mcg {
      var k := CongruentWitness(m, 5, 8);
      CongruentBy(m, 1, 2 + 4 * k, 2);
    } else {
      CongruentHalf(m, 1);
    }
  }

  lemma ThreeIsOdd(s: nat)
    ensures Congruent(s, 3, 4) ==> Odd(s)
  {
    hide Mod, Div;
    if Congruent(s, 3, 4) {
      CongruentHalf(s, 3);
      CongruentBy(3, 1, 1, 2);
    }
  }

  lemma KeepsLowBits(mcg: bool, s: nat, n: nat, m: nat, c: nat, w: nat)
    requires GoodConstants(mcg, m, c) && w >= 3 && (mcg ==> Congruent(s, 3, 4))
    ensures mcg ==> Congruent(Steps(s, n, m, c, w), 3, 4)
  {
    hide Mod, Div, Steps;
    ThreeIsOdd(s);
    StepsKeepClass(mcg, s, n, m, c, w);
  }

  lemma CommuteSteps(s: nat, a: nat, b: nat, m: nat, c: nat, w: nat)
    ensures Steps(Steps(s, a, m, c, w), b, m, c, w) == Steps(Steps(s, b, m, c, w), a, m, c, w)
  {
    hide Steps;
    StepsCompose(s, a, b, m, c, w);
    StepsCompose(s, b, a, m, c, w);
  }

  lemma OrThree(s: nat, w: nat)
    requires w >= 3 && s < Pow2(w)
    ensures Or(s, 3) < Pow2(w) && Congruent(Or(s, 3), 3, 4)
  {
    OrThreeValue(s);
    hide Or, Mod, Div;
    CongruentBy(Or(s, 3), 3, s / 4, 4);
    assert Pow2(w) == 4 * Pow2(w - 2);
  }

  lemma {:induction false} OrThreeValue(s: nat)
    ensures Or(s, 3) == 4 * (s / 4) + 3
  {
    if s > 0 {
      assert Or(s, 3) == 1 + 2 * Or(s / 2, 1);
      if s / 2 > 0 {
        assert Or(s / 2, 1) == 1 + 2 * Or(s / 2 / 2, 0);
        OrZero(s / 4, 0);
      }
    }
  }

  lemma OddIncrement(sequence: nat, w: nat)
    requires w >= 3
    ensures var r := Or(Mod(2 * sequence, Pow2(w)), 1);
      r == Mod(2 * sequence, Pow2(w)) + 1 && r < Pow2(w) && Odd(r)
  {
    hide Or, Mod, Div;
    HalfDiv(2 * sequence, Pow2(w - 1));
    var h := Mod(sequence, Pow2(w - 1));
    OrDisjoint(1, h, 1);
    CongruentBy(2 * h + 1, 1, h, 2);
  }

  /** The default constants of the source, by width. */
  function DefaultMultiplier(bits: nat): nat {
    if bits == 8 then 141 else if bits == 16 then 12829 else if bits == 32 then 747796405
    else if bits == 64 then 6364136223846793005
    else 2549297995355413924 * 0x1_0000_0000_0000_0000 + 4865540595714422341
  }

  function DefaultIncrement(bits: nat): nat {
    if bits == 8 then 77 else if bits == 16 then 47989 else if bits == 32 then 2891336453
    else if bits == 64 then 1442695040888963407
    else 6364136223846793005 * 0x1_0000_0000_0000_0000 + 1442695040888963407
  }

  /** They meet the conditions, with the default increment and with none. */
  lemma DefaultConstantsGood(bits: nat)
    requires bits in {8, 16, 32, 64, 128}
    ensures GoodConstants(false, DefaultMultiplier(bits), DefaultIncrement(bits))
    ensures GoodConstants(true, DefaultMultiplier(bits), 0)
  {
    hide Congruent;
    var m, c := DefaultMultiplier(bits), DefaultIncrement(bits);
    CongruentBy(m, 1, m / 4, 4);
    CongruentBy(m, 5, m / 8, 8);
    CongruentBy(c, 1, c / 2, 2);
  }
}
