/** Line-number programs as a producer writes them (section 6.2.5 of the DWARF 4 standard), and what
    the machine of src/Common/Dwarf.cpp makes of every one of them. */
module DwarfProgram {
  import opened Arith
  import opened DwarfRead
  import opened DwarfForms
  import opened DwarfLines

  // ----- Instructions

  datatype Instr =
    | OpSpecial(adv: nat, inc: int)
    | OpCopy
    | OpAdvancePc(n: nat)
    | OpAdvanceLine(i: int)
    | OpSetFile(n: nat)
    | OpSetColumn(n: nat)
    | OpNegateStmt
    | OpSetBasicBlock
    | OpConstAddPc
    | OpFixedAdvancePc(n: nat)
    | OpSetPrologueEnd
    | OpSetEpilogueBegin
    | OpSetIsa(n: nat)
    | OpVendor(opcode: nat, operands: seq<nat>)           // a standard opcode the reader does not know
    | OpEndSequence
    | OpSetAddress(n: nat)
    | OpSetDiscriminator(n: nat)
    | OpExtendedVendor(code: nat, payload: seq<Byte>)     // define_file before version 5, or unknown

  /** The instruction can be written under the header. */
  predicate Writable(h: Header, i: Instr)
    requires h.Valid()
  {
    match i
    case OpSpecial(adv, inc) =>
      0 <= inc - h.lineBase < h.lineRange && SpecialByte(h, adv, inc) <= 255
    case OpCopy => h.opcodeBase > 1
    case OpAdvancePc(n) => h.opcodeBase > 2 && n < WORD
    case OpAdvanceLine(i) => h.opcodeBase > 3 && FitsSigned64(i)
    case OpSetFile(n) => h.opcodeBase > 4 && n < WORD
    case OpSetColumn(n) => h.opcodeBase > 5 && n < WORD
    case OpNegateStmt => h.opcodeBase > 6
    case OpSetBasicBlock => h.opcodeBase > 7
    case OpConstAddPc => h.opcodeBase > 8
    case OpFixedAdvancePc(n) => h.opcodeBase > 9 && n < 0x1_0000
    case OpSetPrologueEnd => h.opcodeBase > 10 && h.version != 2
    case OpSetEpilogueBegin => h.opcodeBase > 11 && h.version != 2
    case OpSetIsa(n) => h.opcodeBase > 12 && h.version != 2 && n < WORD
    case OpVendor(op, operands) =>
      && (if h.version == 2 then 10 else 13) <= op < h.opcodeBase
      && |operands| == h.opcodeLengths[op - 1]
      && forall k :: 0 <= k < |operands| ==> operands[k] < WORD
    case OpEndSequence => true
    case OpSetAddress(n) => n < WORD
    case OpSetDiscriminator(n) => n < WORD
    case OpExtendedVendor(code, payload) =>
      code < 256 && code !in {1, 2, 4} && (code == 3 ==> h.version < 5) && |payload| + 1 < WORD
  }

  /** The formula of section 6.2.5.1. */
  function SpecialByte(h: Header, adv: nat, inc: int): int {
    (inc - h.lineBase) + h.lineRange * adv + h.opcodeBase
  }

  function EncodeAll(ns: seq<nat>): seq<Byte> {
    if |ns| == 0 then [] else EncodeUleb(ns[0]) + EncodeAll(ns[1..])
  }

  function Extended(code: Byte, payload: seq<Byte>): seq<Byte> {
    [0] + (EncodeUleb(|payload| + 1) + ([code] + payload))
  }

  function EncodeInstr(h: Header, i: Instr): seq<Byte>
    requires h.Valid() && Writable(h, i)
  {
    match i
    case OpSpecial(adv, inc) => SpecialBounds(h, adv, inc); [SpecialByte(h, adv, inc)]
    case OpCopy => [1]
    case OpAdvancePc(n) => [2] + EncodeUleb(n)
    case OpAdvanceLine(i) => [3] + EncodeSleb(i)
    case OpSetFile(n) => [4] + EncodeUleb(n)
    case OpSetColumn(n) => [5] + EncodeUleb(n)
    case OpNegateStmt => [6]
    case OpSetBasicBlock => [7]
    case OpConstAddPc => [8]
    case OpFixedAdvancePc(n) => [9] + LittleBytes(n, 2)
    case OpSetPrologueEnd => [10]
    case OpSetEpilogueBegin => [11]
    case OpSetIsa(n) => [12] + EncodeUleb(n)
    case OpVendor(op, operands) => [op] + EncodeAll(operands)
    case OpEndSequence => Extended(1, [])
    case OpSetAddress(n) => Extended(2, LittleBytes(n, 8))
    case OpSetDiscriminator(n) => Extended(4, EncodeUleb(n))
    case OpExtendedVendor(code, payload) => Extended(code, payload)
  }

  lemma SpecialBounds(h: Header, adv: nat, inc: int)
    requires h.Valid() && 0 <= inc - h.lineBase
    ensures SpecialByte(h, adv, inc) >= h.opcodeBase > 0
  {
    MulMonotone(0, adv, h.lineRange);
  }

  // ----- What an instruction means for the rows

  /** The advance of the largest special opcode, by counting how often the line range fits. */
  function CountRanges(room: nat, range: nat): nat
    requires range > 0
  {
    if room < range then 0 else 1 + CountRanges(room - range, range)
  }

  function Wrapped(n: int): nat {
    Mod(n, WORD)
  }

  function Effect(h: Header, i: Instr, r: Regs): Regs
    requires h.Valid()
  {
    match i
    case OpSpecial(adv, inc) => Regs(Wrapped(r.address + h.minLength * adv), r.file, Wrapped(r.line + inc))
    case OpAdvancePc(n) => Regs(Wrapped(r.address + h.minLength * n), r.file, r.line)
    case OpAdvanceLine(i) => Regs(r.address, r.file, Wrapped(r.line + i))
    case OpSetFile(n) => Regs(r.address, n, r.line)
    case OpConstAddPc =>
      Regs(Wrapped(r.address + h.minLength * CountRanges(255 - h.opcodeBase, h.lineRange)), r.file, r.line)
    case OpFixedAdvancePc(n) => Regs(Wrapped(r.address + n), r.file, r.line)
    case OpSetAddress(n) => Regs(n, r.file, r.line)
    case _ => r
  }

  predicate MakesRow(i: Instr) {
    i.OpSpecial? || i.OpCopy?
  }

  /** The rows of a program from registers r; quiet says that something ran since the last row. */
  function Meaning(h: Header, prog: seq<Instr>, r: Regs, quiet: bool): Trace
    requires h.Valid()
    decreases |prog|
  {
    if |prog| == 0 then Trace([], quiet)
    else
      var i, rest := prog[0], prog[1..];
      var r' := Effect(h, i, r);
      if i.OpEndSequence? then
        ConsEvent(Event(true, r.address, r.file, r.line), Meaning(h, rest, Regs(0, 1, 1), false))
      else if MakesRow(i) then
        ConsEvent(Event(false, r'.address, r'.file, r'.line), Meaning(h, rest, r', false))
      else Meaning(h, rest, r', true)
  }

  function EncodeProgram(h: Header, prog: seq<Instr>): seq<Byte>
    requires h.Valid() && AllWritable(h, prog)
  {
    if |prog| == 0 then [] else EncodeInstr(h, prog[0]) + EncodeProgram(h, prog[1..])
  }

  // ----- One instruction

  /** The step an instruction should be. */
  function Expected(h: Header, i: Instr, e: nat, r: Regs): Step
    requires h.Valid()
  {
    if i.OpEndSequence? then EndSequence(e, r)
    else if MakesRow(i) then Commit(e, Effect(h, i, r))
    else Continue(e, Effect(h, i, r))
  }

  lemma {:induction false} CountedRanges(room: nat, range: nat)
    requires range > 0
    ensures CountRanges(room, range) == Div(room, range)
    decreases room
  {
    hide Div, Mod;
    if room < range {
      ModSmall(room, range);
    } else {
      CountedRanges(room - range, range);
      DivMod(room - range, range);
      var q := Div(room - range, range);
      MulSub(q, 1, range);
      DivModUnique(room, q + 1, Mod(room - range, range), range);
    }
  }

  lemma RangesQuotient(room: nat, range: nat)
    requires range > 0
    ensures CountRanges(room, range) == room / range
  {
    hide CountRanges;
    CountedRanges(room, range);
  }

  /** The special opcode 255, taken apart. */
  lemma LargestSpecial(h: Header) returns (inc: int)
    requires h.Valid()
    ensures var adv := CountRanges(255 - h.opcodeBase, h.lineRange);
      0 <= inc - h.lineBase < h.lineRange && SpecialByte(h, adv, inc) == 255
  {
    hide Mod, Div, CountRanges;
    var room := 255 - h.opcodeBase;
    CountedRanges(room, h.lineRange);
    DivMod(room, h.lineRange);
    inc := h.lineBase + Mod(room, h.lineRange);
    var adv := CountRanges(room, h.lineRange);
    assert h.lineRange * adv == adv * h.lineRange;
  }

  /** const_add_pc adds the address that the special opcode 255 adds, and leaves line and file alone. */
  lemma ConstAddPcIs255(h: Header, s: seq<Byte>, p: nat, s': seq<Byte>, p': nat, r: Regs)
    requires h.Valid() && h.opcodeBase > 8 && p < |s| && s[p] == 8 && p' < |s'| && s'[p'] == 255
    ensures StepAt(h, s, p, r).Continue? && StepAt(h, s', p', r).Commit?
    ensures StepAt(h, s, p, r).regs == StepAt(h, s', p', r).regs.(line := r.line)
  {
    hide StepAt, Mod, Div, CountRanges;
    var inc := LargestSpecial(h);
    var special := OpSpecial(CountRanges(255 - h.opcodeBase, h.lineRange), inc);
    assert Writable(h, special);
    assert EncodeInstr(h, special) == [255];
    BareInstr(h, s, p, OpConstAddPc, r);
    SpecialInstr(h, s', p', special, r);
  }

  lemma StandardAt(h: Header, s: seq<Byte>, p: nat, op: Byte, r: Regs)
    requires h.Valid() && 0 < op < h.opcodeBase && p < |s| && s[p] == op
    ensures StepAt(h, s, p, r) == StandardOpcode(h, s, op, p + 1, r)
  {
    hide StandardOpcode;
  }

  lemma ExtendedAt(h: Header, s: seq<Byte>, p: nat, r: Regs)
    requires h.Valid() && p < |s| && s[p] == 0
    ensures StepAt(h, s, p, r) == ExtendedOpcode(h, s, p + 1, r)
  {
    hide ExtendedOpcode;
  }

  lemma SpecialInstr(h: Header, s: seq<Byte>, p: nat, i: Instr, r: Regs)
    requires h.Valid() && i.OpSpecial? && Writable(h, i) && Holds(s, p, EncodeInstr(h, i))
    ensures StepAt(h, s, p, r) == Expected(h, i, p + 1, r)
  {
    hide Holds, Mod, Div;
    SpecialBounds(h, i.adv, i.inc);
    var b := SpecialByte(h, i.adv, i.inc);
    HoldsByte(s, p, [b], 0);
    HoldsFits(s, p, [b]);
    Unpacked(b - h.opcodeBase, i.adv, i.inc - h.lineBase, h.lineRange);
  }

  lemma Unpacked(adjusted: nat, adv: nat, rest: nat, range: nat)
    requires rest < range && adjusted == rest + range * adv
    ensures adjusted / range == adv && adjusted % range == rest
  {
    assert range * adv == adv * range;
    DivModUnique(adjusted, adv, rest, range);
  }

  /** The opcodes without operands. */
  lemma BareInstr(h: Header, s: seq<Byte>, p: nat, i: Instr, r: Regs)
    requires h.Valid() && Writable(h, i) && Holds(s, p, EncodeInstr(h, i))
    requires i.OpCopy? || i.OpNegateStmt? || i.OpSetBasicBlock? || i.OpConstAddPc? || i.OpSetPrologueEnd? || i.OpSetEpilogueBegin?
    ensures StepAt(h, s, p, r) == Expected(h, i, p + 1, r)
  {
    hide Holds, Mod, Div, CountRanges;
    var b := EncodeInstr(h, i);
    HoldsByte(s, p, b, 0);
    HoldsFits(s, p, b);
    RangesQuotient(255 - h.opcodeBase, h.lineRange);
  }

  /** The opcodes with one number. */
  lemma NumberInstr(h: Header, s: seq<Byte>, p: nat, i: Instr, r: Regs)
    requires h.Valid() && Writable(h, i) && Holds(s, p, EncodeInstr(h, i))
    requires i.OpAdvancePc? || i.OpSetFile? || i.OpSetColumn? || i.OpSetIsa?
    ensures StepAt(h, s, p, r) == Expected(h, i, p + |EncodeInstr(h, i)|, r)
  {
    hide Holds, Mod, Div, EncodeUleb, LebEnd, Uleb, StepAt;
    var b := EncodeInstr(h, i);
    var op: Byte := b[0];
    assert b == [op] + EncodeUleb(i.n);
    HoldsParts(s, p, [op], EncodeUleb(i.n));
    HoldsByte(s, p, [op], 0);
    HoldsFits(s, p, [op]);
    StandardAt(h, s, p, op, r);
    WrittenUleb(s, p + 1, i.n);
  }

  lemma LineInstr(h: Header, s: seq<Byte>, p: nat, i: Instr, r: Regs)
    requires h.Valid() && i.OpAdvanceLine? && Writable(h, i) && Holds(s, p, EncodeInstr(h, i))
    ensures StepAt(h, s, p, r) == Expected(h, i, p + |EncodeInstr(h, i)|, r)
  {
    hide StepAt, Mod, Div, Holds, EncodeSleb;
    AdvanceLineStep(h, s, p, i.i, r);
  }

  lemma FixedInstr(h: Header, s: seq<Byte>, p: nat, i: Instr, r: Regs)
    requires h.Valid() && i.OpFixedAdvancePc? && Writable(h, i) && Holds(s, p, EncodeInstr(h, i))
    ensures StepAt(h, s, p, r) == Expected(h, i, p + 3, r)
  {
    hide StepAt, Mod, Div, Holds, LittleBytes, Little, LebEnd;
    HoldsParts(s, p, [9], LittleBytes(i.n, 2));
    HoldsByte(s, p, [9], 0);
    HoldsFits(s, p, [9]);
    StandardAt(h, s, p, 9, r);
    assert Pow256(2) == 0x1_0000;
    NumberWritten(s, p + 1, i.n, 2);
  }

  lemma {:induction false} Skipped(s: seq<Byte>, p: nat, ns: seq<nat>)
    requires Holds(s, p, EncodeAll(ns)) && forall k :: 0 <= k < |ns| ==> ns[k] < WORD
    ensures SkipLebs(s, p, |ns|) == At(p + |EncodeAll(ns)|)
    decreases |ns|
  {
    hide Holds, LebEnd, EncodeUleb;
    if |ns| > 0 {
      HoldsParts(s, p, EncodeUleb(ns[0]), EncodeAll(ns[1..]));
      WrittenUleb(s, p, ns[0]);
      Skipped(s, p + |EncodeUleb(ns[0])|, ns[1..]);
    }
  }

  lemma VendorInstr(h: Header, s: seq<Byte>, p: nat, i: Instr, r: Regs)
    requires h.Valid() && i.OpVendor? && Writable(h, i) && Holds(s, p, EncodeInstr(h, i))
    ensures StepAt(h, s, p, r) == Expected(h, i, p + |EncodeInstr(h, i)|, r)
  {
    hide StepAt, Mod, Div, Holds, EncodeAll, SkipLebs, LebEnd;
    var op: Byte := i.opcode;
    HoldsParts(s, p, [op], EncodeAll(i.operands));
    HoldsByte(s, p, [op], 0);
    HoldsFits(s, p, [op]);
    StandardAt(h, s, p, op, r);
    Skipped(s, p + 1, i.operands);
  }

  /** The frame of an extended opcode: where its code lies, and what follows. */
  lemma ExtendedParts(s: seq<Byte>, p: nat, code: Byte, payload: seq<Byte>)
    requires |payload| + 1 < WORD && Holds(s, p, Extended(code, payload))
    ensures p < |s| && s[p] == 0 && LebEnd(s, p + 1).At? && Uleb(s, p + 1) == |payload| + 1
    ensures var q := LebEnd(s, p + 1).p; q < |s| && s[q] == code && Holds(s, q + 1, payload)
    ensures LebEnd(s, p + 1).p + 1 + |payload| == p + |Extended(code, payload)|
  {
    hide Holds, LebEnd, Uleb, EncodeUleb;
    var n := EncodeUleb(|payload| + 1);
    HoldsParts(s, p, [0], n + ([code] + payload));
    HoldsByte(s, p, [0], 0);
    HoldsFits(s, p, [0]);
    HoldsParts(s, p + 1, n, [code] + payload);
    WrittenUleb(s, p + 1, |payload| + 1);
    HoldsParts(s, p + 1 + |n|, [code], payload);
    HoldsByte(s, p + 1 + |n|, [code], 0);
    HoldsFits(s, p + 1 + |n|, [code]);
  }

  lemma ExtendedInstr(h: Header, s: seq<Byte>, p: nat, i: Instr, r: Regs)
    requires h.Valid() && Writable(h, i) && Holds(s, p, EncodeInstr(h, i))
    requires i.OpEndSequence? || i.OpSetAddress? || i.OpSetDiscriminator? || i.OpExtendedVendor?
    ensures StepAt(h, s, p, r) == Expected(h, i, p + |EncodeInstr(h, i)|, r)
  {
    hide StepAt, Mod, Div, Holds, LebEnd, Uleb, EncodeUleb, LittleBytes, Little, Extended;
    match i
    case OpEndSequence =>
      ExtendedParts(s, p, 1, []);
      ExtendedAt(h, s, p, r);
    case OpSetAddress(n) =>
      var b := LittleBytes(n, 8);
      ExtendedParts(s, p, 2, b);
      ExtendedAt(h, s, p, r);
      assert Pow256(8) == WORD;
      NumberWritten(s, LebEnd(s, p + 1).p + 1, n, 8);
    case OpSetDiscriminator(n) =>
      LebFits(n);
      ExtendedParts(s, p, 4, EncodeUleb(n));
      ExtendedAt(h, s, p, r);
      WrittenUleb(s, LebEnd(s, p + 1).p + 1, n);
    case OpExtendedVendor(code, payload) =>
      ExtendedParts(s, p, code, payload);
      ExtendedAt(h, s, p, r);
      HoldsFits(s, LebEnd(s, p + 1).p + 1, payload);
    case _ =>
  }

  lemma {:induction false} LebFits(v: nat)
    ensures |EncodeUleb(v)| <= 1 + v / 128
    decreases v
  {
    if v >= 128 {
      LebFits(v / 128);
    }
  }

  /** Every instruction is executed as it is meant, and the next one follows. */
  lemma InstrStep(h: Header, s: seq<Byte>, p: nat, i: Instr, r: Regs)
    requires h.Valid() && Writable(h, i) && Holds(s, p, EncodeInstr(h, i))
    ensures StepAt(h, s, p, r) == Expected(h, i, p + |EncodeInstr(h, i)|, r)
  {
    hide StepAt, Holds, Expected;
    match i
    case OpSpecial(_, _) => SpecialInstr(h, s, p, i, r);
    case OpAdvancePc(_) => NumberInstr(h, s, p, i, r);
    case OpSetFile(_) => NumberInstr(h, s, p, i, r);
    case OpSetColumn(_) => NumberInstr(h, s, p, i, r);
    case OpSetIsa(_) => NumberInstr(h, s, p, i, r);
    case OpAdvanceLine(_) => LineInstr(h, s, p, i, r);
    case OpFixedAdvancePc(_) => FixedInstr(h, s, p, i, r);
    case OpVendor(_, _) => VendorInstr(h, s, p, i, r);
    case OpEndSequence => ExtendedInstr(h, s, p, i, r);
    case OpSetAddress(_) => ExtendedInstr(h, s, p, i, r);
    case OpSetDiscriminator(_) => ExtendedInstr(h, s, p, i, r);
    case OpExtendedVendor(_, _) => ExtendedInstr(h, s, p, i, r);
    case _ => BareInstr(h, s, p, i, r);
  }

  // ----- Whole programs

  ghost predicate AllWritable(h: Header, prog: seq<Instr>)
    requires h.Valid()
  {
    forall k :: 0 <= k < |prog| ==> Writable(h, prog[k])
  }

  /** What is still to come, when the loop of `next` may be under way: no end of data is expected then. */
  function Remaining(h: Header, s: seq<Byte>, p: nat, r: Regs, quiet: bool): Trace
    requires h.Valid()
  {
    if !quiet then TraceAt(h, s, p, r)
    else
      var t := RowAt(h, s, p, r);
      if t.Fault? then Trace([], true)
      else ConsEvent(EventOf(t), TraceAt(h, s, t.p, if t.EndSequence? then START else t.regs))
  }

  lemma RemainingStep(h: Header, s: seq<Byte>, p: nat, r: Regs, quiet: bool)
    requires h.Valid() && p < |s|
    ensures var t := StepAt(h, s, p, r);
      Remaining(h, s, p, r, quiet)
      == match t
         case Fault => Trace([], true)
         case Continue(q, r') => Remaining(h, s, q, r', true)
         case Commit(q, r') => ConsEvent(EventOf(t), Remaining(h, s, q, r', false))
         case EndSequence(q, _) => ConsEvent(EventOf(t), Remaining(h, s, q, START, false))
  {
    hide StepAt, RowAt, TraceAt;
    RowStep(h, s, p, r);
    TraceStep(h, s, p, r);
  }

  lemma RemainingEnd(h: Header, s: seq<Byte>, r: Regs, quiet: bool)
    requires h.Valid()
    ensures Remaining(h, s, |s|, r, quiet) == Trace([], quiet)
  {
    hide TraceAt;
    TraceStep(h, s, |s|, r);
  }

  /** The machine makes of the written program at the end of s what the program means. */
  lemma {:induction false} ProgramAt(h: Header, s: seq<Byte>, p: nat, prog: seq<Instr>, r: Regs, quiet: bool)
    requires h.Valid() && AllWritable(h, prog)
    requires Holds(s, p, EncodeProgram(h, prog)) && p + |EncodeProgram(h, prog)| == |s|
    ensures Remaining(h, s, p, r, quiet) == Meaning(h, prog, r, quiet)
    decreases |prog|
  {
    hide Holds, Remaining, StepAt, Writable, EncodeInstr, Effect;
    if |prog| == 0 {
      RemainingEnd(h, s, r, quiet);
    } else {
      var i := prog[0];
      var b, rest := EncodeInstr(h, i), EncodeProgram(h, prog[1..]);
      HoldsParts(s, p, b, rest);
      InstrStep(h, s, p, i, r);
      StepBounds(h, s, p, r);
      RemainingStep(h, s, p, r, quiet);
      var r' := if i.OpEndSequence? then Regs(0, 1, 1) else Effect(h, i, r);
      ProgramAt(h, s, p + |b|, prog[1..], r', !i.OpEndSequence? && !MakesRow(i));
    }
  }

  /** Every program, encoded by the rules of the standard, produces the rows the standard gives it. */
  lemma ProgramMeaning(h: Header, prog: seq<Instr>)
    requires h.Valid() && AllWritable(h, prog)
    ensures TraceAt(h, EncodeProgram(h, prog), 0, START) == Meaning(h, prog, Regs(0, 1, 1), false)
  {
    hide Holds, TraceAt, Meaning, EncodeProgram;
    var s := EncodeProgram(h, prog);
    WholeHeld(s);
    ProgramAt(h, s, 0, prog, START, false);
  }

  /** `findAddress` on a written program: the answer its meaning calls for. */
  method FindInProgram(h: Header, prog: seq<Instr>, target: nat) returns (a: Answer)
    requires h.Valid() && AllWritable(h, prog)
    ensures RightAnswer(h.version, Meaning(h, prog, Regs(0, 1, 1), false), target, a)
  {
    hide TraceAt, Meaning, EncodeProgram, RightAnswer;
    var vm := new LineNumberVM(h, EncodeProgram(h, prog));
    ProgramMeaning(h, prog);
    a := vm.FindAddress(target);
  }
}
