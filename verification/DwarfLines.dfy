/** The line-number machine (src/Common/Dwarf.cpp; section 6.2 of the DWARF 4 standard): a byte
    code that produces rows of address, file and line, and the search for an address. */
module DwarfLines {
  import opened Arith
  import opened DwarfRead

  datatype Header = Header(version: nat, minLength: Byte, lineBase: int, lineRange: Byte, opcodeBase: Byte,
                           opcodeLengths: seq<Byte>)
  {
    predicate Valid() {
      -128 <= lineBase < 128 && lineRange > 0 && opcodeBase > 0 && |opcodeLengths| == opcodeBase - 1
    }
  }

  /** The registers the search looks at. */
  datatype Regs = Regs(address: nat, file: nat, line: nat)

  const START: Regs := Regs(0, 1, 1)

  function AddAddress(r: Regs, n: int): Regs {
    r.(address := Mod(r.address + n, WORD))
  }

  function AddLine(r: Regs, d: int): Regs {
    r.(line := Mod(r.line + d, WORD))
  }

  datatype Step = Continue(p: nat, regs: Regs) | Commit(p: nat, regs: Regs) | EndSequence(p: nat, regs: Regs) | Fault

  function Continued(e: Pos, regs: Regs): Step {
    if e.Bad? then Fault else Continue(e.p, regs)
  }

  /** n LEB operands, skipped. */
  function SkipLebs(s: seq<Byte>, p: nat, n: nat): (r: Pos)
    ensures r.At? ==> p <= r.p && (p <= |s| ==> r.p <= |s|)
    decreases n
  {
    if n == 0 then At(p)
    else if LebEnd(s, p).Bad? then Bad else SkipLebs(s, LebEnd(s, p).p, n - 1)
  }

  function SpecialOpcode(h: Header, opcode: Byte, p: nat, r: Regs): Step
    requires h.Valid() && opcode >= h.opcodeBase
  {
    var adjusted := opcode - h.opcodeBase;
    Commit(p, AddLine(AddAddress(r, h.minLength * (adjusted / h.lineRange)), h.lineBase + adjusted % h.lineRange))
  }

  function StandardOpcode(h: Header, s: seq<Byte>, opcode: Byte, p: nat, r: Regs): Step
    requires h.Valid() && 0 < opcode < h.opcodeBase
  {
    var e := LebEnd(s, p);
    if opcode == 1 then Commit(p, r)
    else if opcode == 2 then
      if e.Bad? then Fault else Continue(e.p, AddAddress(r, h.minLength * Uleb(s, p)))
    else if opcode == 3 then
      if e.Bad? then Fault else Continue(e.p, AddLine(r, SignedGroups(s[p..e.p])))
    else if opcode == 4 then
      if e.Bad? then Fault else Continue(e.p, r.(file := Uleb(s, p)))
    else if opcode == 5 then Continued(e, r)
    else if opcode in {6, 7} then Continue(p, r)
    else if opcode == 8 then
      Continue(p, AddAddress(r, h.minLength * ((255 - h.opcodeBase) / h.lineRange)))
    else if opcode == 9 then
      if p + 2 <= |s| then Continue(p + 2, AddAddress(r, Little(s[p..p + 2]))) else Fault
    else if opcode in {10, 11} && h.version != 2 then Continue(p, r)
    else if opcode == 12 && h.version != 2 then Continued(e, r)
    else Continued(SkipLebs(s, p, h.opcodeLengths[opcode - 1]), r)
  }

  function ExtendedOpcode(h: Header, s: seq<Byte>, p: nat, r: Regs): Step {
    var e := LebEnd(s, p);
    if e.Bad? || Uleb(s, p) == 0 || e.p >= |s| then Fault
    else
      var code, q, rest := s[e.p], e.p + 1, Uleb(s, p) - 1;
      if code == 1 then EndSequence(q, r)
      else if code == 2 then
        if q + 8 <= |s| then Continue(q + 8, r.(address := Little(s[q..q + 8]))) else Fault
      else if code == 3 && h.version >= 5 then Fault
      else if code == 4 then Continued(LebEnd(s, q), r)
      else if q + rest <= |s| then Continue(q + rest, r) else Fault
  }

  /** `step`: one opcode. */
  function StepAt(h: Header, s: seq<Byte>, p: nat, r: Regs): (t: Step)
    requires h.Valid()
    ensures !t.Fault? ==> p < t.p <= |s|
  {
    if p >= |s| then Fault
    else if s[p] >= h.opcodeBase then SpecialOpcode(h, s[p], p + 1, r)
    else if s[p] != 0 then StandardOpcode(h, s, s[p], p + 1, r)
    else ExtendedOpcode(h, s, p + 1, r)
  }

  /** `next`: opcodes up to the next row or sequence end. */
  function RowAt(h: Header, s: seq<Byte>, p: nat, r: Regs): (t: Step)
    requires h.Valid()
    ensures !t.Continue? && (!t.Fault? ==> p < t.p <= |s|)
    decreases |s| - p
  {
    var t := StepAt(h, s, p, r);
    if t.Continue? then RowAt(h, s, t.p, t.regs) else t
  }

  // ----- What the opcodes mean

  /** A special opcode produces the row that advance_pc, advance_line and copy would. */
  lemma SpecialOpcodeMeaning(h: Header, s: seq<Byte>, p: nat, s': seq<Byte>, p': nat, r: Regs)
    requires h.Valid() && h.opcodeBase >= 4 && p < |s| && s[p] >= h.opcodeBase
    requires var adjusted := s[p] - h.opcodeBase;
      Holds(s', p', [2] + EncodeUleb(adjusted / h.lineRange)
                    + ([3] + EncodeSleb(h.lineBase + adjusted % h.lineRange) + [1]))
    ensures RowAt(h, s, p, r).Commit? && RowAt(h, s', p', r).Commit?
    ensures RowAt(h, s, p, r).regs == RowAt(h, s', p', r).regs
  {
    var adjusted := s[p] - h.opcodeBase;
    var adv, inc := adjusted / h.lineRange, h.lineBase + adjusted % h.lineRange;
    SpecialStep(h, s, p, r, adv, inc);
    hide *;
    var a, b := EncodeUleb(adv), EncodeSleb(inc);
    HoldsParts(s', p', [2] + a, [3] + b + [1]);
    HoldsParts(s', p' + 1 + |a|, [3] + b, [1]);
    ThreeSteps(h, s', p', adv, inc, r);
  }

  lemma SpecialStep(h: Header, s: seq<Byte>, p: nat, r: Regs, adv: nat, inc: int)
    requires h.Valid() && p < |s| && s[p] >= h.opcodeBase
    requires adv == (s[p] - h.opcodeBase) / h.lineRange && inc == h.lineBase + (s[p] - h.opcodeBase) % h.lineRange
    ensures RowAt(h, s, p, r) == Commit(p + 1, AddLine(AddAddress(r, h.minLength * adv), inc))
    ensures adv < 256
  {
    hide Mod, Div, AddLine, AddAddress;
    var adjusted := s[p] - h.opcodeBase;
    assert adv <= adjusted by {
      QuotientSign(adjusted, h.lineRange);
      MulMonotone(1, h.lineRange, adv);
    }
  }

  lemma ThreeSteps(h: Header, s: seq<Byte>, p: nat, adv: nat, inc: int, r: Regs)
    requires h.Valid() && h.opcodeBase >= 4 && adv < 256
    requires var p2 := p + 1 + |EncodeUleb(adv)|;
      && Holds(s, p, [2] + EncodeUleb(adv)) && Holds(s, p2, [3] + EncodeSleb(inc))
      && Holds(s, p2 + 1 + |EncodeSleb(inc)|, [1])
    ensures var p3 := p + 2 + |EncodeUleb(adv)| + |EncodeSleb(inc)|;
      RowAt(h, s, p, r) == Commit(p3 + 1, AddLine(AddAddress(r, h.minLength * adv), inc))
  {
    hide StepAt, RowAt, Holds, EncodeUleb, EncodeSleb, AddLine, AddAddress;
    var p2 := p + 1 + |EncodeUleb(adv)|;
    var p3 := p2 + 1 + |EncodeSleb(inc)|;
    var r1 := AddAddress(r, h.minLength * adv);
    AdvancePcStep(h, s, p, adv, r);
    AdvanceLineStep(h, s, p2, inc, r1);
    CopyStep(h, s, p3, AddLine(r1, inc));
    RowStep(h, s, p, r);
    RowStep(h, s, p2, r1);
    RowStep(h, s, p3, AddLine(r1, inc));
  }

  lemma CopyStep(h: Header, s: seq<Byte>, p: nat, r: Regs)
    requires h.Valid() && h.opcodeBase >= 2 && Holds(s, p, [1])
    ensures StepAt(h, s, p, r) == Commit(p + 1, r)
  {
    hide Holds;
    HoldsByte(s, p, [1], 0);
    HoldsFits(s, p, [1]);
  }

  lemma RowStep(h: Header, s: seq<Byte>, p: nat, r: Regs)
    requires h.Valid()
    ensures var t := StepAt(h, s, p, r);
      RowAt(h, s, p, r) == if t.Continue? then RowAt(h, s, t.p, t.regs) else t
  {
    hide StepAt;
  }

  lemma AdvancePcStep(h: Header, s: seq<Byte>, p: nat, adv: nat, r: Regs)
    requires h.Valid() && h.opcodeBase >= 3 && adv < WORD && Holds(s, p, [2] + EncodeUleb(adv))
    ensures StepAt(h, s, p, r) == Continue(p + 1 + |EncodeUleb(adv)|, AddAddress(r, h.minLength * adv))
  {
    hide Mod, Div, EncodeUleb, Groups, Holds, LebEnd;
    var b := EncodeUleb(adv);
    HoldsParts(s, p, [2], b);
    HoldsFits(s, p, [2]);
    HoldsByte(s, p, [2], 0);
    EncodedUleb(adv);
    EncodedInside(s, p + 1, b);
    ModSmall(adv, WORD);
  }

  lemma AdvanceLineStep(h: Header, s: seq<Byte>, p: nat, inc: int, r: Regs)
    requires h.Valid() && h.opcodeBase >= 4 && Holds(s, p, [3] + EncodeSleb(inc))
    ensures StepAt(h, s, p, r) == Continue(p + 1 + |EncodeSleb(inc)|, AddLine(r, inc))
  {
    hide Mod, Div, EncodeSleb, Groups, Holds, LebEnd, SignedGroups;
    var b := EncodeSleb(inc);
    HoldsParts(s, p, [3], b);
    HoldsFits(s, p, [3]);
    HoldsByte(s, p, [3], 0);
    EncodedSleb(inc);
    EncodedInside(s, p + 1, b);
  }

  // ----- Rows

  /** A row, or the past-the-end address that closes a sequence. */
  datatype Event = Event(end: bool, address: nat, file: nat, line: nat)

  datatype Trace = Trace(events: seq<Event>, fault: bool)

  /** Everything the program produces from p on; registers restart after each sequence. */
  function TraceAt(h: Header, s: seq<Byte>, p: nat, r: Regs): Trace
    requires h.Valid()
    decreases |s| - p
  {
    if p >= |s| then Trace([], false)
    else
      var t := RowAt(h, s, p, r);
      if t.Fault? then Trace([], true)
      else
        var rest := TraceAt(h, s, t.p, if t.EndSequence? then START else t.regs);
        Trace([EventOf(t)] + rest.events, rest.fault)
  }

  function EventOf(t: Step): Event
    requires t.Commit? || t.EndSequence?
  {
    Event(t.EndSequence?, t.regs.address, t.regs.file, t.regs.line)
  }

  /** Row i holds the target: its successor in the same sequence lies past it. */
  predicate Covers(es: seq<Event>, i: nat, target: nat) {
    i + 1 < |es| && !es[i].end && es[i].address <= target < es[i + 1].address
  }

  /** The first row of the sequence that row i belongs to. */
  function SeqStart(es: seq<Event>, i: nat): (j: nat)
    requires i < |es|
    ensures j <= i
  {
    if i == 0 || es[i - 1].end then i else SeqStart(es, i - 1)
  }

  /** The rows the search considers: in a sequence that starts at or below the target. */
  predicate Candidate(es: seq<Event>, i: nat, target: nat) {
    Covers(es, i, target) && es[SeqStart(es, i)].address <= target
  }

  datatype Answer = Thrown | NotFound | Found(file: nat, line: nat)

  /** What the search must answer: the first candidate row, unless its file register is the
      zero that versions up to 4 do not allow. */
  ghost predicate RightAnswer(version: nat, t: Trace, target: nat, a: Answer) {
    || (exists i: nat :: FirstCandidate(t.events, i, target) && a == AnswerFor(version, t.events[i]))
    || ((forall i: nat :: !Candidate(t.events, i, target)) && a == if t.fault then Thrown else NotFound)
  }

  function AnswerFor(version: nat, row: Event): Answer {
    if version <= 4 && row.file == 0 then NotFound else Found(row.file, row.line)
  }

  ghost predicate FirstCandidate(es: seq<Event>, i: nat, target: nat) {
    Candidate(es, i, target) && forall j: nat :: j < i ==> !Candidate(es, j, target)
  }

  // ----- The search

  class LineNumberVM {
    const header: Header
    const data: seq<Byte>
    var address: nat
    var file: nat
    var line: nat

    ghost function Registers(): Regs
      reads this
    {
      Regs(address, file, line)
    }

    constructor (header: Header, data: seq<Byte>)
      requires header.Valid()
      ensures this.header == header && this.data == data && Registers() == START
    {
      this.header, this.data := header, data;
      address, file, line := 0, 1, 1;
    }

    method Reset()
      modifies this
      ensures Registers() == START
    {
      address, file, line := 0, 1, 1;
    }

    /** `next`: runs opcodes until a row is committed or the sequence ends. */
    method Next(p: nat) returns (t: Step)
      requires header.Valid()
      modifies this
      ensures t == RowAt(header, data, p, old(Registers()))
      ensures !t.Fault? ==> Registers() == t.regs
    {
      hide StepAt;
      var q := p;
      while true
        invariant RowAt(header, data, q, Registers()) == RowAt(header, data, p, old(Registers()))
        decreases |data| - q
      {
        StepBounds(header, data, q, Registers());
        t := StepAt(header, data, q, Regs(address, file, line));
        if t.Fault? { return; }
        address, file, line := t.regs.address, t.regs.file, t.regs.line;
        if !t.Continue? { return; }
        q := t.p;
      }
    }

    /** `findAddress`: the states are before a sequence, in one that started at or below the
        target, in one that started above it. */
    method FindAddress(target: nat) returns (a: Answer)
      requires header.Valid()
      modifies this
      ensures RightAnswer(header.version, TraceAt(header, data, 0, START), target, a)
    {
      hide RowAt, TraceAt, RightAnswer, Searched;
      ghost var whole := TraceAt(header, data, 0, START);
      ghost var done: seq<Event> := [];
      var p := 0;
      var state := Before;
      var prevFile, prevLine := 0, 0;
      Reset();
      TraceSplit(whole);
      SearchStarts(target);
      while p < |data|
        invariant Joined(done, TraceAt(header, data, p, Registers()), whole)
        invariant Searched(done, state, prevFile, prevLine, target)
        decreases |data| - p
      {
        TraceStep(header, data, p, Registers());
        RowBounds(header, data, p, Registers());
        ghost var rest := TraceAt(header, data, p, Registers());
        var t := Next(p);
        if t.Fault? {
          SearchFails(header.version, done, state, prevFile, prevLine, target, rest, whole);
          return Thrown;
        }
        ghost var e := EventOf(t);
        ghost var was, pf, pl := state, prevFile, prevLine;
        var seqEnd := t.EndSequence?;
        if state == Before && !seqEnd {
          state := if address <= target then Low else High;
        }
        if state == Low {
          if address > target {
            SearchFinds(header.version, done, was, pf, pl, target, e, rest, whole);
            if header.version <= 4 && prevFile == 0 {
              return NotFound;
            }
            return Found(prevFile, prevLine);
          }
          prevFile, prevLine := file, line;
        }
        if seqEnd {
          state := Before;
          Reset();
        }
        SearchSteps(done, was, pf, pl, target, e);
        JoinStep(done, rest, e, TraceAt(header, data, t.p, Registers()), whole);
        done := done + [e];
        p := t.p;
      }
      TraceStep(header, data, p, Registers());
      SearchFails(header.version, done, state, prevFile, prevLine, target, TraceAt(header, data, p, Registers()), whole);
      return NotFound;
    }
  }

  datatype Phase = Before | Low | High

  lemma StepBounds(h: Header, s: seq<Byte>, p: nat, r: Regs)
    requires h.Valid()
    ensures !StepAt(h, s, p, r).Fault? ==> p < StepAt(h, s, p, r).p <= |s|
  {
  }

  lemma RowBounds(h: Header, s: seq<Byte>, p: nat, r: Regs)
    requires h.Valid()
    ensures var t := RowAt(h, s, p, r); !t.Continue? && (!t.Fault? ==> p < t.p <= |s|)
  {
  }

  ghost predicate Joined(done: seq<Event>, rest: Trace, whole: Trace) {
    done + rest.events == whole.events && rest.fault == whole.fault
  }

  lemma TraceSplit(whole: Trace)
    ensures Joined([], whole, whole)
  {
  }

  lemma TraceStep(h: Header, s: seq<Byte>, p: nat, r: Regs)
    requires h.Valid()
    ensures p >= |s| ==> TraceAt(h, s, p, r) == Trace([], false)
    ensures p < |s| ==>
      var t := RowAt(h, s, p, r);
      if t.Fault? then TraceAt(h, s, p, r) == Trace([], true)
      else TraceAt(h, s, p, r) == ConsEvent(EventOf(t), TraceAt(h, s, t.p, if t.EndSequence? then START else t.regs))
  {
    hide RowAt;
    RowBounds(h, s, p, r);
  }

  function ConsEvent(e: Event, t: Trace): Trace {
    Trace([e] + t.events, t.fault)
  }

  lemma JoinStep(done: seq<Event>, rest: Trace, e: Event, rest': Trace, whole: Trace)
    requires Joined(done, rest, whole) && rest == ConsEvent(e, rest')
    ensures Joined(done + [e], rest', whole)
  {
    assert done + ([e] + rest'.events) == (done + [e]) + rest'.events;
  }

  /** What the search knows after the events so far: no candidate yet, the phase of the current
      sequence, and the last row when it is a possible answer. */
  ghost predicate Searched(es: seq<Event>, state: Phase, prevFile: nat, prevLine: nat, target: nat) {
    && (forall i: nat :: !Candidate(es, i, target))
    && (state == Before <==> |es| == 0 || es[|es| - 1].end)
    && (state != Before ==> (state == Low <==> es[SeqStart(es, |es| - 1)].address <= target))
    && (state == Low ==>
          && es[|es| - 1].address <= target
          && es[|es| - 1].file == prevFile && es[|es| - 1].line == prevLine)
  }

  lemma SearchStarts(target: nat)
    ensures Searched([], Before, 0, 0, target)
  {
  }

  /** A longer trace has the same sequence starts. */
  lemma {:induction false} SeqStartPrefix(es: seq<Event>, more: seq<Event>, i: nat)
    requires i < |es|
    ensures SeqStart(es + more, i) == SeqStart(es, i)
    decreases i
  {
    if i > 0 && !es[i - 1].end {
      SeqStartPrefix(es, more, i - 1);
    }
  }

  lemma CandidatePrefix(es: seq<Event>, more: seq<Event>, i: nat, target: nat)
    requires i + 1 < |es|
    ensures Candidate(es + more, i, target) <==> Candidate(es, i, target)
  {
    hide SeqStart;
    SeqStartPrefix(es, more, i);
  }

  /** One event that does not end the search. */
  lemma SearchSteps(es: seq<Event>, state: Phase, prevFile: nat, prevLine: nat, target: nat, e: Event)
    requires Searched(es, state, prevFile, prevLine, target)
    requires state == Low ==> e.address <= target
    ensures var mid := if state == Before && !e.end then (if e.address <= target then Low else High) else state;
      Searched(es + [e], if e.end then Before else mid,
               if mid == Low then e.file else prevFile, if mid == Low then e.line else prevLine, target)
  {
    var es' := es + [e];
    var n := |es|;
    forall i: nat ensures !Candidate(es', i, target) {
      if i + 1 < n {
        CandidatePrefix(es, [e], i, target);
      } else if i + 1 == n && state != Before {
        SeqStartPrefix(es, [e], i);
      }
    }
    if n > 0 {
      SeqStartPrefix(es, [e], n - 1);
    }
  }

  /** The row before the first event past the target is the first candidate. */
  lemma SearchFinds(version: nat, es: seq<Event>, state: Phase, prevFile: nat, prevLine: nat, target: nat,
                    e: Event, rest: Trace, whole: Trace)
    requires Searched(es, state, prevFile, prevLine, target) && state == Low && e.address > target
    requires Joined(es, rest, whole) && |rest.events| > 0 && rest.events[0] == e
    ensures RightAnswer(version, whole, target,
                        if version <= 4 && prevFile == 0 then NotFound else Found(prevFile, prevLine))
  {
    var i := |es| - 1;
    var all := whole.events;
    assert all[i + 1] == e && all[i] == es[i];
    SeqStartPrefix(es, rest.events, i);
    forall j: nat | j < i ensures !Candidate(all, j, target) {
      CandidatePrefix(es, rest.events, j, target);
    }
    assert FirstCandidate(all, i, target);
    assert AnswerFor(version, all[i]) == if version <= 4 && prevFile == 0 then NotFound else Found(prevFile, prevLine);
  }

  lemma SearchFails(version: nat, es: seq<Event>, state: Phase, prevFile: nat, prevLine: nat, target: nat,
                    rest: Trace, whole: Trace)
    requires Searched(es, state, prevFile, prevLine, target) && Joined(es, rest, whole) && rest.events == []
    ensures RightAnswer(version, whole, target, if rest.fault then Thrown else NotFound)
  {
    assert whole.events == es;
  }

  // ----- When the search is complete

  /** Within each sequence addresses do not decrease. */
  predicate NonDecreasing(es: seq<Event>) {
    forall i :: 0 <= i < |es| - 1 && !es[i].end ==> es[i].address <= es[i + 1].address
  }

  lemma {:induction false} StartIsLowest(es: seq<Event>, i: nat)
    requires NonDecreasing(es) && i < |es|
    ensures es[SeqStart(es, i)].address <= es[i].address
    decreases i
  {
    if i > 0 && !es[i - 1].end {
      StartIsLowest(es, i - 1);
    }
  }

  /** With non-decreasing sequences every covering row is a candidate, so the search finds a line
      for the target exactly when some sequence covers it (given usable file registers). */
  lemma SearchComplete(version: nat, t: Trace, target: nat, a: Answer)
    requires RightAnswer(version, t, target, a) && NonDecreasing(t.events)
    requires version > 4 || forall i :: 0 <= i < |t.events| ==> t.events[i].file != 0
    ensures a.Found? <==> exists i: nat :: Covers(t.events, i, target)
    ensures a.Found? ==> exists i: nat ::
      Covers(t.events, i, target) && a == Found(t.events[i].file, t.events[i].line)
  {
    hide SeqStart;
    if i: nat :| Covers(t.events, i, target) {
      StartIsLowest(t.events, i);
      assert Candidate(t.events, i, target);
    }
  }

  /** In every program: an answer is the first candidate row, and never file 0 before version 5. */
  lemma AnswerExact(version: nat, t: Trace, target: nat, a: Answer)
    requires RightAnswer(version, t, target, a)
    ensures a.Found? <==> exists i: nat :: FirstCandidate(t.events, i, target) && (version >= 5 || t.events[i].file > 0)
    ensures forall i: nat :: a.Found? && FirstCandidate(t.events, i, target) ==>
      a.file == t.events[i].file && a.line == t.events[i].line
    ensures a == Thrown <==> t.fault && forall i: nat :: !Candidate(t.events, i, target)
  {
    hide Candidate;
    if k: nat :| FirstCandidate(t.events, k, target) {
      forall i: nat | FirstCandidate(t.events, i, target) ensures i == k {
        assert i < k || k < i || i == k;
      }
    }
  }

  // ----- A sequence that comes back down

  const PLAIN: Header := Header(4, 1, -3, 12, 13, [0, 1, 1, 1, 1, 0, 0, 0, 1, 0, 0, 1])

  function SetAddress(x: Byte): seq<Byte> {
    [0, 9, 2] + [x, 0, 0, 0, 0, 0, 0, 0]
  }

  /** set_address, advance_line and copy. */
  function RowText(x: Byte, inc: Byte): seq<Byte> {
    SetAddress(x) + (([3] + [inc]) + [1])
  }

  /** Rows at 8 and then at 2, closed at 9 by set_address and end_sequence. */
  const DESCENT: seq<Byte> := RowText(8, 9) + (RowText(2, 1) + (SetAddress(9) + [0, 1, 1]))

  lemma SetAddressStep(h: Header, s: seq<Byte>, p: nat, x: Byte, r: Regs)
    requires h.Valid() && Holds(s, p, SetAddress(x))
    ensures StepAt(h, s, p, r) == Continue(p + 11, r.(address := x))
  {
    hide Mod, Div, LebEnd, Uleb, Little, Holds, EncodeUleb;
    var head, b: seq<Byte> := [0, 9, 2], [x, 0, 0, 0, 0, 0, 0, 0];
    HoldsParts(s, p, head, b);
    HoldsFits(s, p + 3, b);
    HoldsByte(s, p, head, 0);
    HoldsByte(s, p, head, 2);
    SmallHeld(s, p + 1, head, p, 9);
    HeldSlice(s, p + 3, b);
    LittleSmall(x);
  }

  /** A byte below 128 inside held bytes is a number of its own. */
  lemma SmallHeld(s: seq<Byte>, q: nat, b: seq<Byte>, p: nat, x: Byte)
    requires Holds(s, p, b) && p <= q < p + |b| && b[q - p] == x && x < 128
    ensures LebEnd(s, q) == At(q + 1) && Uleb(s, q) == x
  {
    hide Mod, Div;
    HoldsByte(s, p, b, q - p);
    assert s[q..q + 1] == [x] && [x][1..] == [];
    assert Groups([x]) == x;
    ModSmall(x, WORD);
  }

  lemma LittleSmall(x: Byte)
    ensures Little([x, 0, 0, 0, 0, 0, 0, 0]) == x
  {
    var b: seq<Byte> := [x, 0, 0, 0, 0, 0, 0, 0];
    LittleZeros(b[1..]);
  }

  lemma {:induction false} LittleZeros(b: seq<Byte>)
    requires forall i :: 0 <= i < |b| ==> b[i] == 0
    ensures Little(b) == 0
  {
    if |b| > 0 {
      LittleZeros(b[1..]);
    }
  }

  lemma EndStep(h: Header, s: seq<Byte>, p: nat, r: Regs)
    requires h.Valid() && Holds(s, p, [0, 1, 1])
    ensures StepAt(h, s, p, r) == EndSequence(p + 3, r)
  {
    hide Mod, Div, LebEnd, Uleb, Holds;
    HoldsFits(s, p, [0, 1, 1]);
    HoldsByte(s, p, [0, 1, 1], 0);
    HoldsByte(s, p, [0, 1, 1], 2);
    SmallHeld(s, p + 1, [0, 1, 1], p, 1);
  }

  lemma WrittenRow(s: seq<Byte>, p: nat, x: Byte, inc: nat, r: Regs)
    requires inc < 64 && r.line + inc < 100 && Holds(s, p, RowText(x, inc))
    ensures RowAt(PLAIN, s, p, r) == Commit(p + 14, Regs(x, r.file, r.line + inc))
  {
    hide StepAt, RowAt, Holds, Mod, Div;
    HoldsParts(s, p, SetAddress(x), ([3] + [inc]) + [1]);
    HoldsParts(s, p + 11, [3] + [inc], [1]);
    var r1 := r.(address := x);
    var r2 := AddLine(r1, inc);
    assert EncodeSleb(inc) == [inc];
    SetAddressStep(PLAIN, s, p, x, r);
    AdvanceLineStep(PLAIN, s, p + 11, inc, r1);
    CopyStep(PLAIN, s, p + 13, r2);
    ModSmall(r.line + inc, WORD);
    RowStep(PLAIN, s, p, r);
    RowStep(PLAIN, s, p + 11, r1);
    RowStep(PLAIN, s, p + 13, r2);
  }

  lemma DescentParts()
    ensures Holds(DESCENT, 0, RowText(8, 9)) && Holds(DESCENT, 14, RowText(2, 1))
    ensures Holds(DESCENT, 28, SetAddress(9)) && Holds(DESCENT, 39, [0, 1, 1]) && |DESCENT| == 42
  {
    hide Holds, RowText, SetAddress;
    var a, b, c := RowText(8, 9), RowText(2, 1), SetAddress(9);
    RowLengths();
    WholeHeld(DESCENT);
    HoldsParts(DESCENT, 0, a, b + (c + [0, 1, 1]));
    HoldsParts(DESCENT, 14, b, c + [0, 1, 1]);
    HoldsParts(DESCENT, 28, c, [0, 1, 1]);
  }

  lemma RowLengths()
    ensures |RowText(8, 9)| == 14 && |RowText(2, 1)| == 14 && |SetAddress(9)| == 11
  {
  }

  lemma WholeHeld(s: seq<Byte>)
    ensures Holds(s, 0, s)
  {
  }

  lemma DescentTrace()
    ensures TraceAt(PLAIN, DESCENT, 0, START)
         == Trace([Event(false, 8, 1, 10), Event(false, 2, 1, 11), Event(true, 9, 1, 11)], false)
  {
    hide StepAt, RowAt, TraceAt, Holds, RowText, SetAddress, DESCENT;
    DescentParts();
    var r1, r2, r3 := Regs(8, 1, 10), Regs(2, 1, 11), Regs(9, 1, 11);
    WrittenRow(DESCENT, 0, 8, 9, START);
    WrittenRow(DESCENT, 14, 2, 1, r1);
    SetAddressStep(PLAIN, DESCENT, 28, 9, r2);
    EndStep(PLAIN, DESCENT, 39, r3);
    RowStep(PLAIN, DESCENT, 28, r2);
    RowStep(PLAIN, DESCENT, 39, r3);
    TraceStep(PLAIN, DESCENT, 0, START);
    TraceStep(PLAIN, DESCENT, 14, r1);
    TraceStep(PLAIN, DESCENT, 28, r2);
    TraceStep(PLAIN, DESCENT, 42, START);
  }

  /** The row at 2 covers the target 4, and the search does not find it: the sequence starts above. */
  method SearchMissesDescent() returns (a: Answer)
    ensures Covers(TraceAt(PLAIN, DESCENT, 0, START).events, 1, 4)
    ensures a == NotFound
  {
    hide TraceAt;
    DescentTrace();
    var vm := new LineNumberVM(PLAIN, DESCENT);
    a := vm.FindAddress(4);
    NoCandidate();
  }

  lemma NoCandidate()
    ensures var es := [Event(false, 8, 1, 10), Event(false, 2, 1, 11), Event(true, 9, 1, 11)];
      forall i: nat :: !Candidate(es, i, 4)
  {
    var es := [Event(false, 8, 1, 10), Event(false, 2, 1, 11), Event(true, 9, 1, 11)];
    assert SeqStart(es, 0) == 0 && SeqStart(es, 1) == SeqStart(es, 0);
  }
}
