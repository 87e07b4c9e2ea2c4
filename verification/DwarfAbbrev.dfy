/** Abbreviation tables (src/Common/Dwarf.cpp; section 7.5.3 of the DWARF 4 standard): reading an
    entry, the linear search, and the 1000-entry cache. */
module DwarfAbbrev {
  import opened DwarfRead
  import opened DwarfForms

  const IMPLICIT_CONST: nat := 0x21
  const MAX_CACHED: nat := 1000

  datatype Abbrev = Abbrev(code: nat, tag: nat, hasChildren: bool, attributes: seq<Byte>)

  /** An attribute specification at p: its name, its form, the constant that one form carries (else
      zero), and where it ends. */
  datatype Spec = NoSpec | Spec(name: nat, form: nat, implicitConst: int, next: nat)

  function SpecAt(s: seq<Byte>, p: nat): (r: Spec)
    ensures r.Spec? ==> p < r.next <= |s|
  {
    var e1 := LebEnd(s, p);
    if e1.Bad? then NoSpec else
    var e2 := LebEnd(s, e1.p);
    if e2.Bad? then NoSpec else
    var name, form := Uleb(s, p), Uleb(s, e1.p);
    if form != IMPLICIT_CONST then Spec(name, form, 0, e2.p)
    else if LebEnd(s, e2.p).Bad? then NoSpec
    else Spec(name, form, Sleb(s, e2.p), LebEnd(s, e2.p).p)
  }

  /** The end of a specification list, after its (0, 0) entry. */
  function SpecsEnd(s: seq<Byte>, p: nat): (r: Pos)
    ensures r.At? ==> p < r.p <= |s|
    decreases |s| - p
  {
    match SpecAt(s, p)
    case NoSpec => Bad
    case Spec(name, form, _, next) => if name == 0 && form == 0 then At(next) else SpecsEnd(s, next)
  }

  datatype Entry = Malformed | TableEnd | Entry(abbr: Abbrev, next: nat)

  function EntryAt(s: seq<Byte>, p: nat): (r: Entry)
    ensures r.Entry? ==> p < r.next <= |s| && r.abbr.code != 0
  {
    var e1 := LebEnd(s, p);
    if e1.Bad? then Malformed
    else if Uleb(s, p) == 0 then TableEnd
    else
      var e2 := LebEnd(s, e1.p);
      if e2.Bad? || e2.p >= |s| then Malformed
      else
        var e3 := SpecsEnd(s, e2.p + 1);
        if e3.Bad? then Malformed
        else Entry(Abbrev(Uleb(s, p), Uleb(s, e1.p), s[e2.p] != 0, s[e2.p + 1..e3.p]), e3.p)
  }

  /** `readAttributeSpec`. */
  method ReadAttributeSpec(s: seq<Byte>, p: nat) returns (r: Spec)
    requires p <= |s|
    ensures r == SpecAt(s, p)
  {
    var e1, name := ReadUleb(s, p);
    if e1.Bad? { return NoSpec; }
    var e2, form := ReadUleb(s, e1.p);
    if e2.Bad? { return NoSpec; }
    if form == IMPLICIT_CONST {
      var e3, c := ReadSleb(s, e2.p);
      if e3.Bad? { return NoSpec; }
      return Spec(name, form, Signed64(c), e3.p);
    }
    return Spec(name, form, 0, e2.p);
  }

  /** `readAbbreviation`. */
  method ReadAbbreviation(s: seq<Byte>, p: nat) returns (r: Entry)
    requires p <= |s|
    ensures r == EntryAt(s, p)
  {
    hide LebEnd, Uleb, SpecAt;
    var e1, code := ReadCode(s, p);
    if e1.Bad? { return Malformed; }
    if code == 0 { return TableEnd; }
    var e2, tag := ReadCode(s, e1.p);
    if e2.Bad? { return Malformed; }
    if e2.p >= |s| { return Malformed; }
    var hasChildren := s[e2.p] != 0;
    var begin := e2.p + 1;
    var q := begin;
    while true
      invariant begin <= q <= |s| && SpecsEnd(s, q) == SpecsEnd(s, begin)
      decreases |s| - q
    {
      if q == |s| {
        NoSpecAtEnd(s);
        return Malformed;
      }
      var spec := ReadAttributeSpec(s, q);
      if spec.NoSpec? { return Malformed; }
      q := spec.next;
      if spec.name == 0 && spec.form == 0 { break; }
    }
    return Entry(Abbrev(code, tag, hasChildren, s[begin..q]), q);
  }

  method ReadCode(s: seq<Byte>, p: nat) returns (next: Pos, v: nat)
    requires p <= |s|
    ensures next == LebEnd(s, p) && (next.At? ==> v == Uleb(s, p) && p < next.p <= |s|)
  {
    next, v := ReadUleb(s, p);
  }

  lemma NoSpecAtEnd(s: seq<Byte>)
    ensures SpecAt(s, |s|) == NoSpec
  {
  }

  // ----- Tables

  /** The entries from p on, up to the end marker; whole says that it was reached. */
  datatype Table = Table(entries: seq<Abbrev>, whole: bool)

  function TableAt(s: seq<Byte>, p: nat): Table
    decreases |s| - p
  {
    match EntryAt(s, p)
    case Malformed => Table([], false)
    case TableEnd => Table([], true)
    case Entry(abbr, next) => var t := TableAt(s, next); Table([abbr] + t.entries, t.whole)
  }

  /** The first and the last entry with a code. */
  function First(t: seq<Abbrev>, code: nat): (r: seq<Abbrev>)
    ensures |r| <= 1
  {
    if |t| == 0 then [] else if t[0].code == code then [t[0]] else First(t[1..], code)
  }

  function Last(t: seq<Abbrev>, code: nat): seq<Abbrev> {
    if |t| == 0 then []
    else if t[|t| - 1].code == code then [t[|t| - 1]] else Last(t[..|t| - 1], code)
  }

  /** `getAbbreviation`: the linear search; an empty answer is the exception. */
  method GetAbbreviation(s: seq<Byte>, offset: nat, code: nat) returns (r: seq<Abbrev>)
    requires offset <= |s|
    ensures r == First(TableAt(s, offset).entries, code)
  {
    hide EntryAt;
    var p := offset;
    while true
      invariant p <= |s|
      invariant First(TableAt(s, p).entries, code) == First(TableAt(s, offset).entries, code)
      decreases |s| - p
    {
      EntryBounds(s, p);
      var e := ReadAbbreviation(s, p);
      if !e.Entry? { return []; }
      if e.abbr.code == code { return [e.abbr]; }
      FirstSkips(e.abbr, TableAt(s, e.next).entries, code);
      p := e.next;
    }
  }

  lemma EntryBounds(s: seq<Byte>, p: nat)
    ensures EntryAt(s, p).Entry? ==> p < EntryAt(s, p).next <= |s| && EntryAt(s, p).abbr.code != 0
  {
  }

  lemma FirstSkips(a: Abbrev, t: seq<Abbrev>, code: nat)
    requires a.code != code
    ensures First([a] + t, code) == First(t, code)
  {
    assert ([a] + t)[1..] == t;
  }

  const EMPTY: Abbrev := Abbrev(0, 0, false, [])

  /** What a cache slot holds after reading a table. */
  function Slot(t: seq<Abbrev>, i: nat): Abbrev {
    var l := Last(t, i + 1);
    if |l| == 0 then EMPTY else l[0]
  }

  /** `readCompilationUnitAbbrs`: fills the cache; false is the exception. */
  method FillCache(s: seq<Byte>, offset: nat, cache: array<Abbrev>) returns (ok: bool)
    requires offset <= |s| && cache.Length == MAX_CACHED
    requires forall i :: 0 <= i < MAX_CACHED ==> cache[i] == EMPTY
    modifies cache
    ensures ok == TableAt(s, offset).whole
    ensures CacheOf(cache, s, offset)
  {
    hide EntryAt, Last;
    var p := offset;
    ghost var done: seq<Abbrev> := [];
    ghost var all := TableAt(s, offset);
    forall i: nat ensures Slot([], i) == EMPTY { LastOfNone(i + 1); }
    assert done + all.entries == all.entries;
    while true
      invariant p <= |s| && done + TableAt(s, p).entries == all.entries && TableAt(s, p).whole == all.whole
      invariant forall i :: 0 <= i < MAX_CACHED ==> cache[i] == Slot(done, i)
      decreases |s| - p
    {
      EntryBounds(s, p);
      var e := ReadAbbreviation(s, p);
      if !e.Entry? {
        assert done == all.entries;
        return e.TableEnd?;
      }
      forall i: nat ensures Slot(done + [e.abbr], i) == if e.abbr.code == i + 1 then e.abbr else Slot(done, i) {
        LastSnoc(done, e.abbr, i + 1);
      }
      if e.abbr.code != 0 && e.abbr.code <= MAX_CACHED {
        cache[e.abbr.code - 1] := e.abbr;
      }
      assert done + ([e.abbr] + TableAt(s, e.next).entries) == (done + [e.abbr]) + TableAt(s, e.next).entries;
      done := done + [e.abbr];
      p := e.next;
    }
  }

  lemma LastOfNone(code: nat)
    ensures Last([], code) == []
  {
  }

  lemma LastSnoc(t: seq<Abbrev>, a: Abbrev, code: nat)
    ensures Last(t + [a], code) == if a.code == code then [a] else Last(t, code)
  {
    assert (t + [a])[..|t|] == t;
  }

  /** A unit's cache: absent, or filled from its table. */
  ghost predicate CacheOf(cache: array<Abbrev>, s: seq<Byte>, offset: nat)
    reads cache
  {
    cache.Length == 0 || (cache.Length == MAX_CACHED &&
      forall i :: 0 <= i < MAX_CACHED ==> cache[i] == Slot(TableAt(s, offset).entries, i))
  }

  /** What a code stands for: from the cache below 1000, if there is one, else from the search. */
  function Resolved(t: seq<Abbrev>, cached: bool, code: nat): (r: seq<Abbrev>)
    requires code > 0
    ensures |r| <= 1
  {
    if cached && code < MAX_CACHED then [Slot(t, code - 1)] else First(t, code)
  }

  ghost predicate IsFirst(t: seq<Abbrev>, code: nat, a: Abbrev) {
    exists i :: 0 <= i < |t| && t[i] == a && a.code == code && forall j :: 0 <= j < i ==> t[j].code != code
  }

  ghost predicate IsLast(t: seq<Abbrev>, code: nat, a: Abbrev) {
    exists i :: 0 <= i < |t| && t[i] == a && a.code == code && forall j :: i < j < |t| ==> t[j].code != code
  }

  ghost predicate Lacks(t: seq<Abbrev>, code: nat) {
    forall i :: 0 <= i < |t| ==> t[i].code != code
  }

  lemma {:induction false} FirstExact(t: seq<Abbrev>, code: nat)
    ensures var r := First(t, code); if r == [] then Lacks(t, code) else IsFirst(t, code, r[0])
    decreases |t|
  {
    if |t| > 0 && t[0].code != code {
      FirstExact(t[1..], code);
      var r := First(t[1..], code);
      if r != [] {
        var i :| 0 <= i < |t[1..]| && t[1..][i] == r[0] && forall j :: 0 <= j < i ==> t[1..][j].code != code;
        assert t[i + 1] == r[0];
        forall j | 0 <= j < i + 1 ensures t[j].code != code {
          assert j > 0 ==> t[1..][j - 1] == t[j];
        }
      } else {
        forall i | 0 <= i < |t| ensures t[i].code != code {
          assert i > 0 ==> t[1..][i - 1] == t[i];
        }
      }
    }
  }

  lemma {:induction false} LastExact(t: seq<Abbrev>, code: nat)
    ensures var r := Last(t, code); if r == [] then Lacks(t, code) else |r| == 1 && IsLast(t, code, r[0])
    decreases |t|
  {
    if |t| > 0 && t[|t| - 1].code != code {
      var front := t[..|t| - 1];
      LastExact(front, code);
      var r := Last(front, code);
      if r != [] {
        var i :| 0 <= i < |front| && front[i] == r[0] && forall j :: i < j < |front| ==> front[j].code != code;
        assert t[i] == r[0];
        forall j | i < j < |t| ensures t[j].code != code {
          assert j < |front| ==> front[j] == t[j];
        }
      } else {
        forall i | 0 <= i < |t| ensures t[i].code != code {
          assert i < |front| ==> front[i] == t[i];
        }
      }
    }
  }

  /** With a cache, codes up to 999 get the last entry that carries them, or the empty one; all
      others get the first entry, or none. */
  lemma ResolvedExact(t: seq<Abbrev>, cached: bool, code: nat)
    requires code > 0
    ensures var r := Resolved(t, cached, code);
      if cached && code <= 999 then |r| == 1 && (if Lacks(t, code) then r[0] == EMPTY else IsLast(t, code, r[0]))
      else if Lacks(t, code) then r == [] else |r| == 1 && IsFirst(t, code, r[0])
  {
    hide First, Last;
    FirstExact(t, code);
    LastExact(t, code);
  }

  /** The choice in `getDieAtOffset`. */
  method Lookup(s: seq<Byte>, offset: nat, cache: array<Abbrev>, code: nat) returns (r: seq<Abbrev>)
    requires offset <= |s| && CacheOf(cache, s, offset) && code > 0
    ensures r == Resolved(TableAt(s, offset).entries, cache.Length != 0, code)
  {
    if cache.Length != 0 && code < MAX_CACHED {
      r := [cache[code - 1]];
    } else {
      r := GetAbbreviation(s, offset, code);
    }
  }

  ghost predicate Distinct(t: seq<Abbrev>) {
    forall i, j :: 0 <= i < j < |t| ==> t[i].code != t[j].code
  }

  /** For a code that is in the table, cache and search agree exactly when its first and its
      last entry are the same; with distinct codes that is always so. */
  lemma CacheAgrees(t: seq<Abbrev>, code: nat)
    requires code > 0 && exists i :: 0 <= i < |t| && t[i].code == code
    ensures [Slot(t, code - 1)] == First(t, code) <==> First(t, code) == Last(t, code)
    ensures Distinct(t) ==> [Slot(t, code - 1)] == First(t, code)
  {
    hide First, Last;
    var i :| 0 <= i < |t| && t[i].code == code;
    LastFound(t, code, i);
    if Distinct(t) {
      FirstIs(t, code, i);
      LastIs(t, code, i);
    }
  }

  lemma {:induction false} LastFound(t: seq<Abbrev>, code: nat, i: nat)
    requires i < |t| && t[i].code == code
    ensures |Last(t, code)| == 1
    decreases |t|
  {
    if t[|t| - 1].code != code {
      LastFound(t[..|t| - 1], code, i);
    }
  }

  lemma {:induction false} FirstIs(t: seq<Abbrev>, code: nat, i: nat)
    requires i < |t| && t[i].code == code && forall j :: 0 <= j < i ==> t[j].code != code
    ensures First(t, code) == [t[i]]
    decreases |t|
  {
    if i > 0 {
      FirstIs(t[1..], code, i - 1);
    }
  }

  lemma {:induction false} LastIs(t: seq<Abbrev>, code: nat, i: nat)
    requires i < |t| && t[i].code == code && forall j :: i < j < |t| ==> t[j].code != code
    ensures Last(t, code) == [t[i]]
    decreases |t|
  {
    if i < |t| - 1 {
      LastIs(t[..|t| - 1], code, i);
    }
  }

  /** With distinct codes the lookup is the search, cached or not. */
  lemma ResolvedDistinct(t: seq<Abbrev>, cached: bool, code: nat)
    requires code > 0 && |First(t, code)| == 1 && (cached ==> Distinct(t))
    ensures Resolved(t, cached, code) == First(t, code)
  {
    hide First, Last, Slot;
    if cached {
      var i := FirstPlace(t, code);
      CacheAgrees(t, code);
    }
  }

  lemma {:induction false} FirstPlace(t: seq<Abbrev>, code: nat) returns (i: nat)
    requires |First(t, code)| == 1
    ensures i < |t| && t[i].code == code
    decreases |t|
  {
    if t[0].code == code {
      i := 0;
    } else {
      i := FirstPlace(t[1..], code);
      i := i + 1;
    }
  }

  // ----- What a producer writes

  datatype SpecText = SpecText(name: nat, form: nat, implicitConst: int)
  {
    predicate Fine() {
      && name < WORD && form < WORD && (name != 0 || form != 0)
      && (if form == DW_FORM_IMPLICIT_CONST then FitsSigned64(implicitConst) else implicitConst == 0)
    }
  }

  datatype EntryText = EntryText(code: nat, tag: nat, hasChildren: bool, specs: seq<SpecText>)
  {
    predicate Fine() {
      0 < code < WORD && tag < WORD && forall i :: 0 <= i < |specs| ==> specs[i].Fine()
    }

    /** The entry a reader should find. */
    function Meant(): Abbrev {
      Abbrev(code, tag, hasChildren, EncodeSpecs(specs))
    }
  }

  function EncodeSpec(t: SpecText): seq<Byte> {
    EncodeUleb(t.name) + (EncodeUleb(t.form) + (if t.form == DW_FORM_IMPLICIT_CONST then EncodeSleb(t.implicitConst) else []))
  }

  function EncodeSpecs(ts: seq<SpecText>): seq<Byte> {
    if |ts| == 0 then [0, 0] else EncodeSpec(ts[0]) + EncodeSpecs(ts[1..])
  }

  function EncodeEntry(e: EntryText): seq<Byte> {
    EncodeUleb(e.code) + (EncodeUleb(e.tag) + ([if e.hasChildren then 1 else 0] + EncodeSpecs(e.specs)))
  }

  function EncodeTable(t: seq<EntryText>): seq<Byte> {
    if |t| == 0 then [0] else EncodeEntry(t[0]) + EncodeTable(t[1..])
  }

  function Meant(t: seq<EntryText>): seq<Abbrev> {
    if |t| == 0 then [] else [t[0].Meant()] + Meant(t[1..])
  }

  lemma SpecWritten(s: seq<Byte>, p: nat, t: SpecText)
    requires t.Fine() && Holds(s, p, EncodeSpec(t))
    ensures SpecAt(s, p) == Spec(t.name, t.form, t.implicitConst, p + |EncodeSpec(t)|)
  {
    hide LebEnd, Uleb, Sleb, EncodeUleb, EncodeSleb, Holds, SpecAt, FitsSigned64;
    var a, b := EncodeUleb(t.name), EncodeUleb(t.form);
    var c := if t.form == DW_FORM_IMPLICIT_CONST then EncodeSleb(t.implicitConst) else [];
    var p1 := p + |a|;
    var p2 := p1 + |b|;
    HoldsParts(s, p, a, b + c);
    HoldsParts(s, p1, b, c);
    WrittenUleb(s, p, t.name);
    WrittenUleb(s, p1, t.form);
    if t.form == DW_FORM_IMPLICIT_CONST {
      WrittenSleb(s, p2, t.implicitConst);
    }
    SpecParts(s, p, p1, p2);
  }

  lemma SpecParts(s: seq<Byte>, p: nat, p1: nat, p2: nat)
    requires LebEnd(s, p) == At(p1) && LebEnd(s, p1) == At(p2)
    requires Uleb(s, p1) == DW_FORM_IMPLICIT_CONST ==> LebEnd(s, p2).At?
    ensures SpecAt(s, p) ==
      if Uleb(s, p1) == DW_FORM_IMPLICIT_CONST then Spec(Uleb(s, p), Uleb(s, p1), Sleb(s, p2), LebEnd(s, p2).p)
      else Spec(Uleb(s, p), Uleb(s, p1), 0, p2)
  {
    hide LebEnd, Uleb, Sleb;
  }

  /** The (0, 0) that closes a list of specifications. */
  lemma ClosingWritten(s: seq<Byte>, p: nat)
    requires Holds(s, p, [0, 0])
    ensures SpecAt(s, p) == Spec(0, 0, 0, p + 2)
  {
    hide Holds;
    HoldsByte(s, p, [0, 0], 0);
    HoldsByte(s, p, [0, 0], 1);
    HoldsFits(s, p, [0, 0]);
    ZeroByte(s, p);
    ZeroByte(s, p + 1);
  }

  lemma ZeroByte(s: seq<Byte>, p: nat)
    requires p < |s| && s[p] == 0
    ensures LebEnd(s, p) == At(p + 1) && Uleb(s, p) == 0
  {
    assert s[p..p + 1] == [0];
    assert [0][1..] == [];
  }

  lemma {:induction false} SpecsWritten(s: seq<Byte>, p: nat, ts: seq<SpecText>)
    requires Holds(s, p, EncodeSpecs(ts)) && forall i :: 0 <= i < |ts| ==> ts[i].Fine()
    ensures SpecsEnd(s, p) == At(p + |EncodeSpecs(ts)|)
    decreases |ts|
  {
    hide SpecAt, Holds, EncodeSpec;
    if |ts| == 0 {
      ClosingWritten(s, p);
    } else {
      HoldsParts(s, p, EncodeSpec(ts[0]), EncodeSpecs(ts[1..]));
      SpecWritten(s, p, ts[0]);
      SpecsWritten(s, p + |EncodeSpec(ts[0])|, ts[1..]);
    }
  }

  /** The specifications from p on, as `forEachAttribute` reads them. */
  function SpecsAt(s: seq<Byte>, p: nat): seq<SpecText>
    decreases |s| - p
  {
    match SpecAt(s, p)
    case NoSpec => []
    case Spec(name, form, c, next) =>
      if name == 0 && form == 0 then [] else [SpecText(name, form, c)] + SpecsAt(s, next)
  }

  /** A written list of specifications reads back. */
  lemma {:induction false} SpecsReadBack(s: seq<Byte>, p: nat, ts: seq<SpecText>)
    requires Holds(s, p, EncodeSpecs(ts)) && forall i :: 0 <= i < |ts| ==> ts[i].Fine()
    ensures SpecsAt(s, p) == ts
    decreases |ts|
  {
    hide SpecAt, Holds, EncodeSpec;
    if |ts| == 0 {
      ClosingWritten(s, p);
    } else {
      HoldsParts(s, p, EncodeSpec(ts[0]), EncodeSpecs(ts[1..]));
      SpecWritten(s, p, ts[0]);
      SpecsReadBack(s, p + |EncodeSpec(ts[0])|, ts[1..]);
      assert ts == [ts[0]] + ts[1..];
    }
  }

  lemma EntryWritten(s: seq<Byte>, p: nat, e: EntryText)
    requires e.Fine() && Holds(s, p, EncodeEntry(e))
    ensures EntryAt(s, p) == Entry(e.Meant(), p + |EncodeEntry(e)|)
  {
    hide LebEnd, Uleb, EncodeUleb, Holds, SpecsEnd, EncodeSpecs, EntryAt;
    var a, b, c := EncodeUleb(e.code), EncodeUleb(e.tag), EncodeSpecs(e.specs);
    var flag: seq<Byte> := [if e.hasChildren then 1 else 0];
    var p1 := p + |a|;
    var p2 := p1 + |b|;
    HoldsParts(s, p, a, b + (flag + c));
    HoldsParts(s, p1, b, flag + c);
    HoldsParts(s, p2, flag, c);
    WrittenUleb(s, p, e.code);
    WrittenUleb(s, p1, e.tag);
    HoldsFits(s, p2, flag);
    HoldsByte(s, p2, flag, 0);
    SpecsWritten(s, p2 + 1, e.specs);
    HeldSlice(s, p2 + 1, c);
    EntryParts(s, p, p1, p2, p2 + 1 + |c|);
  }

  lemma EntryParts(s: seq<Byte>, p: nat, p1: nat, p2: nat, p3: nat)
    requires LebEnd(s, p) == At(p1) && LebEnd(s, p1) == At(p2) && Uleb(s, p) != 0
    requires p2 < |s| && SpecsEnd(s, p2 + 1) == At(p3)
    ensures p2 + 1 < p3 <= |s|
    ensures EntryAt(s, p) == Entry(Abbrev(Uleb(s, p), Uleb(s, p1), s[p2] != 0, s[p2 + 1..p3]), p3)
  {
    hide LebEnd, Uleb, SpecsEnd;
  }

  /** A written table reads back to its entries, in order, up to its end. */
  lemma {:induction false} TableWritten(s: seq<Byte>, p: nat, t: seq<EntryText>)
    requires Holds(s, p, EncodeTable(t)) && forall i :: 0 <= i < |t| ==> t[i].Fine()
    ensures TableAt(s, p) == Table(Meant(t), true)
    decreases |t|
  {
    hide EntryAt, Holds, EncodeEntry;
    if |t| == 0 {
      EndWritten(s, p);
    } else {
      HoldsParts(s, p, EncodeEntry(t[0]), EncodeTable(t[1..]));
      EntryWritten(s, p, t[0]);
      TableWritten(s, p + |EncodeEntry(t[0])|, t[1..]);
    }
  }

  lemma EndWritten(s: seq<Byte>, p: nat)
    requires Holds(s, p, [0])
    ensures EntryAt(s, p) == TableEnd
  {
    hide Holds, LebEnd, Uleb;
    HoldsByte(s, p, [0], 0);
    HoldsFits(s, p, [0]);
    ZeroByte(s, p);
  }

  // ----- A repeated code

  const REPEATED: seq<Byte> := [1, 17, 1, 0, 0, 1, 46, 0, 0, 0, 0]

  const FIRST_ONE: EntryText := EntryText(1, 17, true, [])
  const SECOND_ONE: EntryText := EntryText(1, 46, false, [])

  lemma RepeatedEntries()
    ensures EncodeEntry(FIRST_ONE) == [1, 17, 1, 0, 0] && EncodeEntry(SECOND_ONE) == [1, 46, 0, 0, 0]
  {
    assert EncodeSpecs([]) == [0, 0];
    assert EncodeUleb(1) == [1] && EncodeUleb(17) == [17] && EncodeUleb(46) == [46];
  }

  lemma RepeatedText()
    ensures EncodeTable([FIRST_ONE, SECOND_ONE]) == REPEATED
    ensures Meant([FIRST_ONE, SECOND_ONE]) == [Abbrev(1, 17, true, [0, 0]), Abbrev(1, 46, false, [0, 0])]
  {
    hide EncodeEntry, EncodeSpecs;
    var t := [FIRST_ONE, SECOND_ONE];
    RepeatedEntries();
    NoSpecs();
    assert t[1..] == [SECOND_ONE] && [SECOND_ONE][1..] == [];
    assert EncodeTable([SECOND_ONE]) == [1, 46, 0, 0, 0] + [0];
    assert Meant([SECOND_ONE]) == [SECOND_ONE.Meant()];
  }

  lemma NoSpecs()
    ensures EncodeSpecs([]) == [0, 0]
  {
  }

  lemma RepeatedTable()
    ensures TableAt(REPEATED, 0).entries == [Abbrev(1, 17, true, [0, 0]), Abbrev(1, 46, false, [0, 0])]
  {
    hide TableAt, EncodeTable, Meant;
    RepeatedText();
    TableWritten(REPEATED, 0, [FIRST_ONE, SECOND_ONE]);
  }

  /** A table with a repeated code for which cache and search differ. */
  method CacheDisagrees() returns (cached: seq<Abbrev>, searched: seq<Abbrev>)
    ensures cached == [Abbrev(1, 46, false, [0, 0])]
    ensures searched == [Abbrev(1, 17, true, [0, 0])]
  {
    hide EntryAt, TableAt;
    var cache := new Abbrev[MAX_CACHED](_ => EMPTY);
    var ok := FillCache(REPEATED, 0, cache);
    cached := Lookup(REPEATED, 0, cache, 1);
    searched := GetAbbreviation(REPEATED, 0, 1);
    RepeatedTable();
    var t := [Abbrev(1, 17, true, [0, 0]), Abbrev(1, 46, false, [0, 0])];
    LastIs(t, 1, 1);
    FirstIs(t, 1, 0);
  }
}
