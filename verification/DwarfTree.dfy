/** Walking debugging information entries (src/Common/Dwarf.cpp; sections 2.3 and 7.5 of the
    DWARF 4 standard): a tree written in preorder, each list of children closed by a null entry. */
module DwarfTree {
  import opened DwarfRead
  import opened DwarfForms
  import opened DwarfAbbrev
  import opened DwarfAttrs

  // ----- Entries

  datatype Die = NoDie | NullDie | Die(offset: nat, attrOffset: nat, abbr: Abbrev)

  /** What a unit provides: its bytes up to its end, its offset size, its table in the section of
      abbreviations, and whether that has been read into the cache. */
  datatype Unit = Unit(info: seq<Byte>, is64: bool, abbrev: seq<Byte>, abbrevOffset: nat, cached: bool)
  {
    function Table(): seq<Abbrev> {
      TableAt(abbrev, abbrevOffset).entries
    }

    /** What the lookup relies on. */
    ghost predicate Sound() {
      abbrevOffset <= |abbrev| && (cached ==> Distinct(Table()))
    }

    ghost predicate HasCache(cache: array<Abbrev>)
      reads cache
    {
      abbrevOffset <= |abbrev| && CacheOf(cache, abbrev, abbrevOffset) && cached == (cache.Length != 0)
    }
  }

  /** An entry, the null entry, or an exception. A code of more than ten bytes does not fit 64 bits. */
  function DieAt(u: Unit, offset: nat): (d: Die)
    ensures d.NullDie? ==> offset < |u.info|
    ensures d.Die? ==> d.offset == offset && 0 < d.attrOffset && offset + d.attrOffset <= |u.info|
  {
    var e := LebEnd(u.info, offset);
    if e.Bad? || e.p - offset > 10 then NoDie
    else
      var code := Uleb(u.info, offset);
      if code == 0 then NullDie
      else
        var abbr := Resolved(u.Table(), u.cached, code);
        if |abbr| == 0 then NoDie else Die(offset, e.p - offset, abbr[0])
  }

  /** `getDieAtOffset`: the code, then its abbreviation from the cache or by search. */
  method GetDieAtOffset(u: Unit, cache: array<Abbrev>, offset: nat) returns (d: Die)
    requires u.HasCache(cache)
    ensures d == DieAt(u, offset)
  {
    hide TableAt, LebEnd, Resolved, CacheOf;
    if offset >= |u.info| {
      NothingPast(u.info, offset);
      return NoDie;
    }
    var e, code := ReadCode(u.info, offset);
    if e.Bad? || e.p - offset > 10 { return NoDie; }
    if code == 0 { return NullDie; }
    var abbr := Lookup(u.abbrev, u.abbrevOffset, cache, code);
    if |abbr| == 0 { return NoDie; }
    return Die(offset, e.p - offset, abbr[0]);
  }

  lemma NothingPast(s: seq<Byte>, p: nat)
    requires p >= |s|
    ensures LebEnd(s, p) == Bad
  {
  }

  /** Past an entry and everything below it. */
  function SubtreeEnd(u: Unit, d: Die): (r: Pos)
    requires d.Die? && 0 < d.attrOffset && d.offset + d.attrOffset <= |u.info|
    ensures r.At? ==> d.offset < r.p <= |u.info|
    decreases |u.info| - d.offset, 1
  {
    var next := AttrsEnd(d.abbr.attributes, 0, u.info, d.offset + d.attrOffset, u.is64);
    if next.Bad? || !d.abbr.hasChildren then next else SiblingsEnd(u, next.p)
  }

  /** Past a list of siblings and the null entry that closes it. */
  function SiblingsEnd(u: Unit, offset: nat): (r: Pos)
    ensures r.At? ==> offset < r.p <= |u.info|
    decreases |u.info| - offset, 2
  {
    match DieAt(u, offset)
    case NoDie => Bad
    case NullDie => At(NullEnd(u, offset))
    case Die(_, _, _) =>
      var e := SubtreeEnd(u, DieAt(u, offset));
      if e.Bad? then Bad else SiblingsEnd(u, e.p)
  }

  function NullEnd(u: Unit, offset: nat): (r: nat)
    requires DieAt(u, offset).NullDie?
    ensures r == offset + 1 <= |u.info|
  {
    offset + 1
  }

  datatype Walk = Walk(pos: Pos, visited: seq<nat>)

  /** The siblings from an offset on, handed to f until it says stop. */
  function WalkSiblings(u: Unit, offset: nat, f: nat -> bool): Walk
    decreases |u.info| - offset
  {
    match DieAt(u, offset)
    case NoDie => Walk(Bad, [])
    case NullDie => Walk(At(offset + 1), [])
    case Die(_, _, _) =>
      if !f(offset) then Walk(At(offset), [offset])
      else
        var e := SubtreeEnd(u, DieAt(u, offset));
        if e.Bad? then Walk(Bad, [offset])
        else var w := WalkSiblings(u, e.p, f); Walk(w.pos, [offset] + w.visited)
  }

  /** The children of an entry, handed to f until it says stop. */
  function WalkChildren(u: Unit, d: Die, f: nat -> bool): Walk
    requires d.Die? && 0 < d.attrOffset && d.offset + d.attrOffset <= |u.info|
  {
    var next := AttrsEnd(d.abbr.attributes, 0, u.info, d.offset + d.attrOffset, u.is64);
    if next.Bad? || !d.abbr.hasChildren then Walk(next, []) else WalkSiblings(u, next.p, f)
  }

  /** `forEachChild`: f gets the offset of each direct child; grandchildren are skipped over. */
  method ForEachChild(u: Unit, cache: array<Abbrev>, d: Die, f: nat -> bool) returns (r: Pos, visited: seq<nat>)
    requires u.HasCache(cache) && d.Die? && 0 < d.attrOffset && d.offset + d.attrOffset <= |u.info|
    ensures Walk(r, visited) == WalkChildren(u, d, f)
    decreases |u.info| - d.offset
  {
    hide AttrsEnd, AttrsOf, SubtreeEnd, DieAt, WalkSiblings, Stops, Taken, Unit.HasCache;
    visited := [];
    AttrsBounds(u, d);
    var end, attrs := ForEachAttribute(d.abbr.attributes, u.info, d.offset + d.attrOffset, u.is64, _ => true);
    NeverStops(AttrsOf(d.abbr.attributes, 0, u.info, d.offset + d.attrOffset, u.is64));
    var next := end.pos;
    if next.Bad? || !d.abbr.hasChildren {
      return next, [];
    }
    var offset := next.p;
    ghost var goal := WalkSiblings(u, offset, f);
    var child := GetDieAtOffset(u, cache, offset);
    while !child.NullDie?
      invariant d.offset < offset && child == DieAt(u, offset)
      invariant goal == Prepend(visited, WalkSiblings(u, offset, f))
      decreases |u.info| - offset
    {
      DieBounds(u, offset);
      WalkStep(u, offset, f);
      if child.NoDie? {
        return Bad, visited;
      }
      if !f(child.offset) {
        return At(child.offset), visited + [offset];
      }
      var sibling, below := ForEachChild(u, cache, child, _ => true);
      WalkAll(u, child);
      visited := visited + [offset];
      if sibling.Bad? {
        return Bad, visited;
      }
      offset := sibling.p;
      child := GetDieAtOffset(u, cache, offset);
    }
    WalkStep(u, offset, f);
    return At(offset + 1), visited;
  }

  function Prepend(before: seq<nat>, w: Walk): Walk {
    Walk(w.pos, before + w.visited)
  }

  lemma WalkStep(u: Unit, offset: nat, f: nat -> bool)
    ensures var d, w := DieAt(u, offset), WalkSiblings(u, offset, f);
      match d
      case NoDie => w == Walk(Bad, [])
      case NullDie => w == Walk(At(offset + 1), [])
      case Die(o, a, _) =>
        o == offset && 0 < a && o + a <= |u.info| &&
        if !f(offset) then w == Walk(At(offset), [offset])
        else if SubtreeEnd(u, d).Bad? then w == Walk(Bad, [offset])
        else w == Prepend([offset], WalkSiblings(u, SubtreeEnd(u, d).p, f))
  {
    hide SubtreeEnd;
  }

  lemma DieBounds(u: Unit, offset: nat)
    ensures DieAt(u, offset).NullDie? ==> offset < |u.info|
    ensures var d := DieAt(u, offset);
      d.Die? ==> d.offset == offset && 0 < d.attrOffset && offset + d.attrOffset <= |u.info|
  {
  }

  lemma AttrsBounds(u: Unit, d: Die)
    requires d.Die? && 0 < d.attrOffset && d.offset + d.attrOffset <= |u.info|
    ensures var e := AttrsEnd(d.abbr.attributes, 0, u.info, d.offset + d.attrOffset, u.is64);
      e.At? ==> d.offset < e.p <= |u.info|
  {
  }

  /** Walking on without stopping ends past the subtree. */
  lemma WalkAll(u: Unit, d: Die)
    requires d.Die? && 0 < d.attrOffset && d.offset + d.attrOffset <= |u.info|
    ensures WalkChildren(u, d, _ => true).pos == SubtreeEnd(u, d)
    ensures SubtreeEnd(u, d).At? ==> d.offset < SubtreeEnd(u, d).p <= |u.info|
  {
    hide DieAt, AttrsEnd;
    var next := AttrsEnd(d.abbr.attributes, 0, u.info, d.offset + d.attrOffset, u.is64);
    if next.At? && d.abbr.hasChildren {
      WalkAllSiblings(u, next.p);
    }
  }

  lemma {:induction false} WalkAllSiblings(u: Unit, offset: nat)
    ensures WalkSiblings(u, offset, _ => true).pos == SiblingsEnd(u, offset)
    decreases |u.info| - offset
  {
    hide DieAt, AttrsEnd;
    DieBounds(u, offset);
    var d := DieAt(u, offset);
    if d.Die? && SubtreeEnd(u, d).At? {
      WalkAllSiblings(u, SubtreeEnd(u, d).p);
    }
  }

  // ----- Trees as they are written

  /** An entry: the bytes of its code, the bytes of its attribute values, its children. */
  datatype Tree = Tree(code: seq<Byte>, attrs: seq<Byte>, kids: seq<Tree>)

  function Bytes(t: Tree, table: seq<Abbrev>): seq<Byte>
    decreases t, 1
  {
    t.code + t.attrs + (if HasChildren(t, table) then BytesOf(t.kids, table) + [0] else [])
  }

  function BytesOf(ts: seq<Tree>, table: seq<Abbrev>): seq<Byte>
    decreases ts, 0
  {
    if |ts| == 0 then [] else Bytes(ts[0], table) + BytesOf(ts[1..], table)
  }

  predicate CodeFine(t: Tree, table: seq<Abbrev>) {
    LebEnd(t.code, 0) == At(|t.code|) && |t.code| <= 10 && Uleb(t.code, 0) != 0 && |First(table, Uleb(t.code, 0))| == 1
  }

  /** The abbreviation of an entry. */
  function AbbrOf(t: Tree, table: seq<Abbrev>): Abbrev
    requires CodeFine(t, table)
  {
    First(table, Uleb(t.code, 0))[0]
  }

  predicate HasChildren(t: Tree, table: seq<Abbrev>) {
    CodeFine(t, table) && AbbrOf(t, table).hasChildren
  }

  /** Codes name abbreviations, values fit their forms, and only entries that may have children
      have any. */
  predicate WellFormed(t: Tree, table: seq<Abbrev>, is64: bool)
    decreases t, 1
  {
    && CodeFine(t, table)
    && AttrsEnd(AbbrOf(t, table).attributes, 0, t.attrs, 0, is64) == At(|t.attrs|)
    && (!HasChildren(t, table) ==> t.kids == [])
    && AllWellFormed(t.kids, table, is64)
  }

  predicate AllWellFormed(ts: seq<Tree>, table: seq<Abbrev>, is64: bool)
    decreases ts, 0
  {
    |ts| == 0 || (WellFormed(ts[0], table, is64) && AllWellFormed(ts[1..], table, is64))
  }

  /** An entry of a written tree is found where it was written, with its attributes. */
  lemma EntryFound(u: Unit, p: nat, t: Tree)
    requires u.Sound() && WellFormed(t, u.Table(), u.is64) && Holds(u.info, p, t.code + t.attrs)
    ensures var abbr := AbbrOf(t, u.Table());
      && DieAt(u, p) == Die(p, |t.code|, abbr)
      && AttrsEnd(abbr.attributes, 0, u.info, p + |t.code|, u.is64) == At(p + |t.code| + |t.attrs|)
  {
    hide LebEnd, Uleb, AttrsEnd, Unit.Table, Resolved, First, Distinct, AllWellFormed;
    HoldsParts(u.info, p, t.code, t.attrs);
    LebInside(u.info, p, t.code, 0);
    ResolvedDistinct(u.Table(), u.cached, Uleb(t.code, 0));
    AttrsInside(AbbrOf(t, u.Table()).attributes, 0, u.info, p + |t.code|, t.attrs, 0, u.is64);
  }

  /** The subtree of a written entry ends where its bytes end. */
  lemma {:induction false} TreeEnd(u: Unit, p: nat, t: Tree)
    requires u.Sound() && WellFormed(t, u.Table(), u.is64) && Holds(u.info, p, Bytes(t, u.Table()))
    ensures DieAt(u, p).Die? && SubtreeEnd(u, DieAt(u, p)) == At(p + |Bytes(t, u.Table())|)
    decreases t, 1
  {
    hide DieAt, AttrsEnd, Uleb, LebEnd, BytesOf, Unit.Table, Unit.Sound, Holds, First, AllWellFormed, Offsets, Taken;
    var head := t.code + t.attrs;
    var rest := if HasChildren(t, u.Table()) then BytesOf(t.kids, u.Table()) + [0] else [];
    assert Bytes(t, u.Table()) == head + rest;
    HoldsParts(u.info, p, head, rest);
    EntryFound(u, p, t);
    if HasChildren(t, u.Table()) {
      KidsEnd(u, p + |head|, t.kids, _ => true);
      WalkAllSiblings(u, p + |head|);
      NeverStops(Offsets(p + |head|, t.kids, u.Table()));
    }
  }

  /** The offsets at which written siblings lie. */
  function Offsets(p: nat, ts: seq<Tree>, table: seq<Abbrev>): seq<nat>
    decreases ts
  {
    if |ts| == 0 then [] else [p] + Offsets(p + |Bytes(ts[0], table)|, ts[1..], table)
  }

  /** Written siblings are visited in order, none twice and none left out, up to the first that
      stops the walk; then its offset comes back, otherwise the offset past the closing null. */
  lemma {:induction false} KidsEnd(u: Unit, p: nat, ts: seq<Tree>, f: nat -> bool)
    requires u.Sound() && AllWellFormed(ts, u.Table(), u.is64) && Holds(u.info, p, BytesOf(ts, u.Table()) + [0])
    ensures WalkedTo(WalkSiblings(u, p, f), Offsets(p, ts, u.Table()), f, p + |BytesOf(ts, u.Table())| + 1)
    decreases ts, 0
  {
    hide DieAt, Uleb, LebEnd, SubtreeEnd, Bytes, WalkSiblings, WalkedTo, BytesOf, WellFormed, AllWellFormed, Holds;
    KidsParts(u, p, ts);
    if |ts| == 0 {
      NullFound(u, p);
      WalkStep(u, p, f);
      WalkedNone(WalkSiblings(u, p, f), f, p + 1);
    } else {
      var b, rest := Bytes(ts[0], u.Table()), BytesOf(ts[1..], u.Table());
      TreeEnd(u, p, ts[0]);
      KidsEnd(u, p + |b|, ts[1..], f);
      WalkStep(u, p, f);
      WalkedOne(WalkSiblings(u, p, f), p, WalkSiblings(u, p + |b|, f), Offsets(p + |b|, ts[1..], u.Table()), f,
                p + |BytesOf(ts, u.Table())| + 1);
    }
  }

  lemma KidsParts(u: Unit, p: nat, ts: seq<Tree>)
    requires AllWellFormed(ts, u.Table(), u.is64) && Holds(u.info, p, BytesOf(ts, u.Table()) + [0])
    ensures |ts| == 0 ==> Holds(u.info, p, [0]) && BytesOf(ts, u.Table()) == []
    ensures |ts| > 0 ==>
      var b, rest := Bytes(ts[0], u.Table()), BytesOf(ts[1..], u.Table());
      && WellFormed(ts[0], u.Table(), u.is64) && AllWellFormed(ts[1..], u.Table(), u.is64)
      && Holds(u.info, p, b) && Holds(u.info, p + |b|, rest + [0])
      && |BytesOf(ts, u.Table())| == |b| + |rest|
  {
    hide Bytes, WellFormed, Holds;
    if |ts| == 0 {
      assert BytesOf(ts, u.Table()) + [0] == [0];
    } else {
      var b, rest := Bytes(ts[0], u.Table()), BytesOf(ts[1..], u.Table());
      assert BytesOf(ts, u.Table()) + [0] == b + (rest + [0]);
      HoldsParts(u.info, p, b, rest + [0]);
    }
  }

  /** A walk over siblings at the given offsets, which end at `end`. */
  ghost predicate WalkedTo(w: Walk, offsets: seq<nat>, f: nat -> bool, end: nat) {
    && w.visited == Taken(offsets, f)
    && (Stops(offsets, f) ==> |w.visited| > 0 && w.pos == At(w.visited[|w.visited| - 1]))
    && (!Stops(offsets, f) ==> w.pos == At(end))
  }

  lemma WalkedNone(w: Walk, f: nat -> bool, end: nat)
    requires w == Walk(At(end), [])
    ensures WalkedTo(w, [], f, end)
  {
  }

  lemma WalkedOne(w: Walk, p: nat, w': Walk, rest: seq<nat>, f: nat -> bool, end: nat)
    requires WalkedTo(w', rest, f, end)
    requires w == if !f(p) then Walk(At(p), [p]) else Prepend([p], w')
    ensures WalkedTo(w, [p] + rest, f, end)
  {
    OneTaken(p, rest, f);
  }

  lemma NeverStops<T>(items: seq<T>)
    ensures !Stops(items, (_: T) => true)
  {
  }

  lemma NullFound(u: Unit, p: nat)
    requires Holds(u.info, p, [0])
    ensures DieAt(u, p).NullDie?
  {
    hide Bytes;
    HoldsByte(u.info, p, [0], 0);
    assert LebEnd(u.info, p) == At(p + 1);
    assert u.info[p..p + 1] == [0];
    assert [0][1..] == [];
    assert Groups([0]) == 0;
  }

  /** `forEachChild` on a written tree: the direct children, in order, and the offset past the
      whole subtree when nothing stops it. */
  method WalkWrittenTree(u: Unit, cache: array<Abbrev>, p: nat, t: Tree, f: nat -> bool)
    returns (r: Pos, visited: seq<nat>)
    requires u.HasCache(cache) && u.Sound()
    requires WellFormed(t, u.Table(), u.is64) && Holds(u.info, p, Bytes(t, u.Table()))
    ensures var offsets := Offsets(p + |t.code| + |t.attrs|, t.kids, u.Table());
      WalkedTo(Walk(r, visited), offsets, f, p + |Bytes(t, u.Table())|)
  {
    hide DieAt, AttrsEnd, Uleb, LebEnd, BytesOf, WalkSiblings, Unit.Table, Unit.HasCache, Unit.Sound;
    ghost var head := t.code + t.attrs;
    ghost var rest := if HasChildren(t, u.Table()) then BytesOf(t.kids, u.Table()) + [0] else [];
    assert Bytes(t, u.Table()) == head + rest;
    HoldsParts(u.info, p, head, rest);
    EntryFound(u, p, t);
    DieBounds(u, p);
    var d := GetDieAtOffset(u, cache, p);
    if HasChildren(t, u.Table()) {
      KidsEnd(u, p + |head|, t.kids, f);
    }
    r, visited := ForEachChild(u, cache, d, f);
  }
}
