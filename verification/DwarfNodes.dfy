/** Whole units as a producer writes them (src/Common/Dwarf.cpp): entries with their attribute
    values, under a table of abbreviations, and what walking them gives. */
module DwarfNodes {
  import opened DwarfRead
  import opened DwarfForms
  import opened DwarfAbbrev
  import opened DwarfAttrs
  import opened DwarfTree

  /** An entry to be written: its abbreviation, a stored item for each specification, its children. */
  datatype Node = Node(entry: EntryText, items: seq<Item>, kids: seq<Node>)
  {
    function List(): seq<Stored>
      requires |items| == |entry.specs|
    {
      Zip(entry.specs, items)
    }
  }

  function Zip(specs: seq<SpecText>, items: seq<Item>): (list: seq<Stored>)
    requires |specs| == |items|
    ensures |list| == |specs|
  {
    if |specs| == 0 then [] else [Stored(specs[0], items[0])] + Zip(specs[1..], items[1..])
  }

  lemma {:induction false} ZipSpecs(specs: seq<SpecText>, items: seq<Item>)
    requires |specs| == |items|
    ensures SpecsOf(Zip(specs, items)) == specs
    decreases |specs|
  {
    if |specs| > 0 {
      ZipSpecs(specs[1..], items[1..]);
      var list := Zip(specs, items);
      assert list[1..] == Zip(specs[1..], items[1..]);
      assert specs == [specs[0]] + specs[1..];
    }
  }

  /** The table names each code once, items fit their forms, and only entries that may have children
      have any. */
  predicate Fine(n: Node, table: seq<EntryText>, is64: bool)
    decreases n, 1
  {
    && n.entry in table && |n.items| == |n.entry.specs| && AllFine(n.List(), is64)
    && (!n.entry.hasChildren ==> n.kids == [])
    && AllNodesFine(n.kids, table, is64)
  }

  predicate AllNodesFine(ns: seq<Node>, table: seq<EntryText>, is64: bool)
    decreases ns, 0
  {
    |ns| == 0 || (Fine(ns[0], table, is64) && AllNodesFine(ns[1..], table, is64))
  }

  predicate TableFine(table: seq<EntryText>) {
    && (forall i :: 0 <= i < |table| ==> table[i].Fine())
    && (forall i, j :: 0 <= i < j < |table| ==> table[i].code != table[j].code)
  }

  /** The bytes of an entry and of all below it. */
  function NodeBytes(n: Node, is64: bool): seq<Byte>
    requires |n.items| == |n.entry.specs|
    decreases n, 1
  {
    EncodeUleb(n.entry.code) + BytesOfItems(n.List(), is64)
      + (if n.entry.hasChildren then NodesBytes(n.kids, is64) + [0] else [])
  }

  function NodesBytes(ns: seq<Node>, is64: bool): seq<Byte>
    decreases ns, 0
  {
    if |ns| == 0 then []
    else if |ns[0].items| != |ns[0].entry.specs| then []
    else NodeBytes(ns[0], is64) + NodesBytes(ns[1..], is64)
  }

  /** Where the values of an entry at p begin, and where its children do. */
  function ValuesAt(n: Node, p: nat): nat {
    p + |EncodeUleb(n.entry.code)|
  }

  function KidsAt(n: Node, p: nat, is64: bool): nat
    requires |n.items| == |n.entry.specs|
  {
    ValuesAt(n, p) + |BytesOfItems(n.List(), is64)|
  }

  /** The offsets of written siblings. */
  function NodeOffsets(p: nat, ns: seq<Node>, is64: bool): seq<nat>
    decreases ns
  {
    if |ns| == 0 then []
    else if |ns[0].items| != |ns[0].entry.specs| then []
    else [p] + NodeOffsets(p + |NodeBytes(ns[0], is64)|, ns[1..], is64)
  }

  // ----- The same entries as plain bytes

  function ToTree(n: Node, is64: bool): Tree
    requires |n.items| == |n.entry.specs|
    decreases n, 1
  {
    Tree(EncodeUleb(n.entry.code), BytesOfItems(n.List(), is64), ToTrees(n.kids, is64))
  }

  function ToTrees(ns: seq<Node>, is64: bool): seq<Tree>
    decreases ns, 0
  {
    if |ns| == 0 then []
    else if |ns[0].items| != |ns[0].entry.specs| then []
    else [ToTree(ns[0], is64)] + ToTrees(ns[1..], is64)
  }

  lemma {:induction false} MeantAt(t: seq<EntryText>)
    ensures |Meant(t)| == |t| && forall i :: 0 <= i < |t| ==> Meant(t)[i] == t[i].Meant()
    decreases |t|
  {
    if |t| > 0 {
      MeantAt(t[1..]);
    }
  }

  lemma MeantDistinct(table: seq<EntryText>)
    requires TableFine(table)
    ensures Distinct(Meant(table))
  {
    MeantAt(table);
  }

  lemma FoundFirst(table: seq<EntryText>, e: EntryText)
    requires TableFine(table) && e in table
    ensures First(Meant(table), e.code) == [e.Meant()] && e.Fine()
  {
    MeantAt(table);
    var i :| 0 <= i < |table| && table[i] == e;
    FirstIs(Meant(table), e.code, i);
  }

  /** A 64-bit number takes at most ten bytes. */
  lemma LebLength(v: nat)
    requires v < WORD
    ensures |EncodeUleb(v)| <= 10
  {
    LebLengthBy(v, 9);
  }

  function Pow128(k: nat): nat {
    if k == 0 then 1 else 128 * Pow128(k - 1)
  }

  lemma {:induction false} LebLengthBy(v: nat, k: nat)
    requires v < 2 * Pow128(k)
    ensures |EncodeUleb(v)| <= k + 1
    decreases k
  {
    if v >= 128 && k > 0 {
      LebLengthBy(v / 128, k - 1);
    }
  }

  lemma CodeWritten(e: EntryText)
    requires e.Fine()
    ensures var b := EncodeUleb(e.code); LebEnd(b, 0) == At(|b|) && Uleb(b, 0) == e.code && |b| <= 10
  {
    hide LebEnd, Uleb, EncodeUleb;
    var b := EncodeUleb(e.code);
    assert b[0..0 + |b|] == b;
    WrittenUleb(b, 0, e.code);
    LebLength(e.code);
  }

  /** The values of a written entry, read alone. */
  lemma ValuesRead(n: Node, is64: bool, s: seq<Byte>, p: nat)
    requires |n.items| == |n.entry.specs| && AllFine(n.List(), is64) && Holds(s, p, BytesOfItems(n.List(), is64))
    ensures AttrsOf(n.entry.Meant().attributes, 0, s, p, is64) == MeantAttrs(n.List(), p, is64)
    ensures AttrsEnd(n.entry.Meant().attributes, 0, s, p, is64) == At(p + |BytesOfItems(n.List(), is64)|)
  {
    hide AttrsOf, AttrsEnd, EncodeSpecs, BytesOfItems, AllFine, MeantAttrs, Zip;
    ZipSpecs(n.entry.specs, n.items);
    var b := EncodeSpecs(n.entry.specs);
    assert b[0..0 + |b|] == b;
    AttrsWritten(b, 0, s, p, n.List(), is64);
  }

  lemma {:induction false} NodeTree(n: Node, table: seq<EntryText>, is64: bool)
    requires TableFine(table) && Fine(n, table, is64)
    ensures WellFormed(ToTree(n, is64), Meant(table), is64)
    ensures Bytes(ToTree(n, is64), Meant(table)) == NodeBytes(n, is64)
    decreases n, 1
  {
    hide AttrsEnd, LebEnd, Uleb, EncodeUleb, First, Meant, BytesOfItems, AllFine, TableFine, ToTrees, NodesBytes, Zip;
    var t, values := ToTree(n, is64), BytesOfItems(n.List(), is64);
    FoundFirst(table, n.entry);
    CodeWritten(n.entry);
    assert values[0..0 + |values|] == values;
    ValuesRead(n, is64, values, 0);
    NodesTrees(n.kids, table, is64);
    if !n.entry.hasChildren {
      NoTrees(is64);
    }
  }

  lemma NoTrees(is64: bool)
    ensures ToTrees([], is64) == []
  {
  }

  lemma {:induction false} NodesTrees(ns: seq<Node>, table: seq<EntryText>, is64: bool)
    requires TableFine(table) && AllNodesFine(ns, table, is64)
    ensures AllWellFormed(ToTrees(ns, is64), Meant(table), is64)
    ensures BytesOf(ToTrees(ns, is64), Meant(table)) == NodesBytes(ns, is64)
    ensures forall p: nat :: Offsets(p, ToTrees(ns, is64), Meant(table)) == NodeOffsets(p, ns, is64)
    decreases ns, 0
  {
    hide TableFine, Meant, WellFormed, Bytes, NodeBytes, ToTree;
    if |ns| > 0 {
      FineItems(ns[0], table, is64);
      NodeTree(ns[0], table, is64);
      NodesTrees(ns[1..], table, is64);
      var ts := ToTrees(ns, is64);
      assert ts[1..] == ToTrees(ns[1..], is64);
    }
  }

  lemma FineItems(n: Node, table: seq<EntryText>, is64: bool)
    requires Fine(n, table, is64)
    ensures |n.items| == |n.entry.specs| && n.entry in table && AllFine(n.List(), is64)
  {
  }

  /** A unit that holds the bytes of a table. */
  predicate HoldsTable(u: Unit, table: seq<EntryText>) {
    TableFine(table) && Holds(u.abbrev, u.abbrevOffset, EncodeTable(table))
  }

  /** What the reader finds at a written entry: its offset, its abbreviation, and every attribute with
      the form and the value that was stored. */
  lemma NodeFound(u: Unit, table: seq<EntryText>, p: nat, n: Node)
    requires HoldsTable(u, table) && Fine(n, table, u.is64) && Holds(u.info, p, NodeBytes(n, u.is64))
    ensures DieAt(u, p) == Die(p, |EncodeUleb(n.entry.code)|, n.entry.Meant())
    ensures AttrsOf(n.entry.Meant().attributes, 0, u.info, ValuesAt(n, p), u.is64) == MeantAttrs(n.List(), ValuesAt(n, p), u.is64)
    ensures AttrsEnd(n.entry.Meant().attributes, 0, u.info, ValuesAt(n, p), u.is64) == At(KidsAt(n, p, u.is64))
  {
    hide AttrsOf, AttrsEnd, EncodeUleb, TableAt, EncodeTable, Distinct, WellFormed, Bytes, Holds, Meant, First, Uleb, LebEnd,
      TableFine, DieAt, BytesOfItems, NodesBytes, MeantAttrs, AllFine, Zip, ToTrees;
    FineItems(n, table, u.is64);
    TableRead(u, table);
    NodeTree(n, table, u.is64);
    var code, values := EncodeUleb(n.entry.code), BytesOfItems(n.List(), u.is64);
    var rest := if n.entry.hasChildren then NodesBytes(n.kids, u.is64) + [0] else [];
    HoldsParts(u.info, p, code + values, rest);
    EntryFound(u, p, ToTree(n, u.is64));
    HoldsParts(u.info, p, code, values);
    ValuesRead(n, u.is64, u.info, p + |code|);
    FoundFirst(table, n.entry);
    CodeWritten(n.entry);
  }

  lemma TableRead(u: Unit, table: seq<EntryText>)
    requires HoldsTable(u, table)
    ensures u.Sound() && u.Table() == Meant(table)
  {
    hide TableAt, EncodeTable, Distinct, Holds, Meant;
    TableWritten(u.abbrev, u.abbrevOffset, table);
    HoldsFits(u.abbrev, u.abbrevOffset, EncodeTable(table));
    MeantDistinct(table);
  }

  /** Walking a written unit: the direct children of the entry at p, in order, and the offset past the
      whole subtree when nothing stops it. The cache is filled first, or left out. */
  method WalkWrittenUnit(u: Unit, table: seq<EntryText>, p: nat, n: Node, f: nat -> bool)
    returns (r: Pos, visited: seq<nat>)
    requires HoldsTable(u, table) && Fine(n, table, u.is64) && Holds(u.info, p, NodeBytes(n, u.is64))
    ensures WalkedTo(Walk(r, visited), NodeOffsets(KidsAt(n, p, u.is64), n.kids, u.is64), f, p + |NodeBytes(n, u.is64)|)
  {
    hide TableAt, EncodeTable, Distinct, WellFormed, Bytes, WalkedTo, Offsets, Holds, Meant, TableFine, ToTrees, NodeBytes,
      AllWellFormed, BytesOf, CacheOf, EncodeUleb, BytesOfItems, NodeOffsets, NodesBytes;
    FineItems(n, table, u.is64);
    TableRead(u, table);
    NodeTree(n, table, u.is64);
    NodesTrees(n.kids, table, u.is64);
    var cache := new Abbrev[if u.cached then MAX_CACHED else 0](_ => EMPTY);
    if u.cached {
      var ok := FillCache(u.abbrev, u.abbrevOffset, cache);
    } else {
      NoCache(cache, u.abbrev, u.abbrevOffset);
    }
    r, visited := WalkWrittenTree(u, cache, p, ToTree(n, u.is64), f);
  }

  lemma NoCache(cache: array<Abbrev>, s: seq<Byte>, offset: nat)
    requires cache.Length == 0
    ensures CacheOf(cache, s, offset)
  {
  }
}
