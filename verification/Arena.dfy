/** The memory pool (src/Common/Arena.h): chunks obtained from an allocator, a position in the last
    one, and ranges handed out that keep their addresses and their bytes. */
module Arena {
  import opened Arith

  const PAD_RIGHT: nat := 63

  type Byte = b: nat | b < 256

  /** A block of the allocator; the last PAD_RIGHT bytes are not handed out. */
  datatype Chunk = Chunk(begin: nat, size: nat) {
    function End(): int {
      begin + size - PAD_RIGHT
    }
  }

  /** A range handed out to a caller. */
  datatype Range = Range(start: nat, len: nat) {
    function Stop(): nat {
      start + len
    }
  }

  predicate Apart(a: Chunk, b: Chunk) {
    a.begin + a.size <= b.begin || b.begin + b.size <= a.begin
  }

  predicate Disjoint(a: Range, b: Range) {
    a.len == 0 || b.len == 0 || a.Stop() <= b.start || b.Stop() <= a.start
  }

  predicate Inside(r: Range, c: Chunk) {
    c.begin <= r.start && r.Stop() <= c.End()
  }

  function RoundUp(s: nat, unit: nat): (r: nat)
    requires unit > 0
    ensures s <= r < s + unit && (s > 0 ==> r >= unit) && Mod(r, unit) == 0
  {
    hide Mod, Div;
    RoundUpBounds(s, unit);
    var q := Div(s + unit - 1, unit);
    DivModUnique(q * unit, q, 0, unit);
    q * unit
  }

  lemma RoundUpBounds(s: nat, unit: nat)
    requires unit > 0
    ensures s <= Div(s + unit - 1, unit) * unit <= s + unit - 1
    ensures s > 0 ==> Div(s + unit - 1, unit) * unit >= unit
  {
    hide Div, Mod;
    DivMod(s + unit - 1, unit);
    if s > 0 {
      if Div(s + unit - 1, unit) <= 0 {
        MulMonotone(Div(s + unit - 1, unit), 0, unit);
      } else {
        MulMonotone(1, Div(s + unit - 1, unit), unit);
      }
    }
  }

  /** The least multiple of the unit that is not below a or b. */
  predicate Least(r: nat, unit: nat, a: nat, b: nat) {
    unit > 0 && Mod(r, unit) == 0 && r >= a && r >= b && (r < a + unit || r < b + unit)
  }

  lemma LeastIsLeast(r: nat, unit: nat, a: nat, b: nat, other: nat)
    requires Least(r, unit, a, b) && Mod(other, unit) == 0 && other >= a && other >= b
    ensures r <= other
  {
    hide Mod, Div;
    if other < r {
      DivMod(r, unit);
      DivMod(other, unit);
      MulSub(Div(r, unit), Div(other, unit), unit);
      SmallMultiple(Div(r, unit) - Div(other, unit), unit, r - other);
    }
  }

  function Max(a: nat, b: nat): nat {
    if a < b then b else a
  }

  /** The address std::align gives. */
  function AlignUp(p: nat, alignment: nat): (a: nat)
    requires alignment > 0
    ensures p <= a < p + alignment && Mod(a, alignment) == 0
  {
    RoundUp(p, alignment)
  }

  function Total(cs: seq<Chunk>): nat {
    if |cs| == 0 then 0 else Total(cs[..|cs| - 1]) + cs[|cs| - 1].size
  }

  /** r lies in the handed-out part of one chunk. */
  ghost predicate Placed(cs: seq<Chunk>, pos: nat, r: Range) {
    exists i :: 0 <= i < |cs| && PlacedIn(cs, pos, r, i)
  }

  predicate PlacedIn(cs: seq<Chunk>, pos: nat, r: Range, i: nat)
    requires i < |cs|
  {
    Inside(r, cs[i]) && (i == |cs| - 1 ==> r.Stop() <= pos)
  }

  /** The layout every operation keeps. */
  ghost predicate Layout(cs: seq<Chunk>, pos: nat, live: seq<Range>) {
    && (forall c :: c in cs ==> c.size > PAD_RIGHT)
    && (forall i, j :: 0 <= i < j < |cs| ==> Apart(cs[i], cs[j]))
    && (cs != [] ==> cs[|cs| - 1].begin <= pos <= cs[|cs| - 1].End())
    && (forall r :: r in live ==> Placed(cs, pos, r))
    && (forall i, j :: 0 <= i < j < |live| ==> Disjoint(live[i], live[j]))
  }

  /** A new chunk keeps everything where it was. */
  lemma LayoutNewChunk(cs: seq<Chunk>, pos: nat, live: seq<Range>, c: Chunk)
    requires Layout(cs, pos, live) && c.size > PAD_RIGHT && forall c' :: c' in cs ==> Apart(c', c)
    ensures Layout(cs + [c], c.begin, live)
  {
    hide Disjoint, Apart;
    forall r | r in live ensures Placed(cs + [c], c.begin, r) {
      var i :| 0 <= i < |cs| && PlacedIn(cs, pos, r, i);
      assert PlacedIn(cs + [c], c.begin, r, i);
    }
  }

  /** Handing out [start, stop) at or after the position of the head. */
  lemma LayoutAlloc(cs: seq<Chunk>, pos: nat, live: seq<Range>, r: Range)
    requires Layout(cs, pos, live) && cs != [] && pos <= r.start && r.Stop() <= cs[|cs| - 1].End()
    ensures Layout(cs, r.Stop(), live + [r]) && LastAtHead(cs, r.Stop(), live + [r])
  {
    var h := |cs| - 1;
    forall q | q in live
      ensures Placed(cs, r.Stop(), q) && Disjoint(q, r) && (Inside(q, cs[h]) ==> q.Stop() <= r.start)
    {
      var i :| 0 <= i < |cs| && PlacedIn(cs, pos, q, i);
      assert PlacedIn(cs, r.Stop(), q, i);
      if i < h {
        assert Apart(cs[i], cs[h]) && cs[i] in cs && cs[h] in cs;
      }
    }
    assert PlacedIn(cs, r.Stop(), r, h);
  }

  /** Giving back the end of the last range. */
  lemma LayoutShrink(cs: seq<Chunk>, pos: nat, live: seq<Range>, size: nat)
    requires Layout(cs, pos, live) && LastAtHead(cs, pos, live) && size <= live[|live| - 1].len
    ensures var r := live[|live| - 1];
      Layout(cs, pos - size, live[..|live| - 1] + [Range(r.start, r.len - size)])
  {
    var n, h := |live| - 1, |cs| - 1;
    var r := live[n];
    var r' := Range(r.start, r.len - size);
    forall q | q in live[..n] ensures Placed(cs, pos - size, q) && Disjoint(q, r') {
      var k :| 0 <= k < n && live[k] == q;
      assert Disjoint(live[k], live[n]) && live[k] in live;
      assert Placed(cs, pos, q);
      var i :| 0 <= i < |cs| && PlacedIn(cs, pos, q, i);
      LowerInHead(cs, pos, live, k, i);
      assert PlacedIn(cs, pos - size, q, i);
    }
    assert PlacedIn(cs, pos - size, r', h);
  }

  /** The last range ends at the position of the head, and everything else in the head is below it. */
  ghost predicate LastAtHead(cs: seq<Chunk>, pos: nat, live: seq<Range>) {
    && cs != [] && live != []
    && live[|live| - 1].Stop() == pos && cs[|cs| - 1].begin <= live[|live| - 1].start
    && forall k :: 0 <= k < |live| - 1 && Inside(live[k], cs[|cs| - 1]) ==> live[k].Stop() <= live[|live| - 1].start
  }

  lemma LowerInHead(cs: seq<Chunk>, pos: nat, live: seq<Range>, k: nat, i: nat)
    requires LastAtHead(cs, pos, live) && k < |live| - 1 && i < |cs| && PlacedIn(cs, pos, live[k], i)
    ensures i == |cs| - 1 ==> live[k].Stop() <= live[|live| - 1].start
  {
  }

  /** The last two ranges joined, when the second starts where the first stops. */
  lemma LayoutJoin(cs: seq<Chunk>, pos: nat, live: seq<Range>, a: Range, b: Range)
    requires Layout(cs, pos, live + [a, b]) && LastAtHead(cs, pos, live + [a, b])
    requires a.Stop() == b.start && cs[|cs| - 1].begin <= a.start
    requires forall k :: 0 <= k < |live| && Inside(live[k], cs[|cs| - 1]) ==> live[k].Stop() <= a.start
    ensures var r := Range(a.start, a.len + b.len);
      Layout(cs, pos, live + [r]) && LastAtHead(cs, pos, live + [r])
  {
    var r, h, all := Range(a.start, a.len + b.len), |cs| - 1, live + [a, b];
    forall k | 0 <= k < |live| ensures Placed(cs, pos, live[k]) && Disjoint(live[k], r) {
      assert all[k] == live[k] && live[k] in all;
      assert Disjoint(all[k], all[|live|]) && Disjoint(all[k], all[|live| + 1]);
      var i :| 0 <= i < |cs| && PlacedIn(cs, pos, live[k], i);
      if i < h {
        assert Apart(cs[i], cs[h]) && cs[i] in cs && cs[h] in cs;
      }
    }
    forall i, j | 0 <= i < j < |live| ensures Disjoint(live[i], live[j]) {
      assert Disjoint(all[i], all[j]);
    }
    assert PlacedIn(cs, pos, r, h);
  }

  /** Forgetting the last range but one. */
  lemma LayoutForget(cs: seq<Chunk>, pos: nat, live: seq<Range>, a: Range, b: Range)
    requires Layout(cs, pos, live + [a, b]) && LastAtHead(cs, pos, live + [a, b])
    ensures Layout(cs, pos, live + [b]) && LastAtHead(cs, pos, live + [b])
  {
    var all := live + [a, b];
    forall i, j | 0 <= i < j < |live| + 1 ensures Disjoint((live + [b])[i], (live + [b])[j]) {
      assert Disjoint(all[i], all[if j < |live| then j else j + 1]);
    }
    forall r | r in live + [b] ensures Placed(cs, pos, r) {
      assert r in all;
    }
    forall k | 0 <= k < |live| && Inside(live[k], cs[|cs| - 1]) ensures live[k].Stop() <= b.start {
      assert all[k] == live[k];
    }
  }

  // ----- Bytes

  /** A byte of memory; unknown until something is stored. */
  datatype Cell = Unknown | Known(b: Byte)

  type Memory = map<nat, Cell>

  function At(m: Memory, a: nat): Cell {
    if a in m then m[a] else Unknown
  }

  /** The cells of a range. */
  function Cells(m: Memory, r: Range): (c: seq<Cell>)
    ensures |c| == r.len && forall k :: 0 <= k < r.len ==> c[k] == At(m, r.start + k)
  {
    seq(r.len, k requires 0 <= k < r.len => At(m, r.start + k))
  }

  /** memcpy of the cells to an address. */
  function Filled(m: Memory, at: nat, cells: seq<Cell>): Memory {
    if |cells| == 0 then m
    else Filled(m, at, cells[..|cells| - 1])[at + |cells| - 1 := cells[|cells| - 1]]
  }

  lemma {:induction false} FilledAt(m: Memory, at: nat, cells: seq<Cell>, a: nat)
    ensures At(Filled(m, at, cells), a) == if at <= a < at + |cells| then cells[a - at] else At(m, a)
    decreases |cells|
  {
    if |cells| > 0 {
      FilledAt(m, at, cells[..|cells| - 1], a);
    }
  }

  lemma FilledHere(m: Memory, at: nat, cells: seq<Cell>)
    ensures Cells(Filled(m, at, cells), Range(at, |cells|)) == cells
  {
    hide Filled, At;
    forall k | 0 <= k < |cells| ensures At(Filled(m, at, cells), at + k) == cells[k] {
      FilledAt(m, at, cells, at + k);
    }
  }

  lemma FilledElsewhere(m: Memory, at: nat, cells: seq<Cell>, r: Range)
    requires Disjoint(r, Range(at, |cells|))
    ensures Cells(Filled(m, at, cells), r) == Cells(m, r)
  {
    hide Filled, At;
    var c, c' := Cells(m, r), Cells(Filled(m, at, cells), r);
    forall k | 0 <= k < r.len ensures c'[k] == c[k] {
      FilledAt(m, at, cells, r.start + k);
    }
  }

  /** Filling the start of the last range leaves the others alone. */
  lemma FilledLast(m: Memory, live: seq<Range>, cells: seq<Cell>)
    requires live != [] && |cells| <= live[|live| - 1].len
    requires forall i, j :: 0 <= i < j < |live| ==> Disjoint(live[i], live[j])
    ensures var at := live[|live| - 1].start;
      && Cells(Filled(m, at, cells), Range(at, |cells|)) == cells
      && forall r :: r in live[..|live| - 1] ==> Cells(Filled(m, at, cells), r) == Cells(m, r)
  {
    hide Filled, Cells;
    var n := |live| - 1;
    var at := live[n].start;
    forall r | r in live[..n] ensures Cells(Filled(m, at, cells), r) == Cells(m, r) {
      var k :| 0 <= k < n && live[k] == r;
      assert Disjoint(live[k], live[n]);
      FilledElsewhere(m, at, cells, r);
    }
    FilledHere(m, at, cells);
  }

  function KnownCells(data: seq<Byte>): (c: seq<Cell>)
    ensures |c| == |data| && forall k :: 0 <= k < |data| ==> c[k] == Known(data[k])
  {
    seq(|data|, k requires 0 <= k < |data| => Known(data[k]))
  }

  // ----- The pool

  class Pool {
    const initialSize: nat
    const growthFactor: nat
    const linearGrowthThreshold: nat
    const pageSize: nat
    var chunks: seq<Chunk>       // the last one is the head
    var pos: nat
    var allocatedBytes: nat
    var usedBytes: int
    var memory: Memory
    ghost var live: seq<Range>   // the ranges handed out, in order

    ghost predicate Valid()
      reads this
    {
      && pageSize > PAD_RIGHT && linearGrowthThreshold > 0
      && Layout(chunks, pos, live)
      && allocatedBytes == Total(chunks)
    }

    constructor (initialSize: nat, growthFactor: nat, linearGrowthThreshold: nat, pageSize: nat)
      requires pageSize > PAD_RIGHT && linearGrowthThreshold > 0
      ensures Valid() && chunks == [] && live == [] && allocatedBytes == 0 && usedBytes == 0 && memory == map[]
      ensures this.pageSize == pageSize && this.linearGrowthThreshold == linearGrowthThreshold
    {
      this.initialSize, this.growthFactor := initialSize, growthFactor;
      this.linearGrowthThreshold, this.pageSize := linearGrowthThreshold, pageSize;
      chunks, pos, allocatedBytes, usedBytes, memory, live := [], 0, 0, 0, map[], [];
    }

    /** `nextSize`: exponential growth up to the threshold, linear from there on. */
    function NextSize(minNext: nat): (r: nat)
      requires pageSize > 0 && linearGrowthThreshold > 0
      reads this`chunks
      ensures r >= minNext && (minNext > 0 ==> r >= pageSize) && Mod(r, pageSize) == 0
      ensures chunks == [] ==> Least(r, pageSize, minNext, initialSize)
      ensures chunks != [] ==> var size := chunks[|chunks| - 1].size;
        if size < linearGrowthThreshold then Least(r, pageSize, minNext, size * growthFactor)
        else exists m: nat :: Least(m, linearGrowthThreshold, minNext, 0) && Least(r, pageSize, m, 0)
    {
      hide Mod, Div;
      var grown :=
        if chunks == [] then Max(minNext, initialSize)
        else
          var size := chunks[|chunks| - 1].size;
          if size < linearGrowthThreshold then Max(minNext, Scaled(size, growthFactor))
          else RoundUp(minNext, linearGrowthThreshold);
      var r := RoundUp(grown, pageSize);
      assert Least(r, pageSize, grown, 0);
      r
    }

    /** The allocator's promise for a new block: it overlaps no block it gave before. */
    ghost predicate Fresh(base: nat, minSize: nat)
      requires pageSize > 0 && linearGrowthThreshold > 0
      reads this`chunks
    {
      forall c :: c in chunks ==> Apart(c, Chunk(base, NextSize(minSize + PAD_RIGHT)))
    }

    method AddMemoryChunk(minSize: nat, base: nat)
      requires Valid() && Fresh(base, minSize)
      modifies `chunks, `pos, `allocatedBytes
      ensures Valid() && |chunks| == |old(chunks)| + 1 && chunks[..|old(chunks)|] == old(chunks)
      ensures chunks[|old(chunks)|] == Chunk(base, old(NextSize(minSize + PAD_RIGHT)))
      ensures pos == base && pos + minSize <= chunks[|chunks| - 1].End()
    {
      hide Layout;
      var c := Chunk(base, NextSize(minSize + PAD_RIGHT));
      LayoutNewChunk(chunks, pos, live, c);
      assert (chunks + [c])[..|chunks|] == chunks;
      chunks := chunks + [c];
      pos := base;
      allocatedBytes := allocatedBytes + c.size;
    }

    /** Room for size bytes in the head. */
    predicate HasRoom(size: nat)
      reads this`chunks, this`pos
    {
      chunks != [] && pos + size <= chunks[|chunks| - 1].End()
    }

    method Alloc(size: nat, base: nat) returns (res: nat)
      requires Valid() && (!HasRoom(size) ==> Fresh(base, size))
      modifies this
      ensures Valid() && live == old(live) + [Range(res, size)] && LastAtHead(chunks, pos, live)
      ensures memory == old(memory) && usedBytes == old(usedBytes) + size
      ensures old(HasRoom(size)) ==> chunks == old(chunks) && res == old(pos)
      ensures !old(HasRoom(size)) ==> |chunks| == |old(chunks)| + 1
    {
      hide Layout, LastAtHead, Total;
      usedBytes := usedBytes + size;
      if !HasRoom(size) {
        AddMemoryChunk(size, base);
      }
      res := pos;
      LayoutAlloc(chunks, pos, live, Range(res, size));
      pos := pos + size;
      live := live + [Range(res, size)];
    }

    /** At most one chunk is added: a fresh chunk has room for the worst alignment. */
    method AlignedAlloc(size: nat, alignment: nat, base: nat) returns (res: nat)
      requires Valid() && alignment > 0 && Fresh(base, size + alignment)
      modifies this
      ensures Valid() && live == old(live) + [Range(res, size)] && LastAtHead(chunks, pos, live)
      ensures memory == old(memory) && usedBytes == old(usedBytes) + size
      ensures Mod(res, alignment) == 0
      ensures |old(chunks)| <= |chunks| <= |old(chunks)| + 1 && chunks[..|old(chunks)|] == old(chunks)
    {
      hide Layout, LastAtHead, Total, Mod;
      usedBytes := usedBytes + size;
      ghost var added := false;
      if !HasRoom(size) {
        AddMemoryChunk(size + alignment, base);
        added := true;
      }
      while true
        invariant Valid() && live == old(live) && memory == old(memory) && usedBytes == old(usedBytes) + size
        invariant chunks != []
        invariant !added ==> chunks == old(chunks)
        invariant added ==> |chunks| == |old(chunks)| + 1 && chunks[..|old(chunks)|] == old(chunks)
        invariant added ==> pos + size + alignment <= chunks[|chunks| - 1].End()
        decreases !added
      {
        var aligned := AlignUp(pos, alignment);
        if aligned + size <= chunks[|chunks| - 1].End() {
          res := aligned;
          LayoutAlloc(chunks, pos, live, Range(res, size));
          pos := aligned + size;
          live := live + [Range(res, size)];
          return;
        }
        AddMemoryChunk(size + alignment, base);
        added := true;
      }
    }

    /** Gives back the end of the last allocation. */
    method Rollback(size: nat) returns (res: nat)
      requires Valid() && LastAtHead(chunks, pos, live) && size <= live[|live| - 1].len
      modifies this
      ensures Valid() && chunks == old(chunks) && memory == old(memory)
      ensures res == pos == old(pos) - size && usedBytes == old(usedBytes) - size
      ensures var r := old(live)[|old(live)| - 1];
        live == old(live)[..|old(live)| - 1] + [Range(r.start, r.len - size)]
    {
      hide Layout, Total;
      LayoutShrink(chunks, pos, live, size);
      usedBytes := usedBytes - size;
      pos := pos - size;
      live := live[..|live| - 1] + [Range(live[|live| - 1].start, live[|live| - 1].len - size)];
      res := pos;
    }

    /** `insert`: stores the data; what was stored before stays as it was. */
    method Insert(data: seq<Byte>, base: nat) returns (res: nat)
      requires Valid() && (!HasRoom(|data|) ==> Fresh(base, |data|))
      modifies this
      ensures Valid() && live == old(live) + [Range(res, |data|)]
      ensures Cells(memory, Range(res, |data|)) == KnownCells(data)
      ensures forall r :: r in old(live) ==> Cells(memory, r) == Cells(old(memory), r)
    {
      hide Total, LastAtHead, Cells, Filled, KnownCells, Placed, Disjoint;
      res := Alloc(|data|, base);
      ghost var n := |live| - 1;
      assert live[..n] == old(live);
      FilledLast(memory, live, KnownCells(data));
      memory := Filled(memory, res, KnownCells(data));
    }

    /** `allocContinue`: begins a range, or makes the last one longer, in place when it fits and
        otherwise by moving it with its bytes to a new chunk. */
    method AllocContinue(additional: nat, start: seq<nat>, alignment: nat, base: nat) returns (res: nat, start': nat)
      requires Valid() && additional > 0 && |start| <= 1
      requires start != [] ==> LastAtHead(chunks, pos, live) && live[|live| - 1].start == start[0]
      requires Fresh(base, (if start == [] then 0 else pos - start[0]) + additional + alignment)
      modifies this
      ensures Valid() && LastAtHead(chunks, pos, live)
      ensures start == [] ==>
        live == old(live) + [Range(start', additional)] && res == start' && memory == old(memory)
      ensures start != [] ==>
        var n, existing := |old(live)| - 1, old(pos) - start[0];
        && live == old(live)[..n] + [Range(start', existing + additional)] && res == start' + existing
        && Cells(memory, Range(start', existing)) == Cells(old(memory), old(live)[n])
        && forall r :: r in old(live)[..n] ==> Cells(memory, r) == Cells(old(memory), r)
      ensures alignment > 0 && (start != [] ==> Mod(start[0], alignment) == 0) ==> Mod(start', alignment) == 0
      ensures usedBytes == old(usedBytes) + additional   // a range that moves is counted again
        + (if start != [] && !old(HasRoom(additional)) then old(pos) - start[0] else 0)
    {
      hide Total, Layout, LastAtHead, Cells, Filled, Mod, Disjoint;
      if start == [] {
        res := AllocAligned(additional, alignment, base);
        start' := res;
        return;
      }
      HeadFacts(chunks, pos, live);
      ghost var n, oldRange := |live| - 1, live[|live| - 1];
      ghost var others := live[..n];
      assert live == others + [oldRange];
      if pos + additional <= chunks[|chunks| - 1].End() {
        start' := start[0];
        res := Alloc(additional, base);
        assert live == others + [oldRange, Range(res, additional)];
        LayoutJoin(chunks, pos, others, oldRange, Range(res, additional));
        live := others + [Range(start', oldRange.len + additional)];
        return;
      }
      var existing := pos - start[0];
      start' := AllocAligned(existing + additional, alignment, base);
      ghost var newRange := Range(start', existing + additional);
      assert live == others + [oldRange, newRange];
      LayoutForget(chunks, pos, others, oldRange, newRange);
      live := others + [newRange];
      LayoutDisjoint(chunks, pos, live);
      assert live[..n] == others;
      FilledLast(memory, live, Cells(memory, Range(start[0], existing)));
      memory := Filled(memory, start', Cells(memory, Range(start[0], existing)));
      res := start' + existing;
    }

    /** With an alignment or, for zero, without. */
    method AllocAligned(size: nat, alignment: nat, base: nat) returns (res: nat)
      requires Valid() && Fresh(base, size + alignment)
      modifies this
      ensures Valid() && live == old(live) + [Range(res, size)] && LastAtHead(chunks, pos, live)
      ensures memory == old(memory) && usedBytes == old(usedBytes) + size
      ensures alignment > 0 ==> Mod(res, alignment) == 0
    {
      hide Layout, LastAtHead, Total, Mod;
      if alignment > 0 {
        res := AlignedAlloc(size, alignment, base);
      } else {
        res := Alloc(size, base);
      }
    }
  }

  /** What can be used about the last range and the head. */
  lemma HeadFacts(cs: seq<Chunk>, pos: nat, live: seq<Range>)
    requires LastAtHead(cs, pos, live)
    ensures cs != [] && live != [] && live[|live| - 1].Stop() == pos && cs[|cs| - 1].begin <= live[|live| - 1].start
    ensures forall k :: 0 <= k < |live| - 1 && Inside(live[k], cs[|cs| - 1]) ==> live[k].Stop() <= live[|live| - 1].start
  {
  }

  lemma LayoutDisjoint(cs: seq<Chunk>, pos: nat, live: seq<Range>)
    requires Layout(cs, pos, live)
    ensures forall i, j :: 0 <= i < j < |live| ==> Disjoint(live[i], live[j])
  {
    hide Disjoint;
  }

  function Scaled(size: nat, factor: nat): nat {
    size * factor
  }
}
