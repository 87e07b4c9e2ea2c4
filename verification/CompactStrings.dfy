/** Strings packed into one block of characters with their end offsets
    (src/Common/CompactStrings.h and .cpp). */
module CompactStrings {
  import opened PodArray

  /** The packed characters. */
  ghost function Packed(strings: seq<string>): string {
    if strings == [] then "" else Packed(strings[..|strings| - 1]) + strings[|strings| - 1]
  }

  /** The end of the i-th string, which is the start of the next one. */
  ghost function EndOf(strings: seq<string>, i: int): nat
    requires -1 <= i < |strings|
  {
    |Packed(strings[..i + 1])|
  }

  lemma {:induction false} PackedPrefix(strings: seq<string>, n: nat)
    requires n <= |strings|
    ensures Packed(strings[..n]) <= Packed(strings)
    decreases |strings|
  {
    if n == |strings| {
      assert strings[..n] == strings;
    } else {
      PackedPrefix(strings[..|strings| - 1], n);
      assert strings[..|strings| - 1][..n] == strings[..n];
    }
  }

  /** The i-th string lies between its own end and the end before it. */
  lemma Located(strings: seq<string>, i: nat)
    requires i < |strings|
    ensures EndOf(strings, i - 1) <= EndOf(strings, i) <= |Packed(strings)|
    ensures Packed(strings)[EndOf(strings, i - 1)..EndOf(strings, i)] == strings[i]
  {
    PackedPrefix(strings, i + 1);
    assert strings[..i + 1][..i] == strings[..i];
    assert Packed(strings[..i + 1]) == Packed(strings[..i]) + strings[i];
    var whole, some := Packed(strings), Packed(strings[..i + 1]);
    assert whole[..|some|] == some;
    assert whole[|some| - |strings[i]|..|some|] == some[|some| - |strings[i]|..];
  }

  lemma EndsKept(strings: seq<string>, s: string, i: int)
    requires -1 <= i < |strings|
    ensures EndOf(strings + [s], i) == EndOf(strings, i)
  {
    assert (strings + [s])[..i + 1] == strings[..i + 1];
  }

  ghost predicate Ends(offsets: seq<int>, strings: seq<string>) {
    |offsets| == |strings| && forall i :: 0 <= i < |offsets| ==> offsets[i] == EndOf(strings, i)
  }

  lemma PushedEnds(offsets: seq<int>, strings: seq<string>, s: string)
    requires Ends(offsets, strings)
    ensures Packed(strings + [s]) == Packed(strings) + s
    ensures Ends(offsets + [|Packed(strings)| + |s|], strings + [s])
  {
    assert (strings + [s])[..|strings|] == strings;
    assert (strings + [s])[..|strings| + 1] == strings + [s];
    forall i | 0 <= i < |offsets| ensures EndOf(strings + [s], i) == offsets[i] {
      EndsKept(strings, s, i);
    }
  }

  const OFFSET_SIZE: nat := 8
  const OFFSETS_INITIAL: nat := 128
  const DATA_INITIAL: nat := 256

  class Strings {
    const data: Pod<char>
    const offsets: Pod<int>
    ghost var strings: seq<string>   // what was pushed

    ghost predicate Valid()
      reads this, data, data.buf, offsets, offsets.buf
    {
      && data.Valid() && offsets.Valid() && offsets.zero == 0
      && data.elementSize == 1 && data.padLeft == 16 && data.padRight == 15
      && data.Contents() == Packed(strings)
      && Ends(offsets.Contents(), strings)
    }

    constructor ()
      ensures Valid() && strings == []
      ensures fresh(data) && fresh(offsets) && fresh(data.buf) && fresh(offsets.buf)
    {
      data := new Pod<char>(1, DATA_INITIAL, 16, 15, '\0');
      offsets := new Pod<int>(OFFSET_SIZE, OFFSETS_INITIAL, 16, 16, 0);
      strings := [];
    }

    /** The copy constructor: both arrays are built from the other's ranges. */
    constructor Copy(other: Strings)
      requires other.Valid()
      ensures Valid() && strings == other.strings
      ensures fresh(data) && fresh(offsets) && fresh(data.buf) && fresh(offsets.buf)
    {
      hide Fitting, Packed, Ends;
      var chars := other.data.Range(0, other.data.size);
      var ends := other.offsets.Range(0, other.offsets.size);
      data := new Pod<char>.FromRange(1, DATA_INITIAL, 16, 15, '\0', chars);
      offsets := new Pod<int>.FromRange(OFFSET_SIZE, OFFSETS_INITIAL, 16, 16, 0, ends);
      strings := other.strings;
      new;
      assert data.Contents() == other.data.Contents();
      assert offsets.Contents() == other.offsets.Contents();
    }

    method PushBack(s: string)
      requires Valid() && data.size + |s| + 31 < 2 * MSB
      modifies this, data, data.buf, offsets, offsets.buf
      ensures Valid() && strings == old(strings) + [s]
      ensures data.buf == old(data.buf) || fresh(data.buf)
      ensures offsets.buf == old(offsets.buf) || fresh(offsets.buf)
    {
      hide Fitting, Packed;
      PushedEnds(offsets.Contents(), strings, s);
      var oldSize := data.size;
      var newSize := oldSize + |s|;
      ghost var was := data.Contents();
      data.Resize(newSize);
      assert data.Contents()[..oldSize] == was;
      data.Overwrite(oldSize, s);
      offsets.PushBack(newSize);
      strings := strings + [s];
      assert data.Contents() == was + s;
    }

    /** The form over a range of strings. */
    method PushAll(items: seq<string>)
      requires Valid() && data.size + |Packed(items)| + 31 < 2 * MSB
      modifies this, data, data.buf, offsets, offsets.buf
      ensures Valid() && strings == old(strings) + items
    {
      hide Fitting, Packed;
      assert items[..0] == [];
      NothingPacked();
      for k := 0 to |items|
        invariant Valid() && strings == old(strings) + items[..k]
        invariant data.size == old(data.size) + |Packed(items[..k])|
        invariant data.buf == old(data.buf) || fresh(data.buf)
        invariant offsets.buf == old(offsets.buf) || fresh(offsets.buf)
      {
        PackedPrefix(items, k + 1);
        NextPacked(items, k);
        NextPushed(strings, items[k]);
        PushBack(items[k]);
        assert items[..k + 1] == items[..k] + [items[k]];
      }
      assert items[..|items|] == items;
    }

    /** `operator[]` and `getString`: the i-th string pushed, the first included. */
    method Get(i: nat) returns (s: string)
      requires Valid() && i < offsets.size
      ensures s == strings[i]
    {
      hide Fitting, Packed;
      var from := offsets.Get(i - 1);
      var to := offsets.Get(i);
      Located(strings, i);
      NoStart(strings);
      s := data.Range(from, to);
    }

    /** A loop over the iterators visits what was pushed, in order. */
    method IterateAll() returns (all: seq<string>)
      requires Valid()
      ensures all == strings
    {
      hide Fitting, Packed;
      all := [];
      var itr := 0;
      while itr != offsets.size
        invariant itr <= offsets.size && all == strings[..itr]
        decreases offsets.size - itr
      {
        var s := Get(itr);
        all := all + [s];
        itr := itr + 1;
      }
    }
  }

  lemma NothingPacked()
    ensures Packed([]) == ""
  {
  }

  lemma NoStart(strings: seq<string>)
    ensures EndOf(strings, -1) == 0
  {
  }

  lemma NextPacked(items: seq<string>, k: nat)
    requires k < |items|
    ensures Packed(items[..k + 1]) == Packed(items[..k]) + items[k]
  {
    assert items[..k + 1][..k] == items[..k];
  }

  lemma NextPushed(strings: seq<string>, s: string)
    ensures Packed(strings + [s]) == Packed(strings) + s
  {
    assert (strings + [s])[..|strings|] == strings;
  }
}
