/** The array of plain values (src/Common/PODArray.h) with its growth policy, and the rounding it
    uses (src/Common/BitHelpers.h). */
module PodArray {
  import opened Arith
  import opened Bits

  // ----- Rounding up to a power of two

  /** Some bit of x among the m bits from i up. */
  ghost predicate AnyBit(x: nat, i: nat, m: nat) {
    exists j: nat :: i <= j < i + m && Bit(x, j)
  }

  /** Every bit of y is on exactly when x has a bit among the m from there up. */
  ghost predicate Smeared(y: nat, x: nat, m: nat) {
    forall i: nat :: Bit(y, i) == AnyBit(x, i, m)
  }

  lemma SmearStart(x: nat)
    ensures Smeared(x, x, 1)
  {
    hide Bit;
  }

  /** n |= n >> m doubles the reach. */
  lemma SmearStep(y: nat, x: nat, m: nat)
    requires Smeared(y, x, m)
    ensures Smeared(Or(y, Shr(y, m)), x, 2 * m)
  {
    hide Bit, Or, Shr;
    forall i: nat ensures Bit(Or(y, Shr(y, m)), i) == AnyBit(x, i, 2 * m) {
      BitOr(y, Shr(y, m), i);
      BitShr(y, m, i);
      AnyBitJoin(x, i, m);
    }
  }

  lemma AnyBitJoin(x: nat, i: nat, m: nat)
    ensures AnyBit(x, i, 2 * m) == (AnyBit(x, i, m) || AnyBit(x, i + m, m))
  {
    hide Bit;
  }

  /** The position of the highest bit. */
  lemma {:induction false} TopBit(x: nat) returns (t: nat)
    requires x > 0
    ensures Pow2(t) <= x < Pow2(t + 1) && Bit(x, t)
    decreases x
  {
    hide Bit;
    if x == 1 {
      t := 0;
      BitZero(1);
      Pow2Small();
    } else {
      t := TopBit(x / 2);
      t := t + 1;
      BitHalf(x, t);
    }
  }

  lemma SmearedAll(y: nat, x: nat, t: nat)
    requires Smeared(y, x, 64) && Pow2(t) <= x < Pow2(t + 1) && Bit(x, t) && x < Pow2(64)
    ensures y == Pow2(t + 1) - 1
  {
    hide Bit, Pow2;
    if t >= 64 {
      Pow2Monotone(64, t);
    }
    forall i: nat ensures Bit(y, i) == Bit(Pow2(t + 1) - 1, i) {
      BitMask(t + 1, i);
      forall j: nat | j > t ensures !Bit(x, j) {
        BitAbove(x, t + 1, j);
      }
    }
    BitsDetermine(y, Pow2(t + 1) - 1);
  }

  const MSB: nat := 0x8000_0000_0000_0000

  /** The least power of two that is not smaller, for arguments without the top bit. */
  method RoundUpToPowerOfTwoOrZero(size: nat) returns (r: nat)
    requires size < 2 * MSB
    ensures r >= size
    ensures size == 0 ==> r == 0
    ensures size >= MSB ==> r == size
    ensures 0 < size < MSB ==> r < 2 * size && exists k: nat :: r == Pow2(k)
  {
    hide Bit, Or, Shr, Smeared, Pow2;
    if size >= MSB {
      return size;
    }
    var n := if size == 0 then 2 * MSB - 1 else size - 1;   // 64-bit decrement
    ghost var x := n;
    SmearStart(x);
    SmearStep(n, x, 1);
    n := Or(n, Shr(n, 1));
    SmearStep(n, x, 2);
    n := Or(n, Shr(n, 2));
    SmearStep(n, x, 4);
    n := Or(n, Shr(n, 4));
    SmearStep(n, x, 8);
    n := Or(n, Shr(n, 8));
    SmearStep(n, x, 16);
    n := Or(n, Shr(n, 16));
    SmearStep(n, x, 32);
    n := Or(n, Shr(n, 32));
    WordSizes();
    if x > 0 {
      var t := TopBit(x);
      SmearedAll(n, x, t);
      Pow2Doubles(t);
      TopPlace(x, t);
    } else {
      SmearedZero(n);
      Pow2Small();
    }
    r := if n + 1 == 2 * MSB then 0 else n + 1;
  }

  /** Below 2^63 the next power still fits the word; all ones reach 2^64 exactly. */
  lemma TopPlace(x: nat, t: nat)
    requires x < 2 * MSB && Pow2(t) <= x < Pow2(t + 1)
    ensures x < MSB ==> Pow2(t + 1) <= MSB
    ensures x == 2 * MSB - 1 ==> Pow2(t + 1) == 2 * MSB
  {
    hide Pow2;
    WordSizes();
    Pow2Doubles(63);
    if t >= 64 {
      Pow2Monotone(64, t);
    } else if t == 63 {
    } else {
      Pow2Monotone(t + 1, 63);
    }
  }

  lemma SmearedZero(y: nat)
    requires Smeared(y, 0, 64)
    ensures y == 0
  {
    hide Bit;
    forall i: nat ensures Bit(y, i) == Bit(0, i) {
      BitOfZero(i);
      forall j: nat ensures !Bit(0, j) { BitOfZero(j); }
    }
    BitsDetermine(y, 0);
  }

  // ----- The array

  /** How many elements of size e fit into the room bytes. */
  function Fitting(room: int, e: nat): int
    requires e > 0
  {
    Div(room, e)
  }

  lemma Fits(room: int, e: nat, n: int)
    requires e > 0 && n * e <= room
    ensures Fitting(room, e) >= n
  {
    hide Div, Mod;
    DivMod(room, e);
    if Fitting(room, e) < n {
      MulMonotone(Fitting(room, e) + 1, n, e);
      MulSub(Fitting(room, e), 1, e);
    }
  }

  lemma FittingFits(room: int, e: nat)
    requires e > 0
    ensures Fitting(room, e) * e <= room && (room >= 0 ==> Fitting(room, e) >= 0)
  {
    hide Div, Mod;
    DivMod(room, e);
  }

  /** Elements are counted from 0; slot 0 of the buffer is element -1. */
  class Pod<T(0)> {
    const elementSize: nat
    const initialBytes: nat
    const padLeft: nat
    const padRight: nat
    const zero: T
    var bytes: nat            // allocated bytes, padding included
    var isNull: bool          // still pointing at the static empty array
    var buf: array<T>
    var size: nat

    ghost predicate Valid()
      reads this, buf
    {
      && 0 < elementSize <= padLeft
      && bytes >= padLeft + padRight
      && buf.Length == 1 + Fitting(bytes - padLeft - padRight, elementSize)
      && size < buf.Length && buf[0] == zero
      && (isNull ==> buf.Length == 1)
    }

    ghost function Contents(): seq<T>
      requires Valid()
      reads this, buf
    {
      buf[1..1 + size]
    }

    /** Both operands are pointer differences in the source; the padding is not part of the room. */
    function Capacity(): int
      reads this`buf
    {
      buf.Length - 1
    }

    function ByteSize(n: nat): nat {
      n * elementSize
    }

    function MinimumMemory(n: nat): nat {
      ByteSize(n) + padRight + padLeft
    }

    /** An array that has allocated nothing: it points at static zeros. */
    constructor (elementSize: nat, initialBytes: nat, padLeft: nat, padRight: nat, zero: T)
      requires 0 < elementSize <= padLeft
      ensures Valid() && fresh(buf) && Contents() == [] && this.zero == zero
      ensures this.elementSize == elementSize && this.padLeft == padLeft && this.padRight == padRight
    {
      this.elementSize, this.initialBytes := elementSize, initialBytes;
      this.padLeft, this.padRight, this.zero := padLeft, padRight, zero;
      bytes, isNull, size := padLeft + padRight, true, 0;
      buf := new T[1](_ => zero);
      new;
      NoRoom(elementSize);
    }

    /** An array built from a range. */
    constructor FromRange(elementSize: nat, initialBytes: nat, padLeft: nat, padRight: nat, zero: T, items: seq<T>)
      requires 0 < elementSize <= padLeft
      ensures Valid() && fresh(buf) && Contents() == items && this.zero == zero
      ensures this.elementSize == elementSize && this.padLeft == padLeft && this.padRight == padRight
    {
      hide Fitting;
      this.elementSize, this.initialBytes := elementSize, initialBytes;
      this.padLeft, this.padRight, this.zero := padLeft, padRight, zero;
      bytes, isNull, size := padLeft + padRight, true, 0;
      buf := new T[1](_ => zero);
      new;
      NoRoom(elementSize);
      MulMonotone(0, |items|, elementSize);
      Alloc(MinimumMemory(|items|));
      Fits(bytes - padLeft - padRight, elementSize, |items|);
      Append(items);   // the range fits: insertPrepare does nothing
    }

    /** `alloc`: a block of arbitrary memory, with the element before the first cleared. */
    method Alloc(newBytes: nat)
      requires Valid() && newBytes >= padLeft + padRight
      modifies this`bytes, this`isNull, this`buf, this`size
      ensures Valid() && fresh(buf) && bytes == newBytes && Contents() == []
      ensures Capacity() == Fitting(newBytes - padLeft - padRight, elementSize)
    {
      hide Fitting;
      FittingFits(newBytes - padLeft - padRight, elementSize);
      buf := new T[1 + Fitting(newBytes - padLeft - padRight, elementSize)];
      buf[0] := zero;
      bytes, isNull, size := newBytes, false, 0;
    }

    /** `realloc`: keeps the elements and the one before the first; whatever fits the bytes fits. */
    method Realloc(newBytes: nat)
      requires Valid() && newBytes >= MinimumMemory(size)
      modifies this`bytes, this`isNull, this`buf, this`size
      ensures Valid() && fresh(buf) && bytes == newBytes && Contents() == old(Contents())
      ensures forall n: nat :: newBytes >= MinimumMemory(n) ==> n <= Capacity()
    {
      hide Fitting;
      forall n: nat | newBytes >= MinimumMemory(n)
        ensures n <= Fitting(newBytes - padLeft - padRight, elementSize)
      {
        Fits(newBytes - padLeft - padRight, elementSize, n);
      }
      if isNull {
        Alloc(newBytes);
      } else {
        var block := new T[1 + Fitting(newBytes - padLeft - padRight, elementSize)];
        forall i | 0 <= i <= size {
          block[i] := buf[i];
        }
        assert block[1..1 + size] == buf[1..1 + size];
        buf := block;
        bytes := newBytes;
      }
    }

    method Reserve(n: nat)
      requires Valid() && MinimumMemory(n) < 2 * MSB
      modifies this`bytes, this`isNull, this`buf, this`size
      ensures Valid() && (buf == old(buf) || fresh(buf)) && Contents() == old(Contents())
      ensures n <= Capacity()
    {
      hide Fitting;
      if n > Capacity() {
        var rounded := RoundUpToPowerOfTwoOrZero(MinimumMemory(n));
        MulMonotone(size, n, elementSize);
        Realloc(rounded);
      }
    }

    /** `reserveForNextSize`: always leaves room for one more. */
    method ReserveForNextSize()
      requires Valid()
      modifies this`bytes, this`isNull, this`buf, this`size
      ensures Valid() && fresh(buf) && Contents() == old(Contents()) && size < Capacity()
      ensures old(size) > 0 ==> bytes == 2 * old(bytes)
      ensures old(size) == 0 ==> bytes >= initialBytes && bytes >= elementSize + padLeft + padRight
      ensures old(size) == 0 ==> bytes < initialBytes + elementSize || bytes == elementSize + padLeft + padRight
    {
      hide Fitting;
      if size == 0 {
        RoundUpToBounds(initialBytes, elementSize);
        var first := RoundUpTo(initialBytes, elementSize);
        OneElement(elementSize);
        Realloc(if first < MinimumMemory(1) then MinimumMemory(1) else first);
      } else {
        FittingFits(bytes - padLeft - padRight, elementSize);
        DoubleRoom(size, elementSize, Fitting(bytes - padLeft - padRight, elementSize));
        assert bytes * 2 >= MinimumMemory(size + 1);
        Realloc(bytes * 2);
      }
    }

    method PushBack(x: T)
      requires Valid()
      modifies this`bytes, this`isNull, this`buf, this`size, buf
      ensures Valid() && (buf == old(buf) || fresh(buf)) && Contents() == old(Contents()) + [x]
    {
      hide Fitting;
      if size + 1 > Capacity() {
        ReserveForNextSize();
      }
      Append([x]);
    }

    /** The copy that ends every append, once there is room. */
    method Append(items: seq<T>)
      requires Valid() && size + |items| <= Capacity()
      modifies this`size, buf
      ensures Valid() && Contents() == old(Contents()) + items
    {
      hide Fitting;
      forall i | 0 <= i < |items| {
        buf[1 + size + i] := items[i];
      }
      size := size + |items|;
    }

    /** `resize`: new elements are whatever the memory holds. */
    method Resize(n: nat)
      requires Valid() && MinimumMemory(n) < 2 * MSB
      modifies this`bytes, this`isNull, this`buf, this`size
      ensures Valid() && (buf == old(buf) || fresh(buf)) && size == n
      ensures forall i :: 0 <= i < n && i < old(size) ==> Contents()[i] == old(Contents())[i]
    {
      hide Fitting;
      Reserve(n);
      ghost var was := Contents();
      size := n;
      assert forall i :: 0 <= i < n && i < |was| ==> Contents()[i] == was[i];
    }

    /** `insertPrepare`. */
    method InsertPrepare(n: nat)
      requires Valid() && size + n < MSB && MinimumMemory(2 * (size + n)) < 2 * MSB
      modifies this`bytes, this`isNull, this`buf, this`size
      ensures Valid() && (buf == old(buf) || fresh(buf)) && Contents() == old(Contents())
      ensures size + n <= Capacity()
    {
      hide Fitting;
      if size + n > Capacity() {
        var rounded := RoundUpToPowerOfTwoOrZero(size + n);
        MulMonotone(rounded, 2 * (size + n), elementSize);
        Reserve(rounded);
      }
    }

    /** `insert` at the end. */
    method Insert(items: seq<T>)
      requires Valid() && size + |items| < MSB && MinimumMemory(2 * (size + |items|)) < 2 * MSB
      modifies this`bytes, this`isNull, this`buf, this`size, buf
      ensures Valid() && (buf == old(buf) || fresh(buf)) && Contents() == old(Contents()) + items
    {
      hide Fitting;
      InsertPrepare(|items|);
      Append(items);
    }

    /** `insertByOffsets`: the other array may be this one, because it is read after the growth. */
    method InsertByOffsets(rhs: Pod<T>, from: nat, to: nat)
      requires Valid() && rhs.Valid() && (rhs != this ==> rhs.buf != buf) && from <= to <= rhs.size
      requires size + (to - from) < MSB && MinimumMemory(2 * (size + (to - from))) < 2 * MSB
      modifies this`bytes, this`isNull, this`buf, this`size, buf
      ensures Valid() && (buf == old(buf) || fresh(buf))
      ensures Contents() == old(Contents()) + old(rhs.Contents())[from..to]
    {
      hide Fitting;
      ghost var theirs := rhs.Contents();
      InsertPrepare(to - from);
      assert rhs.Valid() && rhs.Contents() == theirs;
      var items := rhs.Range(from, to);
      Append(items);
    }

    method Range(from: nat, to: nat) returns (items: seq<T>)
      requires Valid() && from <= to <= size
      ensures items == Contents()[from..to]
    {
      hide Fitting;
      items := buf[1 + from..1 + to];
      assert |items| == |Contents()[from..to]|;
      assert forall i :: 0 <= i < |items| ==> items[i] == Contents()[from..to][i];
    }

    /** `insert` before element at: the tail moves up, then the items go in. */
    method InsertAt(at: nat, items: seq<T>)
      requires Valid() && at <= size
      requires size + |items| < MSB && MinimumMemory(2 * (size + |items|)) < 2 * MSB
      modifies this`bytes, this`isNull, this`buf, this`size, buf
      ensures Valid() && (buf == old(buf) || fresh(buf))
      ensures Contents() == old(Contents())[..at] + items + old(Contents())[at..]
    {
      hide Fitting;
      ghost var was := Contents();
      if |items| == 0 {
        assert was[..at] + items + was[at..] == was;
        return;
      }
      InsertPrepare(|items|);
      OpenGap(at, |items|);
      Overwrite(at, items);
    }

    /** Copying bytes into the array over elements it already has. */
    method Overwrite(at: nat, items: seq<T>)
      requires Valid() && at + |items| <= size
      modifies buf
      ensures Valid() && Contents() == old(Contents())[..at] + items + old(Contents())[at + |items|..]
    {
      hide Fitting;
      ghost var was := Contents();
      forall i | 0 <= i < |items| {
        buf[1 + at + i] := items[i];
      }
      assert Contents() == was[..at] + items + was[at + |items|..];
    }

    /** The overlapping move of the tail. */
    method OpenGap(at: nat, n: nat)
      requires Valid() && at <= size && size + n <= Capacity()
      modifies this`size, buf
      ensures Valid() && size == old(size) + n
      ensures Contents()[..at] == old(Contents())[..at] && Contents()[at + n..] == old(Contents())[at..]
    {
      hide Fitting;
      ghost var was := Contents();
      forall j | at + n <= j < size + n {
        buf[1 + j] := buf[1 + j - n];
      }
      size := size + n;
      forall j | 0 <= j < at ensures Contents()[..at][j] == was[..at][j] {
        assert buf[1 + j] == was[j];
      }
      forall j | 0 <= j < size - at - n ensures Contents()[at + n..][j] == was[at..][j] {
        assert buf[1 + at + n + j] == was[at + j];
      }
    }

    /** operator[]: the index may be -1. */
    method Get(i: int) returns (x: T)
      requires Valid() && -1 <= i < size
      ensures x == if i == -1 then zero else Contents()[i]
    {
      x := buf[1 + i];
    }
  }

  /** `integerRoundUp`. */
  function RoundUpTo(value: nat, unit: nat): nat
    requires unit > 0
  {
    Div(value + unit - 1, unit) * unit
  }

  lemma RoundUpToBounds(value: nat, unit: nat)
    requires unit > 0
    ensures value <= RoundUpTo(value, unit) < value + unit
  {
    hide Div, Mod;
    DivMod(value + unit - 1, unit);
  }

  lemma NoRoom(e: nat)
    requires e > 0
    ensures Fitting(0, e) == 0
  {
    hide Div, Mod;
    ModSmall(0, e);
  }

  lemma OneElement(e: nat)
    ensures 0 * e == 0 && 1 * e == e
  {
  }

  /** Doubling the allocation makes room for one more element. */
  lemma DoubleRoom(size: nat, e: nat, capacity: nat)
    requires 0 < size <= capacity
    ensures (size + 1) * e <= 2 * (capacity * e) && size * e <= capacity * e
  {
    MulMonotone(size + 1, 2 * capacity, e);
    MulMonotone(size, capacity, e);
    MulAssoc(2, capacity, e);
  }
}
