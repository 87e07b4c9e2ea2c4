/** Attribute values (src/Common/Dwarf.cpp; section 7.5.4 of the DWARF 4 standard, with the forms of
    DWARF 5): reading one value by its form, and what a producer writes for each form. */
module DwarfForms {
  import opened Arith
  import opened DwarfRead

  // ----- Reading

  /** How the value of a form is stored. Remote values are offsets or indices into other sections. */
  datatype Layout =
    | Present | Implied | Number(n: nat) | Remote(n: nat) | Raw(n: nat) | Leb | SignedLeb | RemoteLeb
    | Counted(prefix: nat) | CountedLeb | Terminated | Indirect | Unknown

  function LayoutOf(form: nat, is64: bool): Layout {
    if form == 0x19 then Present
    else if form == 0x21 then Implied
    else if form in {0x0b, 0x11, 0x0c} then Number(1)
    else if form in {0x05, 0x12} then Number(2)
    else if form in {0x06, 0x13} then Number(4)
    else if form in {0x01, 0x07, 0x14, 0x20} then Number(8)
    else if form in {0x17, 0x10} then Number(if is64 then 8 else 4)
    else if form in {0x25, 0x29} then Remote(1)
    else if form in {0x26, 0x2a} then Remote(2)
    else if form in {0x27, 0x2b} then Remote(3)
    else if form in {0x28, 0x2c} then Remote(4)
    else if form in {0x0e, 0x1f} then Remote(if is64 then 8 else 4)
    else if form == 0x1e then Raw(16)
    else if form in {0x0f, 0x15} then Leb
    else if form == 0x0d then SignedLeb
    else if form in {0x1a, 0x1b, 0x22, 0x23} then RemoteLeb
    else if form == 0x0a then Counted(1)
    else if form == 0x03 then Counted(2)
    else if form == 0x04 then Counted(4)
    else if form in {0x09, 0x18} then CountedLeb
    else if form == 0x08 then Terminated
    else if form == 0x16 then Indirect
    else Unknown
  }

  /** A value: a 64-bit number, bytes, or the place of one in another section. */
  datatype AttrValue = Num(n: nat) | Data(b: seq<Byte>) | Elsewhere(n: nat)

  /** The form that was used in the end, the value, and where it ends; or an exception. */
  datatype Value = NoValue | Value(form: nat, value: AttrValue, end: nat)

  function NulEnd(s: seq<Byte>, p: nat): (r: Pos)
    ensures r.At? ==> p < r.p <= |s|
    decreases |s| - p
  {
    if p >= |s| then Bad else if s[p] == 0 then At(p + 1) else NulEnd(s, p + 1)
  }

  /** `readBytes`. */
  function BytesAt(s: seq<Byte>, p: nat, n: nat, form: nat): (r: Value)
    ensures r.Value? ==> r.end == p + n <= |s|
  {
    if p + n <= |s| then Value(form, Data(s[p..p + n]), p + n) else NoValue
  }

  /** `readAttribute`: c is the constant of the specification. */
  function FormAt(s: seq<Byte>, p: nat, form: nat, c: int, is64: bool): (r: Value)
    ensures r.Value? ==> p <= r.end <= |s|
    decreases |s| - p
  {
    match LayoutOf(form, is64)
    case Present => if p <= |s| then Value(form, Num(1), p) else NoValue
    case Implied => if p <= |s| then Value(form, Num(Mod(c, WORD)), p) else NoValue
    case Number(n) => if p + n <= |s| then Value(form, Num(Little(s[p..p + n])), p + n) else NoValue
    case Remote(n) => if p + n <= |s| then Value(form, Elsewhere(Little(s[p..p + n])), p + n) else NoValue
    case Raw(n) => BytesAt(s, p, n, form)
    case Leb => if LebEnd(s, p).At? then Value(form, Num(Uleb(s, p)), LebEnd(s, p).p) else NoValue
    case SignedLeb =>
      if LebEnd(s, p).At? then Value(form, Num(Mod(SignedGroups(s[p..LebEnd(s, p).p]), WORD)), LebEnd(s, p).p)
      else NoValue
    case RemoteLeb => if LebEnd(s, p).At? then Value(form, Elsewhere(Uleb(s, p)), LebEnd(s, p).p) else NoValue
    case Counted(k) => if p + k <= |s| then BytesAt(s, p + k, Little(s[p..p + k]), form) else NoValue
    case CountedLeb => if LebEnd(s, p).At? then BytesAt(s, LebEnd(s, p).p, Uleb(s, p), form) else NoValue
    case Terminated =>
      if NulEnd(s, p).At? then Value(form, Data(s[p..NulEnd(s, p).p - 1]), NulEnd(s, p).p) else NoValue
    case Indirect => if LebEnd(s, p).At? then FormAt(s, LebEnd(s, p).p, Uleb(s, p), c, is64) else NoValue
    case Unknown => NoValue
  }

  /** The same method, with the cursor and the number readers. */
  method ReadAttribute(s: seq<Byte>, p: nat, form: nat, c: int, is64: bool) returns (r: Value)
    requires p <= |s|
    ensures r == FormAt(s, p, form, c, is64)
    decreases |s| - p
  {
    hide LebEnd, Mod, Div, Little, Groups, SignedGroups, NulEnd;
    match LayoutOf(form, is64)
    case Leb =>
      var e, n := ReadUleb(s, p);
      return if e.Bad? then NoValue else Value(form, Num(n), e.p);
    case RemoteLeb =>
      var e, n := ReadUleb(s, p);
      return if e.Bad? then NoValue else Value(form, Elsewhere(n), e.p);
    case SignedLeb =>
      var e, n := ReadSleb(s, p);
      return if e.Bad? then NoValue else Value(form, Num(n), e.p);
    case CountedLeb =>
      var e, n := ReadUleb(s, p);
      return if e.Bad? then NoValue else BytesAt(s, e.p, n, form);
    case Indirect =>
      var e, f := ReadUleb(s, p);
      if e.Bad? { return NoValue; }
      r := ReadAttribute(s, e.p, f, c, is64);
    case _ =>
      r := FormAt(s, p, form, c, is64);
  }

  lemma {:induction false} NulInside(s: seq<Byte>, p: nat, b: seq<Byte>, k: nat)
    requires Holds(s, p, b) && NulEnd(b, k).At?
    ensures NulEnd(s, p + k) == At(p + NulEnd(b, k).p)
    decreases |b| - k
  {
    HoldsByte(s, p, b, k);
    if b[k] != 0 {
      NulInside(s, p, b, k + 1);
    }
  }

  /** A value moved up by p. */
  function Moved(v: Value, p: nat): Value {
    if v.NoValue? then NoValue else v.(end := v.end + p)
  }

  lemma BytesInside(s: seq<Byte>, p: nat, b: seq<Byte>, k: nat, n: nat, form: nat)
    requires Holds(s, p, b) && BytesAt(b, k, n, form).Value?
    ensures BytesAt(s, p + k, n, form) == Moved(BytesAt(b, k, n, form), p)
  {
    hide Holds;
    HoldsFits(s, p, b);
    SliceInside(s, p, b, k, n);
  }

  lemma FixedInside(s: seq<Byte>, p: nat, b: seq<Byte>, k: nat, form: nat, c: int, is64: bool)
    requires Holds(s, p, b) && FormAt(b, k, form, c, is64).Value?
    requires var l := LayoutOf(form, is64); l.Present? || l.Implied? || l.Number? || l.Remote? || l.Raw?
    ensures FormAt(s, p + k, form, c, is64) == Moved(FormAt(b, k, form, c, is64), p)
  {
    hide Little, Holds, LayoutOf, Mod, Div;
    HoldsFits(s, p, b);
    var l := LayoutOf(form, is64);
    if l.Number? || l.Remote? || l.Raw? {
      SliceInside(s, p, b, k, l.n);
    }
  }

  lemma LebFormInside(s: seq<Byte>, p: nat, b: seq<Byte>, k: nat, form: nat, c: int, is64: bool)
    requires Holds(s, p, b) && FormAt(b, k, form, c, is64).Value?
    requires var l := LayoutOf(form, is64); l.Leb? || l.SignedLeb? || l.RemoteLeb?
    ensures FormAt(s, p + k, form, c, is64) == Moved(FormAt(b, k, form, c, is64), p)
  {
    hide LebEnd, Uleb, Holds, LayoutOf, Mod, Div, SignedGroups;
    LebInside(s, p, b, k);
    LebBounds(b, k);
    SliceInside(s, p, b, k, LebEnd(b, k).p - k);
  }

  lemma CountedInside(s: seq<Byte>, p: nat, b: seq<Byte>, k: nat, form: nat, c: int, is64: bool)
    requires Holds(s, p, b) && FormAt(b, k, form, c, is64).Value?
    requires var l := LayoutOf(form, is64); l.Counted? || l.CountedLeb?
    ensures FormAt(s, p + k, form, c, is64) == Moved(FormAt(b, k, form, c, is64), p)
  {
    hide LebEnd, Uleb, Little, Holds, LayoutOf, Mod, Div, BytesAt;
    HoldsFits(s, p, b);
    var l := LayoutOf(form, is64);
    if l.Counted? {
      SliceInside(s, p, b, k, l.prefix);
      BytesInside(s, p, b, k + l.prefix, Little(b[k..k + l.prefix]), form);
    } else {
      LebInside(s, p, b, k);
      BytesInside(s, p, b, LebEnd(b, k).p, Uleb(b, k), form);
    }
  }

  lemma TextInside(s: seq<Byte>, p: nat, b: seq<Byte>, k: nat, form: nat, c: int, is64: bool)
    requires Holds(s, p, b) && FormAt(b, k, form, c, is64).Value? && LayoutOf(form, is64) == Terminated
    ensures FormAt(s, p + k, form, c, is64) == Moved(FormAt(b, k, form, c, is64), p)
  {
    hide NulEnd, Holds, LayoutOf, Mod, Div;
    NulInside(s, p, b, k);
    NulBounds(b, k);
    SliceInside(s, p, b, k, NulEnd(b, k).p - 1 - k);
  }

  /** A stored form stands for the value after it. */
  lemma IndirectAt(s: seq<Byte>, p: nat, form: nat, c: int, is64: bool)
    requires LayoutOf(form, is64) == Indirect
    ensures FormAt(s, p, form, c, is64) ==
      if LebEnd(s, p).At? then FormAt(s, LebEnd(s, p).p, Uleb(s, p), c, is64) else NoValue
  {
    hide LebEnd, Uleb, LayoutOf, Mod, Div, Little, NulEnd;
  }

  lemma UnknownAt(s: seq<Byte>, p: nat, form: nat, c: int, is64: bool)
    requires LayoutOf(form, is64) == Unknown
    ensures FormAt(s, p, form, c, is64) == NoValue
  {
    hide LayoutOf;
  }

  /** Reading a value inside its own bytes is reading it in place. */
  lemma {:induction false} FormInside(s: seq<Byte>, p: nat, b: seq<Byte>, k: nat, form: nat, c: int, is64: bool)
    requires Holds(s, p, b) && FormAt(b, k, form, c, is64).Value?
    ensures FormAt(s, p + k, form, c, is64) == Moved(FormAt(b, k, form, c, is64), p)
    decreases |b| - k
  {
    hide FormAt, LebEnd, Uleb, Holds, LayoutOf;
    match LayoutOf(form, is64)
    case Leb => LebFormInside(s, p, b, k, form, c, is64);
    case RemoteLeb => LebFormInside(s, p, b, k, form, c, is64);
    case SignedLeb => LebFormInside(s, p, b, k, form, c, is64);
    case Counted(_) => CountedInside(s, p, b, k, form, c, is64);
    case CountedLeb => CountedInside(s, p, b, k, form, c, is64);
    case Terminated => TextInside(s, p, b, k, form, c, is64);
    case Unknown => UnknownAt(b, k, form, c, is64);
    case Indirect =>
      IndirectAt(b, k, form, c, is64);
      IndirectAt(s, p + k, form, c, is64);
      LebInside(s, p, b, k);
      LebBounds(b, k);
      FormInside(s, p, b, LebEnd(b, k).p, Uleb(b, k), c, is64);
    case _ => FixedInside(s, p, b, k, form, c, is64);
  }

  lemma NulBounds(s: seq<Byte>, p: nat)
    ensures NulEnd(s, p).At? ==> p < NulEnd(s, p).p <= |s|
  {
  }

  lemma LebBounds(s: seq<Byte>, p: nat)
    ensures LebEnd(s, p).At? ==> p < LebEnd(s, p).p <= |s|
  {
  }

  // ----- Writing

  // The forms by the names the standard gives them.
  const DW_FORM_ADDR := 0x01
  const DW_FORM_BLOCK2 := 0x03
  const DW_FORM_BLOCK4 := 0x04
  const DW_FORM_DATA2 := 0x05
  const DW_FORM_DATA4 := 0x06
  const DW_FORM_DATA8 := 0x07
  const DW_FORM_STRING := 0x08
  const DW_FORM_BLOCK := 0x09
  const DW_FORM_BLOCK1 := 0x0a
  const DW_FORM_DATA1 := 0x0b
  const DW_FORM_FLAG := 0x0c
  const DW_FORM_SDATA := 0x0d
  const DW_FORM_STRP := 0x0e
  const DW_FORM_UDATA := 0x0f
  const DW_FORM_REF_ADDR := 0x10
  const DW_FORM_REF1 := 0x11
  const DW_FORM_REF2 := 0x12
  const DW_FORM_REF4 := 0x13
  const DW_FORM_REF8 := 0x14
  const DW_FORM_REF_UDATA := 0x15
  const DW_FORM_INDIRECT := 0x16
  const DW_FORM_SEC_OFFSET := 0x17
  const DW_FORM_EXPRLOC := 0x18
  const DW_FORM_FLAG_PRESENT := 0x19
  const DW_FORM_STRX := 0x1a
  const DW_FORM_ADDRX := 0x1b
  const DW_FORM_DATA16 := 0x1e
  const DW_FORM_LINE_STRP := 0x1f
  const DW_FORM_REF_SIG8 := 0x20
  const DW_FORM_IMPLICIT_CONST := 0x21
  const DW_FORM_LOCLISTX := 0x22
  const DW_FORM_RNGLISTX := 0x23
  const DW_FORM_STRX1 := 0x25
  const DW_FORM_STRX2 := 0x26
  const DW_FORM_STRX3 := 0x27
  const DW_FORM_STRX4 := 0x28
  const DW_FORM_ADDRX1 := 0x29
  const DW_FORM_ADDRX2 := 0x2a
  const DW_FORM_ADDRX3 := 0x2b
  const DW_FORM_ADDRX4 := 0x2c

  /** What a producer has to store under a form. */
  datatype Item =
    | Constant(n: nat)                  // numbers, addresses, flags, references, section offsets
    | SignedConstant(i: int)
    | Block(b: seq<Byte>)               // blocks, expressions, 16-byte data
    | Text(t: seq<Byte>)                // a string in place
    | Pointer(n: nat)                   // a place in another section
    | NothingStored                     // a present flag, or the constant of the specification
    | ByForm(form: nat, item: Item)     // the form is stored before the value

  /** How many bytes a form of fixed size takes, as the standard lists them. */
  function SizeOf(form: nat, is64: bool): nat {
    if form in {DW_FORM_DATA1, DW_FORM_REF1, DW_FORM_FLAG, DW_FORM_STRX1, DW_FORM_ADDRX1} then 1
    else if form in {DW_FORM_DATA2, DW_FORM_REF2, DW_FORM_STRX2, DW_FORM_ADDRX2} then 2
    else if form in {DW_FORM_STRX3, DW_FORM_ADDRX3} then 3
    else if form in {DW_FORM_DATA4, DW_FORM_REF4, DW_FORM_STRX4, DW_FORM_ADDRX4} then 4
    else if form in {DW_FORM_DATA8, DW_FORM_REF8, DW_FORM_REF_SIG8, DW_FORM_ADDR} then 8
    else if is64 then 8 else 4
  }

  function PrefixOf(form: nat): nat {
    if form == DW_FORM_BLOCK1 then 1 else if form == DW_FORM_BLOCK2 then 2 else 4
  }

  function Pow256(k: nat): nat {
    if k == 0 then 1 else 256 * Pow256(k - 1)
  }

  function LittleBytes(n: nat, k: nat): (b: seq<Byte>)
    ensures |b| == k
  {
    if k == 0 then [] else [n % 256] + LittleBytes(n / 256, k - 1)
  }

  predicate FixedNumber(form: nat) {
    form in {DW_FORM_DATA1, DW_FORM_DATA2, DW_FORM_DATA4, DW_FORM_DATA8, DW_FORM_REF1, DW_FORM_REF2, DW_FORM_REF4,
             DW_FORM_REF8, DW_FORM_REF_SIG8, DW_FORM_ADDR, DW_FORM_FLAG, DW_FORM_SEC_OFFSET, DW_FORM_REF_ADDR}
  }

  predicate FixedPointer(form: nat) {
    form in {DW_FORM_STRX1, DW_FORM_STRX2, DW_FORM_STRX3, DW_FORM_STRX4, DW_FORM_ADDRX1, DW_FORM_ADDRX2,
             DW_FORM_ADDRX3, DW_FORM_ADDRX4, DW_FORM_STRP, DW_FORM_LINE_STRP}
  }

  /** The item can be stored under the form. */
  predicate Fits(form: nat, item: Item, is64: bool)
    decreases item
  {
    match item
    case Constant(n) =>
      || (FixedNumber(form) && n < Pow256(SizeOf(form, is64)))
      || (form in {DW_FORM_UDATA, DW_FORM_REF_UDATA} && n < WORD)
    case SignedConstant(i) => form == DW_FORM_SDATA && FitsSigned64(i)
    case Block(b) =>
      || (form in {DW_FORM_BLOCK1, DW_FORM_BLOCK2, DW_FORM_BLOCK4} && |b| < Pow256(PrefixOf(form)))
      || (form in {DW_FORM_BLOCK, DW_FORM_EXPRLOC} && |b| < WORD)
      || (form == DW_FORM_DATA16 && |b| == 16)
    case Text(t) => form == DW_FORM_STRING && 0 !in t
    case Pointer(n) =>
      || (FixedPointer(form) && n < Pow256(SizeOf(form, is64)))
      || (form in {DW_FORM_STRX, DW_FORM_ADDRX, DW_FORM_RNGLISTX, DW_FORM_LOCLISTX} && n < WORD)
    case NothingStored => form in {DW_FORM_FLAG_PRESENT, DW_FORM_IMPLICIT_CONST}
    case ByForm(f, it) => form == DW_FORM_INDIRECT && f < WORD && Fits(f, it, is64)
  }

  function Encode(form: nat, item: Item, is64: bool): seq<Byte>
    decreases item
  {
    match item
    case Constant(n) => if FixedNumber(form) then LittleBytes(n, SizeOf(form, is64)) else EncodeUleb(n)
    case SignedConstant(i) => EncodeSleb(i)
    case Block(b) =>
      if form == DW_FORM_DATA16 then b
      else if form in {DW_FORM_BLOCK, DW_FORM_EXPRLOC} then EncodeUleb(|b|) + b
      else LittleBytes(|b|, PrefixOf(form)) + b
    case Text(t) => t + [0]
    case Pointer(n) => if FixedPointer(form) then LittleBytes(n, SizeOf(form, is64)) else EncodeUleb(n)
    case NothingStored => []
    case ByForm(f, it) => EncodeUleb(f) + Encode(f, it, is64)
  }

  /** What a reader should see; c is the constant of the specification. */
  function Seen(form: nat, item: Item, c: int): AttrValue
    decreases item
  {
    match item
    case Constant(n) => Num(n)
    case SignedConstant(i) => Num(Mod(i, WORD))
    case Block(b) => Data(b)
    case Text(t) => Data(t)
    case Pointer(n) => Elsewhere(n)
    case NothingStored => Num(if form == DW_FORM_FLAG_PRESENT then 1 else Mod(c, WORD))
    case ByForm(f, it) => Seen(f, it, c)
  }

  function FinalForm(form: nat, item: Item): nat
    decreases item
  {
    match item
    case ByForm(f, it) => FinalForm(f, it)
    case _ => form
  }

  // ----- Reading back

  lemma {:induction false} LittleBack(n: nat, k: nat)
    requires n < Pow256(k)
    ensures Little(LittleBytes(n, k)) == n
    decreases k
  {
    if k > 0 {
      LittleBack(n / 256, k - 1);
      assert LittleBytes(n, k)[1..] == LittleBytes(n / 256, k - 1);
    }
  }

  lemma NumberWritten(s: seq<Byte>, p: nat, n: nat, k: nat)
    requires n < Pow256(k) && Holds(s, p, LittleBytes(n, k))
    ensures p + k <= |s| && Little(s[p..p + k]) == n
  {
    hide Holds, Little, LittleBytes;
    HeldSlice(s, p, LittleBytes(n, k));
    LittleBack(n, k);
  }

  /** The layouts the writer's names stand for. */
  lemma NumberLayout(form: nat, is64: bool)
    requires FixedNumber(form)
    ensures LayoutOf(form, is64) == Number(SizeOf(form, is64))
  {
  }

  lemma PointerLayout(form: nat, is64: bool)
    requires FixedPointer(form)
    ensures LayoutOf(form, is64) == Remote(SizeOf(form, is64))
  {
  }

  lemma BlockLayout(form: nat, is64: bool)
    ensures form in {DW_FORM_BLOCK1, DW_FORM_BLOCK2, DW_FORM_BLOCK4} ==> LayoutOf(form, is64) == Counted(PrefixOf(form))
    ensures form in {DW_FORM_BLOCK, DW_FORM_EXPRLOC} ==> LayoutOf(form, is64) == CountedLeb
    ensures form == DW_FORM_DATA16 ==> LayoutOf(form, is64) == Raw(16)
  {
  }

  lemma OtherLayouts(form: nat, is64: bool)
    ensures form in {DW_FORM_UDATA, DW_FORM_REF_UDATA} ==> !FixedNumber(form) && LayoutOf(form, is64) == Leb
    ensures form in {DW_FORM_STRX, DW_FORM_ADDRX, DW_FORM_RNGLISTX, DW_FORM_LOCLISTX} ==>
      !FixedPointer(form) && LayoutOf(form, is64) == RemoteLeb
    ensures form == DW_FORM_SDATA ==> LayoutOf(form, is64) == SignedLeb
    ensures form == DW_FORM_STRING ==> LayoutOf(form, is64) == Terminated
    ensures form == DW_FORM_FLAG_PRESENT ==> LayoutOf(form, is64) == Present
    ensures form == DW_FORM_IMPLICIT_CONST ==> LayoutOf(form, is64) == Implied
    ensures form == DW_FORM_INDIRECT ==> LayoutOf(form, is64) == Indirect
  {
  }

  lemma RawWritten(s: seq<Byte>, p: nat, form: nat, b: seq<Byte>, c: int, is64: bool)
    requires form == DW_FORM_DATA16 && |b| == 16 && Holds(s, p, b)
    ensures FormAt(s, p, form, c, is64) == Value(form, Data(b), p + 16)
  {
    hide Holds, LayoutOf, Mod, Div;
    BlockLayout(form, is64);
    HeldSlice(s, p, b);
  }

  lemma LebBlockWritten(s: seq<Byte>, p: nat, form: nat, b: seq<Byte>, c: int, is64: bool)
    requires form in {DW_FORM_BLOCK, DW_FORM_EXPRLOC} && |b| < WORD && Holds(s, p, EncodeUleb(|b|) + b)
    ensures FormAt(s, p, form, c, is64) == Value(form, Data(b), p + |EncodeUleb(|b|) + b|)
  {
    hide Holds, LebEnd, Uleb, EncodeUleb, LayoutOf, Mod, Div;
    BlockLayout(form, is64);
    var n := EncodeUleb(|b|);
    HoldsParts(s, p, n, b);
    WrittenUleb(s, p, |b|);
    HeldSlice(s, p + |n|, b);
  }

  lemma SizedBlockWritten(s: seq<Byte>, p: nat, form: nat, b: seq<Byte>, c: int, is64: bool)
    requires form in {DW_FORM_BLOCK1, DW_FORM_BLOCK2, DW_FORM_BLOCK4} && |b| < Pow256(PrefixOf(form))
    requires Holds(s, p, LittleBytes(|b|, PrefixOf(form)) + b)
    ensures FormAt(s, p, form, c, is64) == Value(form, Data(b), p + PrefixOf(form) + |b|)
  {
    hide Holds, Little, LittleBytes, LayoutOf, Pow256, FormAt;
    BlockLayout(form, is64);
    var k := PrefixOf(form);
    HoldsParts(s, p, LittleBytes(|b|, k), b);
    NumberWritten(s, p, |b|, k);
    HeldSlice(s, p + k, b);
    CountedAt(s, p, form, k, c, is64);
  }

  lemma CountedAt(s: seq<Byte>, p: nat, form: nat, k: nat, c: int, is64: bool)
    requires LayoutOf(form, is64) == Counted(k) && p + k <= |s|
    ensures FormAt(s, p, form, c, is64) == BytesAt(s, p + k, Little(s[p..p + k]), form)
  {
    hide LayoutOf, Little, BytesAt, LebEnd, NulEnd, Mod, Div;
  }

  lemma BlockWritten(s: seq<Byte>, p: nat, form: nat, b: seq<Byte>, c: int, is64: bool)
    requires Fits(form, Block(b), is64) && Holds(s, p, Encode(form, Block(b), is64))
    ensures FormAt(s, p, form, c, is64) == Value(form, Data(b), p + |Encode(form, Block(b), is64)|)
  {
    hide Holds, FormAt, EncodeUleb, LittleBytes, Pow256;
    if form == DW_FORM_DATA16 {
      RawWritten(s, p, form, b, c, is64);
    } else if form in {DW_FORM_BLOCK, DW_FORM_EXPRLOC} {
      LebBlockWritten(s, p, form, b, c, is64);
    } else {
      SizedBlockWritten(s, p, form, b, c, is64);
    }
  }

  lemma {:induction false} TextEnd(s: seq<Byte>, p: nat, t: seq<Byte>)
    requires Holds(s, p, t + [0]) && 0 !in t
    ensures NulEnd(s, p) == At(p + |t| + 1)
    decreases |t|
  {
    hide Holds;
    HoldsFits(s, p, t + [0]);
    HoldsByte(s, p, t + [0], 0);
    if |t| > 0 {
      assert t + [0] == [t[0]] + (t[1..] + [0]);
      HoldsParts(s, p, [t[0]], t[1..] + [0]);
      assert t[0] in t;
      TextEnd(s, p + 1, t[1..]);
    }
  }

  lemma TextWritten(s: seq<Byte>, p: nat, form: nat, t: seq<Byte>, c: int, is64: bool)
    requires form == DW_FORM_STRING && 0 !in t && Holds(s, p, t + [0])
    ensures FormAt(s, p, form, c, is64) == Value(form, Data(t), p + |t| + 1)
  {
    hide Holds, LayoutOf, NulEnd;
    OtherLayouts(form, is64);
    TextEnd(s, p, t);
    HoldsParts(s, p, t, [0]);
    HeldSlice(s, p, t);
    HoldsFits(s, p, t + [0]);
  }

  lemma ConstantWritten(s: seq<Byte>, p: nat, form: nat, item: Item, c: int, is64: bool)
    requires (item.Constant? || item.Pointer?) && Fits(form, item, is64) && Holds(s, p, Encode(form, item, is64))
    ensures FormAt(s, p, form, c, is64) == Value(form, Seen(form, item, c), p + |Encode(form, item, is64)|)
  {
    hide Holds, Little, LebEnd, Uleb, EncodeUleb, LittleBytes, LayoutOf, Pow256, Mod, Div, FixedNumber, FixedPointer;
    OtherLayouts(form, is64);
    if item.Constant? && FixedNumber(form) {
      NumberLayout(form, is64);
      NumberWritten(s, p, item.n, SizeOf(form, is64));
    } else if item.Pointer? && FixedPointer(form) {
      PointerLayout(form, is64);
      NumberWritten(s, p, item.n, SizeOf(form, is64));
    } else {
      WrittenUleb(s, p, item.n);
    }
  }

  lemma SignedWritten(s: seq<Byte>, p: nat, form: nat, i: int, c: int, is64: bool)
    requires form == DW_FORM_SDATA && FitsSigned64(i) && Holds(s, p, EncodeSleb(i))
    ensures FormAt(s, p, form, c, is64) == Value(form, Num(Mod(i, WORD)), p + |EncodeSleb(i)|)
  {
    hide Holds, LebEnd, EncodeSleb, SignedGroups, LayoutOf, Mod, Div;
    OtherLayouts(form, is64);
    EncodedSleb(i);
    EncodedInside(s, p, EncodeSleb(i));
  }

  lemma NothingWritten(s: seq<Byte>, p: nat, form: nat, c: int, is64: bool)
    requires form in {DW_FORM_FLAG_PRESENT, DW_FORM_IMPLICIT_CONST} && Holds(s, p, [])
    ensures FormAt(s, p, form, c, is64) == Value(form, Num(if form == DW_FORM_FLAG_PRESENT then 1 else Mod(c, WORD)), p)
  {
    hide Holds, LayoutOf, Mod, Div;
    OtherLayouts(form, is64);
    HoldsFits(s, p, []);
  }

  /** Every item stored under a form it fits is read back, wherever it lies, with where it ends. */
  lemma {:induction false} ItemWritten(s: seq<Byte>, p: nat, form: nat, item: Item, c: int, is64: bool)
    requires Fits(form, item, is64) && Holds(s, p, Encode(form, item, is64))
    ensures FormAt(s, p, form, c, is64) == Value(FinalForm(form, item), Seen(form, item, c), p + |Encode(form, item, is64)|)
    decreases item
  {
    hide FormAt, Holds, LebEnd, Uleb, EncodeUleb, EncodeSleb, LayoutOf, Mod, Div, Little, LittleBytes, FitsSigned64, Pow256;
    OtherLayouts(form, is64);
    match item
    case Constant(_) => ConstantWritten(s, p, form, item, c, is64);
    case Pointer(_) => ConstantWritten(s, p, form, item, c, is64);
    case SignedConstant(i) => SignedWritten(s, p, form, i, c, is64);
    case Block(b) => BlockWritten(s, p, form, b, c, is64);
    case Text(t) => TextWritten(s, p, form, t, c, is64);
    case NothingStored => NothingWritten(s, p, form, c, is64);
    case ByForm(f, it) =>
      IndirectAt(s, p, form, c, is64);
      HoldsParts(s, p, EncodeUleb(f), Encode(f, it, is64));
      WrittenUleb(s, p, f);
      ItemWritten(s, p + |EncodeUleb(f)|, f, it, c, is64);
  }
}
