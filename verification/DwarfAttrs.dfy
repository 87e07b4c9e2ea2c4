/** The attributes of an entry (src/Common/Dwarf.cpp): walking specifications and values together. */
module DwarfAttrs {
  import opened DwarfRead
  import opened DwarfForms
  import opened DwarfAbbrev

  /** The end of all the attribute values a specification list asks for. */
  function AttrsEnd(specs: seq<Byte>, a: nat, s: seq<Byte>, p: nat, is64: bool): (r: Pos)
    ensures r.At? ==> p <= r.p
    ensures r.At? && p <= |s| ==> r.p <= |s|
    decreases |specs| - a
  {
    match SpecAt(specs, a)
    case NoSpec => Bad
    case Spec(name, form, c, next) =>
      if name == 0 && form == 0 then At(p)
      else
        var v := FormAt(s, p, form, c, is64);
        if v.NoValue? then Bad else AttrsEnd(specs, next, s, v.end, is64)
  }

  /** An attribute handed to a callback: its specification, with the form that was used in the end,
      where its value lies, and the value. */
  datatype Attr = Attr(spec: SpecText, at: nat, value: AttrValue)

  function AttrFrom(name: nat, c: int, p: nat, v: Value): Attr
    requires v.Value?
  {
    Attr(SpecText(name, v.form, c), p, v.value)
  }

  /** The attributes whose values can be read, in order. */
  function AttrsOf(specs: seq<Byte>, a: nat, s: seq<Byte>, p: nat, is64: bool): seq<Attr>
    decreases |specs| - a
  {
    match SpecAt(specs, a)
    case NoSpec => []
    case Spec(name, form, c, next) =>
      if name == 0 && form == 0 then []
      else
        var v := FormAt(s, p, form, c, is64);
        if v.NoValue? then [] else [AttrFrom(name, c, p, v)] + AttrsOf(specs, next, s, v.end, is64)
  }

  /** One attribute for each specification, in order, with the values from p to end one after the
      other. */
  ghost predicate Follow(attrs: seq<Attr>, list: seq<SpecText>, s: seq<Byte>, p: nat, end: Pos, is64: bool)
    decreases |attrs|
  {
    if |attrs| == 0 then |list| == 0 && end == At(p)
    else
      && |list| > 0
      && var v := FormAt(s, p, list[0].form, list[0].implicitConst, is64);
      && v.Value? && attrs[0] == AttrFrom(list[0].name, list[0].implicitConst, p, v)
      && Follow(attrs[1..], list[1..], s, v.end, end, is64)
  }

  lemma {:induction false} AttrsFollowSpecs(specs: seq<Byte>, a: nat, s: seq<Byte>, p: nat, is64: bool)
    requires AttrsEnd(specs, a, s, p, is64).At?
    ensures Follow(AttrsOf(specs, a, s, p, is64), SpecsAt(specs, a), s, p, AttrsEnd(specs, a, s, p, is64), is64)
    decreases |specs| - a
  {
    hide SpecAt, FormAt, Follow;
    SpecBounds(specs, a);
    var spec := SpecAt(specs, a);
    if spec.name != 0 || spec.form != 0 {
      var v := FormAt(s, p, spec.form, spec.implicitConst, is64);
      AttrsFollowSpecs(specs, spec.next, s, v.end, is64);
      FollowOne(SpecText(spec.name, spec.form, spec.implicitConst), AttrsOf(specs, spec.next, s, v.end, is64),
                SpecsAt(specs, spec.next), s, p, v, AttrsEnd(specs, a, s, p, is64), is64);
    } else {
      FollowNone(s, p, is64);
    }
  }

  lemma FollowNone(s: seq<Byte>, p: nat, is64: bool)
    ensures Follow([], [], s, p, At(p), is64)
  {
  }

  lemma FollowOne(spec: SpecText, more: seq<Attr>, rest: seq<SpecText>, s: seq<Byte>, p: nat, v: Value, end: Pos, is64: bool)
    requires v.Value? && Follow(more, rest, s, v.end, end, is64)
    requires FormAt(s, p, spec.form, spec.implicitConst, is64) == v
    ensures Follow([AttrFrom(spec.name, spec.implicitConst, p, v)] + more, [spec] + rest, s, p, end, is64)
  {
    hide FormAt;
    var attr := AttrFrom(spec.name, spec.implicitConst, p, v);
    assert ([attr] + more)[1..] == more && ([spec] + rest)[1..] == rest;
  }

  /** How a walk over attributes ends: refused by the callback, or at an offset or error. */
  datatype AttrEnd = Stopped | Ended(pos: Pos)

  /** `forEachAttribute`: attributes up to the first that f refuses. */
  method ForEachAttribute(specs: seq<Byte>, s: seq<Byte>, p: nat, is64: bool, f: Attr -> bool)
    returns (r: AttrEnd, visited: seq<Attr>)
    requires p <= |s|
    ensures visited == Taken(AttrsOf(specs, 0, s, p, is64), f)
    ensures r == if Stops(AttrsOf(specs, 0, s, p, is64), f) then Stopped else Ended(AttrsEnd(specs, 0, s, p, is64))
  {
    hide SpecAt, FormAt, Stops, Taken, AttrsOf, AttrsEnd;
    var a: nat, values: nat := 0, p;
    visited := [];
    ghost var all := AttrsOf(specs, 0, s, p, is64);
    while true
      invariant a <= |specs| && values <= |s| && AttrsEnd(specs, a, s, values, is64) == AttrsEnd(specs, 0, s, p, is64)
      invariant Taken(all, f) == visited + Taken(AttrsOf(specs, a, s, values, is64), f)
      invariant Stops(all, f) == Stops(AttrsOf(specs, a, s, values, is64), f)
      decreases |specs| - a
    {
      SpecBounds(specs, a);
      NoneTaken<Attr>(f);
      AttrStep(specs, a, s, values, is64);
      var spec := ReadAttributeSpec(specs, a);
      if spec.NoSpec? { return Ended(Bad), visited; }
      if spec.name == 0 && spec.form == 0 { return Ended(At(values)), visited; }
      var v := ReadAttribute(s, values, spec.form, spec.implicitConst, is64);
      if v.NoValue? { return Ended(Bad), visited; }
      var attr := AttrFrom(spec.name, spec.implicitConst, values, v);
      ghost var rest := AttrsOf(specs, spec.next, s, v.end, is64);
      OneTaken(attr, rest, f);
      assert visited + ([attr] + Taken(rest, f)) == (visited + [attr]) + Taken(rest, f);
      visited := visited + [attr];
      if !f(attr) { return Stopped, visited; }
      a, values := spec.next, v.end;
    }
  }

  lemma AttrStep(specs: seq<Byte>, a: nat, s: seq<Byte>, p: nat, is64: bool)
    ensures var spec, attrs, end := SpecAt(specs, a), AttrsOf(specs, a, s, p, is64), AttrsEnd(specs, a, s, p, is64);
      if spec.NoSpec? then attrs == [] && end == Bad
      else if spec.name == 0 && spec.form == 0 then attrs == [] && end == At(p)
      else
        var v := FormAt(s, p, spec.form, spec.implicitConst, is64);
        if v.NoValue? then attrs == [] && end == Bad
        else
          && attrs == [AttrFrom(spec.name, spec.implicitConst, p, v)] + AttrsOf(specs, spec.next, s, v.end, is64)
          && end == AttrsEnd(specs, spec.next, s, v.end, is64)
  {
    hide SpecAt, FormAt;
  }

  /** The items up to and including the first that f refuses. */
  function Taken<T>(items: seq<T>, f: T -> bool): seq<T> {
    if |items| == 0 then [] else if !f(items[0]) then [items[0]] else [items[0]] + Taken(items[1..], f)
  }

  predicate Stops<T>(items: seq<T>, f: T -> bool) {
    exists i :: 0 <= i < |items| && !f(items[i])
  }

  lemma NoneTaken<T>(f: T -> bool)
    ensures Taken([], f) == [] && !Stops([], f)
  {
  }

  lemma OneTaken<T>(x: T, rest: seq<T>, f: T -> bool)
    ensures Taken([x] + rest, f) == [x] + (if f(x) then Taken(rest, f) else [])
    ensures Stops([x] + rest, f) <==> !f(x) || Stops(rest, f)
  {
    var all := [x] + rest;
    assert all[1..] == rest;
    if Stops(rest, f) {
      var i :| 0 <= i < |rest| && !f(rest[i]);
      assert !f(all[i + 1]);
    }
    if !f(x) {
      assert !f(all[0]);
    }
    if Stops(all, f) && f(x) {
      var i :| 0 <= i < |all| && !f(all[i]);
      assert !f(rest[i - 1]);
    }
  }

  lemma SpecBounds(s: seq<Byte>, p: nat)
    ensures SpecAt(s, p).Spec? ==> p < SpecAt(s, p).next <= |s|
  {
  }

  lemma {:induction false} AttrsInside(specs: seq<Byte>, a: nat, s: seq<Byte>, p: nat, b: seq<Byte>, k: nat, is64: bool)
    requires Holds(s, p, b) && k <= |b| && AttrsEnd(specs, a, b, k, is64).At?
    ensures AttrsEnd(specs, a, s, p + k, is64) == At(p + AttrsEnd(specs, a, b, k, is64).p)
    decreases |specs| - a
  {
    hide SpecAt, FormAt;
    SpecBounds(specs, a);
    var spec := SpecAt(specs, a);
    if spec.name != 0 || spec.form != 0 {
      FormInside(s, p, b, k, spec.form, spec.implicitConst, is64);
      FormBounds(b, k, spec.form, spec.implicitConst, is64);
      AttrsInside(specs, spec.next, s, p, b, FormAt(b, k, spec.form, spec.implicitConst, is64).end, is64);
    }
  }

  lemma FormBounds(s: seq<Byte>, p: nat, form: nat, c: int, is64: bool)
    ensures var v := FormAt(s, p, form, c, is64); v.Value? ==> p <= v.end <= |s|
  {
  }

  // ----- Attributes as they are written

  /** A specification and what is stored for it. */
  datatype Stored = Stored(spec: SpecText, item: Item)
  {
    predicate Fine(is64: bool) {
      spec.Fine() && Fits(spec.form, item, is64)
    }

    function Bytes(is64: bool): seq<Byte> {
      Encode(spec.form, item, is64)
    }

    /** What a callback should get, for a value at p. */
    function Meant(p: nat): Attr {
      Attr(spec.(form := FinalForm(spec.form, item)), p, Seen(spec.form, item, spec.implicitConst))
    }
  }

  function SpecsOf(list: seq<Stored>): seq<SpecText> {
    if |list| == 0 then [] else [list[0].spec] + SpecsOf(list[1..])
  }

  function BytesOfItems(list: seq<Stored>, is64: bool): seq<Byte> {
    if |list| == 0 then [] else list[0].Bytes(is64) + BytesOfItems(list[1..], is64)
  }

  predicate AllFine(list: seq<Stored>, is64: bool) {
    |list| == 0 || (list[0].Fine(is64) && AllFine(list[1..], is64))
  }

  function MeantAttrs(list: seq<Stored>, p: nat, is64: bool): seq<Attr>
    decreases list
  {
    if |list| == 0 then [] else [list[0].Meant(p)] + MeantAttrs(list[1..], p + |list[0].Bytes(is64)|, is64)
  }

  /** A written list of attributes is read back, values, forms and end, wherever it lies. */
  lemma {:induction false} AttrsWritten(specs: seq<Byte>, a: nat, s: seq<Byte>, p: nat, list: seq<Stored>, is64: bool)
    requires AllFine(list, is64) && Holds(specs, a, EncodeSpecs(SpecsOf(list))) && Holds(s, p, BytesOfItems(list, is64))
    ensures AttrsOf(specs, a, s, p, is64) == MeantAttrs(list, p, is64)
    ensures AttrsEnd(specs, a, s, p, is64) == At(p + |BytesOfItems(list, is64)|)
    decreases list
  {
    hide SpecAt, FormAt, Holds, EncodeSpec, Fits, Encode, AttrsOf, AttrsEnd, Seen, FinalForm, SpecText.Fine;
    AttrStep(specs, a, s, p, is64);
    if |list| == 0 {
      ClosingWritten(specs, a);
    } else {
      var t, rest := list[0].spec, list[1..];
      assert SpecsOf(list) == [t] + SpecsOf(rest) && ([t] + SpecsOf(rest))[1..] == SpecsOf(rest);
      NamedSpec(t);
      HoldsParts(specs, a, EncodeSpec(t), EncodeSpecs(SpecsOf(rest)));
      SpecWritten(specs, a, t);
      HoldsParts(s, p, list[0].Bytes(is64), BytesOfItems(rest, is64));
      ItemWritten(s, p, t.form, list[0].item, t.implicitConst, is64);
      AttrsWritten(specs, a + |EncodeSpec(t)|, s, p + |list[0].Bytes(is64)|, rest, is64);
    }
  }

  lemma NamedSpec(t: SpecText)
    requires t.Fine()
    ensures t.name != 0 || t.form != 0
  {
  }
}
