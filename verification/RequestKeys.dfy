/**
 Key extraction skips only half of the request header, so that it decodes a message as if it began at the sequence
 number. This module settles that for no type with keys this always gives the key of the message.
 */
module RequestKeys {
  import opened Bytes
  import opened Types
  import opened Cdr
  import opened NativeMemory
  import opened Reach
  import opened WriterPaths
  import opened SizeWalk
  import opened CdrWriter
  import opened CdrReader
  import opened KeyReader
  import opened Keys
  import KP = KeyPaths

  // ---------------------------------------------------------------- the message that is misread

  /** A value whose numbers are zero and whose strings and sequences are empty. */
  predicate IsBlank(t: Type, v: Value)
    decreases t
  {
    match t
    case Prim(k) => v == VPrim(Zeros(k.CdrSizeOf()))
    case Str(_, _) => v == VStr([])
    case WStr(_, _) => v == VWStr([])
    case BoolVec(_, _) => v == VBools([])
    case Struct(ms, _) =>
      v.VStruct? && |v.fields| == |ms| && forall i :: 0 <= i < |ms| ==> IsBlank(ms[i].ty, v.fields[i])
    case Array(e, n) => v.VList? && |v.elems| == n && forall i :: 0 <= i < n ==> IsBlank(e, v.elems[i])
    case Sequence(e, _, _) => v == VList([])
  }

  /** The first member, from `i` on, that is part of the key; the number of members if there is none. */
  function FirstKey(t: Type, i: nat): (r: nat)
    requires t.Struct? && i <= |t.members|
    ensures i <= r <= |t.members| && (r < |t.members| ==> Selected(t, r, Key))
    ensures forall j :: i <= j < r ==> !Selected(t, j, Key)
    decreases |t.members| - i
  {
    if i == |t.members| || Selected(t, i, Key) then i else FirstKey(t, i + 1)
  }

  const ONE_UNIT: seq<Unit16> := [Unit16(0, 0)]

  /** A value that is blank except for the first number or length of its key. */
  predicate IsMarked(t: Type, v: Value)
    decreases t
  {
    match t
    case Prim(k) => v == VPrim(Ones(k.CdrSizeOf()))
    case Str(_, _) => v == VStr([])
    case WStr(_, _) => v == VWStr(ONE_UNIT)
    case BoolVec(_, _) => v == VBools([0])
    case Struct(ms, _) =>
      && v.VStruct? && |v.fields| == |ms|
      && forall i :: 0 <= i < |ms| ==>
           if i == FirstKey(t, 0) then IsMarked(ms[i].ty, v.fields[i]) else IsBlank(ms[i].ty, v.fields[i])
    case Array(e, n) =>
      && v.VList? && |v.elems| == n
      && forall i :: 0 <= i < n ==> if i == 0 then IsMarked(e, v.elems[i]) else IsBlank(e, v.elems[i])
    case Sequence(e, _, _) => v.VList? && |v.elems| == 1 && IsBlank(e, v.elems[0])
  }

  function Blank(t: Type): Value
    decreases t
  {
    match t
    case Prim(k) => VPrim(Zeros(k.CdrSizeOf()))
    case Str(_, _) => VStr([])
    case WStr(_, _) => VWStr([])
    case BoolVec(_, _) => VBools([])
    case Struct(ms, _) => VStruct(seq(|ms|, i requires 0 <= i < |ms| => Blank(ms[i].ty)))
    case Array(e, n) => VList(seq(n, i => Blank(e)))
    case Sequence(_, _, _) => VList([])
  }

  function Marked(t: Type): Value
    decreases t
  {
    match t
    case Prim(k) => VPrim(Ones(k.CdrSizeOf()))
    case Str(_, _) => VStr([])
    case WStr(_, _) => VWStr(ONE_UNIT)
    case BoolVec(_, _) => VBools([0])
    case Struct(ms, _) =>
      VStruct(seq(|ms|, i requires 0 <= i < |ms| => if i == FirstKey(t, 0) then Marked(ms[i].ty) else Blank(ms[i].ty)))
    case Array(e, n) => VList(seq(n, i => if i == 0 then Marked(e) else Blank(e)))
    case Sequence(e, _, _) => VList([Blank(e)])
  }

  lemma {:induction false} BlankIsBlank(t: Type)
    ensures IsBlank(t, Blank(t))
    decreases t
  {
    match t
    case Struct(ms, _) =>
      forall i | 0 <= i < |ms| ensures IsBlank(ms[i].ty, Blank(ms[i].ty)) { BlankIsBlank(ms[i].ty); }
    case Array(e, _) => BlankIsBlank(e);
    case _ =>
  }

  lemma {:induction false} MarkedIsMarked(t: Type)
    ensures IsMarked(t, Marked(t))
    decreases t
  {
    hide IsBlank, Blank, FirstKey;
    match t
    case Struct(ms, _) =>
      forall i | 0 <= i < |ms|
        ensures IsBlank(ms[i].ty, Blank(ms[i].ty)) && IsMarked(ms[i].ty, Marked(ms[i].ty))
      {
        BlankIsBlank(ms[i].ty);
        MarkedIsMarked(ms[i].ty);
      }
    case Array(e, _) => BlankIsBlank(e); MarkedIsMarked(e);
    case Sequence(e, _, _) => BlankIsBlank(e);
    case _ =>
  }

  lemma {:induction false} BlankTyped(t: Type, v: Value)
    requires IsBlank(t, v)
    ensures HasType(v, t, Sample)
    decreases t
  {
    match t
    case Struct(ms, _) =>
      forall i | 0 <= i < |ms| ensures HasType(v.fields[i], ms[i].ty, Sample) { BlankTyped(ms[i].ty, v.fields[i]); }
    case Array(e, n) =>
      forall i | 0 <= i < n ensures HasType(v.elems[i], e, Sample) { BlankTyped(e, v.elems[i]); }
    case _ =>
  }

  lemma {:induction false} MarkedTyped(t: Type, v: Value)
    requires IsMarked(t, v)
    ensures HasType(v, t, Sample)
    decreases t
  {
    hide IsBlank, FirstKey;
    match t
    case Struct(ms, _) =>
      forall i | 0 <= i < |ms|
        ensures HasType(v.fields[i], ms[i].ty, Sample)
      {
        if i == FirstKey(t, 0) {
          MarkedTyped(ms[i].ty, v.fields[i]);
        } else {
          BlankTyped(ms[i].ty, v.fields[i]);
        }
      }
    case Array(e, n) =>
      forall i | 0 <= i < n
        ensures HasType(v.elems[i], e, Sample)
      {
        if i == 0 {
          MarkedTyped(e, v.elems[i]);
        } else {
          BlankTyped(e, v.elems[i]);
        }
      }
    case Sequence(e, _, _) => BlankTyped(e, v.elems[0]);
    case _ =>
  }

  lemma {:induction false} CutBlank(t: Type, v: Value)
    requires IsBlank(t, v)
    ensures IsBlank(t, Cut(t, v, Sample, true))
    decreases t
  {
    hide CutMembers, CutElems;
    match t
    case Struct(ms, _) =>
      forall i | 0 <= i < |ms|
        ensures IsBlank(ms[i].ty, CutMembers(t, v.fields, |ms|, Sample, true)[i])
      {
        CutMemberAt(t, v.fields, |ms|, Sample, true, i);
        assert Selected(t, i, Sample);
        CutBlank(ms[i].ty, v.fields[i]);
      }
    case Array(e, n) =>
      forall i | 0 <= i < n
        ensures IsBlank(e, CutElems(e, v.elems, n, Sample, true)[i])
      {
        CutElemAt(e, v.elems, n, Sample, true, i);
        CutBlank(e, v.elems[i]);
      }
    case Sequence(e, _, _) => assert CutElems(e, [], 0, Sample, true) == [];
    case BoolVec(_, _) => assert AsBits([]) == [];
    case _ =>
  }

  lemma {:induction false} CutMarked(t: Type, v: Value)
    requires IsMarked(t, v)
    ensures IsMarked(t, Cut(t, v, Sample, true))
    decreases t
  {
    hide CutMembers, CutElems, IsBlank, FirstKey;
    match t
    case Struct(ms, _) =>
      forall i | 0 <= i < |ms|
        ensures var w := CutMembers(t, v.fields, |ms|, Sample, true)[i];
                if i == FirstKey(t, 0) then IsMarked(ms[i].ty, w) else IsBlank(ms[i].ty, w)
      {
        CutMemberAt(t, v.fields, |ms|, Sample, true, i);
        assert Selected(t, i, Sample);
        if i == FirstKey(t, 0) {
          CutMarked(ms[i].ty, v.fields[i]);
        } else {
          CutBlank(ms[i].ty, v.fields[i]);
        }
      }
    case Array(e, n) =>
      forall i | 0 <= i < n
        ensures var w := CutElems(e, v.elems, n, Sample, true)[i]; if i == 0 then IsMarked(e, w) else IsBlank(e, w)
      {
        CutElemAt(e, v.elems, n, Sample, true, i);
        if i == 0 {
          CutMarked(e, v.elems[i]);
        } else {
          CutBlank(e, v.elems[i]);
        }
      }
    case Sequence(e, _, _) =>
      CutElemAt(e, v.elems, 1, Sample, true, 0);
      CutBlank(e, v.elems[0]);
    case BoolVec(_, _) => assert AsBits([0]) == [0];
    case _ =>
  }

  // ---------------------------------------------------------------- reading eight zeros early

  /** Eight zeros at offset `p`. */
  ghost predicate Window(s: seq<Byte>, p: nat) {
    p + 8 <= |s| && forall i :: p <= i < p + 8 ==> s[i] == 0
  }

  lemma SamePad(p: nat, w: nat)
    requires IsAlign(w)
    ensures Pad(p + 8, w) == Pad(p, w)
  {
    if w == 1 {} else if w == 2 {} else if w == 4 {} else {}
  }

  /** Eight zeros followed by `n` more: everything in the first `n` is zero, and eight zeros follow. */
  lemma WindowMoves(s: seq<Byte>, p: nat, n: nat)
    requires Window(s, p) && At(s, p + 8, Zeros(n))
    ensures Window(s, p + n) && forall i :: p <= i < p + n ==> s[i] == 0
  {
    forall i | p + 8 <= i < p + 8 + n
      ensures s[i] == 0
    {
      assert Zeros(n)[i - (p + 8)] == s[p + 8 + (i - (p + 8))];
    }
  }

  /** Behind padding alone, everything up to eight bytes further is zero. */
  lemma ZeroSlice(s: seq<Byte>, p: nat, w: nat, n: nat)
    requires IsAlign(w) && n <= 8 && Window(s, p) && At(s, p + 8, Zeros(Pad(p + 8, w)))
    ensures p + Pad(p, w) + n <= |s| && Slice(s, p + Pad(p, w), n) == Zeros(n)
  {
    SamePad(p, w);
    WindowMoves(s, p, Pad(p, w));
  }

  lemma ZeroWord(s: seq<Byte>, p: nat, e: Endian)
    requires Window(s, p) && At(s, p + 8, Zeros(Pad(p + 8, 4)))
    ensures DecU32(s, p, e) == GoodWord(0, p + Pad(p, 4) + 4)
  {
    ZeroSlice(s, p, 4, 4);
    assert InOrder(Zeros(4), e) == Zeros(4);
  }

  lemma CountAt(s: seq<Byte>, p: nat, n: nat, e: Endian, rest: seq<Byte>)
    requires At(s, p, EncU32(n, p, e) + rest)
    ensures At(s, p, Zeros(Pad(p, 4)))
  {
    AtSplit(s, p, EncU32(n, p, e), rest);
    AtSplit(s, p, Zeros(Pad(p, 4)), U32(n, e));
  }

  lemma ZeroCount(p: nat, e: Endian)
    ensures EncU32(0, p, e) == Zeros(Pad(p, 4) + 4)
  {
    assert InOrder(Numeral32(0), e) == Zeros(4);
  }

  /**
   Decoding a blank value eight zeros early fails, or gets past it with eight zeros in between again.
   */
  lemma {:induction false} BlankEarly(t: Type, v: Value, s: seq<Byte>, p: nat, o: Orders)
    requires IsBlank(t, v) && Window(s, p) && At(s, p + 8, Enc(t, v, p + 8, o, Sample))
    ensures var r := Dec(t, s, p, o, Sample);
            r.Good? ==> r.end == p + |Enc(t, v, p + 8, o, Sample)| && Window(s, r.end)
    decreases t, 1, 0
  {
    hide At, Window, Pad, EncU32, DecU32, EncMembers, DecMembers, EncElems, DecElems, Slice, Zeros, WideBytes, UnitsOf;
    match t
    case Prim(k) =>
      assert InOrder(Zeros(k.CdrSizeOf()), o.num) == Zeros(k.CdrSizeOf()) by { ReverseZeros(k.CdrSizeOf()); }
      BlankPrim(s, p, k.CdrSizeOf());
    case Struct(ms, _) => BlankMembersEarly(t, v.fields, |ms|, s, p, o);
    case Array(e, n) => BlankElemsEarly(e, v.elems, n, s, p, o);
    case Sequence(e, _, _) =>
      NoElems(e, p + 8 + |EncU32(0, p + 8, o.num)|, s, o);
      NoElems(e, p + |EncU32(0, p + 8, o.num)|, s, o);
      BlankCount(s, p, o.num, EncU32(0, p + 8, o.num) + []);
    case Str(_, _) =>
      assert EncU32(1, p + 8, o.num) + [] + [0] == EncU32(1, p + 8, o.num) + [0];
      CountAt(s, p + 8, 1, o.num, [0]);
      ZeroWord(s, p, o.num);
    case _ => BlankCount(s, p, o.num, Enc(t, v, p + 8, o, Sample));
  }

  lemma ReverseZeros(n: nat)
    ensures Reverse(Zeros(n)) == Zeros(n)
  {
  }

  lemma NoElems(e: Type, x: nat, s: seq<Byte>, o: Orders)
    ensures EncElems(e, [], 0, x, o, Sample) == []
    ensures x <= |s| ==> DecElems(e, 0, s, x, o, Sample) == GoodSeq([], x)
  {
  }

  lemma BlankPrim(s: seq<Byte>, p: nat, w: nat)
    requires IsAlign(w) && Window(s, p) && At(s, p + 8, Zeros(Pad(p + 8, w)) + Zeros(w))
    ensures Window(s, p + Pad(p, w) + w) && |Zeros(Pad(p + 8, w)) + Zeros(w)| == Pad(p, w) + w
  {
    SamePad(p, w);
    assert Zeros(Pad(p + 8, w)) + Zeros(w) == Zeros(Pad(p, w) + w);
    WindowMoves(s, p, Pad(p, w) + w);
  }

  lemma BlankCount(s: seq<Byte>, p: nat, e: Endian, b: seq<Byte>)
    requires Window(s, p) && At(s, p + 8, b) && b == EncU32(0, p + 8, e) + []
    ensures DecU32(s, p, e) == GoodWord(0, p + |b|) && |b| == Pad(p, 4) + 4 && Window(s, p + |b|)
  {
    CountAt(s, p + 8, 0, e, []);
    ZeroWord(s, p, e);
    ZeroCount(p + 8, e);
    SamePad(p, 4);
    assert b == Zeros(Pad(p, 4) + 4);
    WindowMoves(s, p, |b|);
  }

  lemma {:induction false} BlankMembersEarly(t: Type, vs: seq<Value>, n: nat, s: seq<Byte>, p: nat, o: Orders)
    requires t.Struct? && n <= |t.members| && n <= |vs|
    requires forall i :: 0 <= i < n ==> IsBlank(t.members[i].ty, vs[i])
    requires Window(s, p) && At(s, p + 8, EncMembers(t, vs, n, p + 8, o, Sample))
    ensures var r := DecMembers(t, n, s, p, o, Sample);
            r.GoodSeq? ==> r.end == p + |EncMembers(t, vs, n, p + 8, o, Sample)| && Window(s, r.end)
    decreases t, 0, n
  {
    hide Enc, Dec, At, IsBlank, Window;
    WindowInside(s, p);
    if n > 0 {
      assert Selected(t, n - 1, Sample);
      SplitMembers(t, vs, n, s, p + 8, o, Sample);
      BlankMembersEarly(t, vs, n - 1, s, p, o);
      var r := DecMembers(t, n - 1, s, p, o, Sample);
      if r.GoodSeq? {
        BlankEarly(t.members[n - 1].ty, vs[n - 1], s, r.end, o);
      }
    }
  }

  lemma WindowInside(s: seq<Byte>, p: nat)
    requires Window(s, p)
    ensures p + 8 <= |s|
  {
  }

  lemma {:induction false} BlankElemsEarly(e: Type, vs: seq<Value>, n: nat, s: seq<Byte>, p: nat, o: Orders)
    requires n <= |vs| && forall i :: 0 <= i < n ==> IsBlank(e, vs[i])
    requires Window(s, p) && At(s, p + 8, EncElems(e, vs, n, p + 8, o, Sample))
    ensures var r := DecElems(e, n, s, p, o, Sample);
            r.GoodSeq? ==> r.end == p + |EncElems(e, vs, n, p + 8, o, Sample)| && Window(s, r.end)
    decreases e, 2, n
  {
    hide Enc, Dec, At, IsBlank, Window;
    WindowInside(s, p);
    if n > 0 {
      SplitElems(e, vs, n, s, p + 8, o, Sample);
      BlankElemsEarly(e, vs, n - 1, s, p, o);
      var r := DecElems(e, n - 1, s, p, o, Sample);
      if r.GoodSeq? {
        BlankEarly(e, vs[n - 1], s, r.end, o);
      }
    }
  }

  // ---------------------------------------------------------------- the marked part is missed

  /** Different counts show in their encodings, whatever follows. */
  lemma CountsDiffer(n: nat, dst: nat, e: Endian, x: seq<Byte>, y: seq<Byte>)
    requires 0 < n <= UINT32_MAX
    ensures Differ(EncU32(0, dst, e) + x, EncU32(n, dst, e) + y)
  {
    hide U32Of;
    var a, b := U32(0, e), U32(n, e);
    U32RoundTrip(0, e);
    U32RoundTrip(n, e);
    assert a != b;
    var i :| 0 <= i < 4 && a[i] != b[i];
    var p := Pad(dst, 4);
    assert (EncU32(0, dst, e) + x)[p + i] == a[i] && (EncU32(n, dst, e) + y)[p + i] == b[i];
  }

  lemma NumbersDiffer(w: nat, dst: nat, e: Endian)
    requires IsAlign(w)
    ensures Differ(Zeros(Pad(dst, w)) + InOrder(Zeros(w), e), Zeros(Pad(dst, w)) + InOrder(Ones(w), e))
  {
    var p := Pad(dst, w);
    assert (Zeros(p) + InOrder(Zeros(w), e))[p] == 0 && (Zeros(p) + InOrder(Ones(w), e))[p] == 1;
  }

  /**
   Decoding a marked value eight zeros early fails, or gives a value whose key is encoded differently.
   */
  lemma {:induction false} MarkedEarly(
    t: Type, v: Value, s: seq<Byte>, p: nat, o: Orders, dst: nat, o': Orders)
    requires WellFormed(t) && IsMarked(t, v) && Window(s, p) && At(s, p + 8, Enc(t, v, p + 8, o, Sample))
    ensures var r := Dec(t, s, p, o, Sample);
            r.Good? ==> Differ(Enc(t, r.v, dst, o', Key), Enc(t, v, dst, o', Key))
    decreases t, 1, 0
  {
    hide At, Window, Pad, EncU32, DecU32, EncMembers, DecMembers, EncElems, DecElems, Slice, Zeros, WideBytes, UnitsOf,
      Differ, IsBlank, WellFormed;
    match t
    case Prim(k) =>
      AtSplit(s, p + 8, Zeros(Pad(p + 8, k.CdrSizeOf())), InOrder(v.raw, o.num));
      ZeroSlice(s, p, k.CdrSizeOf(), k.CdrSizeOf());
      ReverseZeros(k.CdrSizeOf());
      NumbersDiffer(k.CdrSizeOf(), dst, o'.num);
    case Struct(ms, _) => MarkedStructEarly(t, v, s, p, o, dst, o');
    case Array(e, n) => MarkedArrayEarly(t, v, s, p, o, dst, o');
    case Sequence(e, _, _) =>
      var x := p + 8 + |EncU32(1, p + 8, o.num)|;
      CountAt(s, p + 8, 1, o.num, EncElems(e, v.elems, 1, x, o, Sample));
      ZeroWord(s, p, o.num);
      NoElems(e, p + Pad(p, 4) + 4, s, o);
      CountsDiffer(1, dst, o'.num, EncElems(e, [], 0, dst + |EncU32(0, dst, o'.num)|, o', Key),
        EncElems(e, v.elems, 1, dst + |EncU32(1, dst, o'.num)|, o', Key));
    case Str(_, _) =>
      assert EncU32(1, p + 8, o.num) + [] + [0] == EncU32(1, p + 8, o.num) + [0];
      CountAt(s, p + 8, 1, o.num, [0]);
      ZeroWord(s, p, o.num);
    case WStr(_, _) =>
      CountAt(s, p + 8, 2, o.num, WideBytes(v.units, o.wide));
      ZeroWord(s, p, o.num);
      CountsDiffer(2, dst, o'.num, WideBytes([], o'.wide), WideBytes(v.units, o'.wide));
    case BoolVec(_, _) =>
      CountAt(s, p + 8, 1, o.num, v.flags);
      ZeroWord(s, p, o.num);
      CountsDiffer(1, dst, o'.num, [], v.flags);
  }

  lemma {:induction false} MarkedArrayEarly(
    t: Type, v: Value, s: seq<Byte>, p: nat, o: Orders, dst: nat, o': Orders)
    requires t.Array? && WellFormed(t)
    requires IsMarked(t, v) && Window(s, p) && At(s, p + 8, Enc(t, v, p + 8, o, Sample))
    ensures var r := Dec(t, s, p, o, Sample);
            r.Good? ==> Differ(Enc(t, r.v, dst, o', Key), Enc(t, v, dst, o', Key))
    decreases t, 0, 0
  {
    hide At, Window, Differ, IsBlank, WellFormed, EncElems, DecElems;
    WellFormedBelow(t);
    WellFormedArray(t);
    var e, n := t.elem, t.count;
    FirstElemAt(e, v.elems, n, s, p + 8, o);
    MarkedEarly(e, v.elems[0], s, p, o, dst, o');
    var r := DecElems(e, n, s, p, o, Sample);
    if r.GoodSeq? {
      FirstElemDecoded(e, n, s, p, o);
      EncElemsFirst(e, r.vs, n, dst, o');
      EncElemsFirst(e, v.elems, n, dst, o');
      DifferLonger(Enc(e, r.vs[0], dst, o', Key), Enc(e, v.elems[0], dst, o', Key),
        EncElems(e, r.vs, n, dst, o', Key), EncElems(e, v.elems, n, dst, o', Key));
    }
  }

  lemma WellFormedArray(t: Type)
    requires t.Array? && WellFormed(t)
    ensures t.count > 0
  {
  }

  lemma {:induction false} FirstElemAt(e: Type, vs: seq<Value>, n: nat, s: seq<Byte>, off: nat, o: Orders)
    requires 0 < n <= |vs| && At(s, off, EncElems(e, vs, n, off, o, Sample))
    ensures off <= |s| && At(s, off, Enc(e, vs[0], off, o, Sample))
    decreases n
  {
    hide Enc, At;
    SplitElems(e, vs, n, s, off, o, Sample);
    if n > 1 {
      FirstElemAt(e, vs, n - 1, s, off, o);
    } else {
      assert EncElems(e, vs, 0, off, o, Sample) == [];
      AtInside(s, off, Enc(e, vs[0], off, o, Sample));
    }
  }

  lemma AtInside(s: seq<Byte>, off: nat, b: seq<Byte>)
    requires At(s, off, b)
    ensures off <= |s|
  {
  }

  lemma {:induction false} FirstElemDecoded(e: Type, n: nat, s: seq<Byte>, off: nat, o: Orders)
    requires 0 < n && off <= |s| && DecElems(e, n, s, off, o, Sample).GoodSeq?
    ensures var d := Dec(e, s, off, o, Sample); d.Good? && DecElems(e, n, s, off, o, Sample).vs[0] == d.v
    decreases n
  {
    hide Dec;
    if n > 1 {
      FirstElemDecoded(e, n - 1, s, off, o);
    } else {
      assert DecElems(e, 0, s, off, o, Sample) == GoodSeq([], off);
    }
  }

  lemma {:induction false} EncElemsFirst(e: Type, vs: seq<Value>, n: nat, dst: nat, o: Orders)
    requires 0 < n <= |vs|
    ensures Enc(e, vs[0], dst, o, Key) <= EncElems(e, vs, n, dst, o, Key)
    decreases n
  {
    hide Enc;
    if n > 1 {
      EncElemsFirst(e, vs, n - 1, dst, o);
    } else {
      assert EncElems(e, vs, 0, dst, o, Key) == [];
      assert [] + Enc(e, vs[0], dst, o, Key) == Enc(e, vs[0], dst, o, Key);
    }
  }

  lemma {:induction false} MarkedStructEarly(
    t: Type, v: Value, s: seq<Byte>, p: nat, o: Orders, dst: nat, o': Orders)
    requires t.Struct? && WellFormed(t)
    requires IsMarked(t, v) && Window(s, p) && At(s, p + 8, Enc(t, v, p + 8, o, Sample))
    ensures var r := Dec(t, s, p, o, Sample);
            r.Good? ==> Differ(Enc(t, r.v, dst, o', Key), Enc(t, v, dst, o', Key))
    decreases t, 0, 0
  {
    hide At, Window, Differ, IsBlank, WellFormed, EncMembers, DecMembers, Selected, FirstKey;
    WellFormedBelow(t);
    var n, k := |t.members|, FirstKey(t, 0);
    KeyMemberExists(t);
    WindowInside(s, p);
    MemberAt(t, v.fields, n, k, s, p + 8, o);
    var before := EncMembers(t, v.fields, k, p + 8, o, Sample);
    BlankMembersEarly(t, v.fields, k, s, p, o);
    var r := DecMembers(t, n, s, p, o, Sample);
    if r.GoodSeq? {
      MemberDecoded(t, n, k, s, p, o);
      var q := DecMembers(t, k, s, p, o, Sample);
      var ty := t.members[k].ty;
      MarkedEarly(ty, v.fields[k], s, q.end, o, dst, o');
      EncMembersFirst(t, r.vs, n, k, dst, o');
      EncMembersFirst(t, v.fields, n, k, dst, o');
      DifferLonger(Enc(ty, r.vs[k], dst, o', Key), Enc(ty, v.fields[k], dst, o', Key),
        EncMembers(t, r.vs, n, dst, o', Key), EncMembers(t, v.fields, n, dst, o', Key));
    }
  }

  lemma KeyMemberExists(t: Type)
    requires t.Struct? && WellFormed(t)
    ensures FirstKey(t, 0) < |t.members| && Selected(t, FirstKey(t, 0), Key)
  {
    SomeSelected(t, Key);
    var i :| 0 <= i < |t.members| && Selected(t, i, Key);
  }

  lemma {:induction false} MemberAt(
    t: Type, vs: seq<Value>, n: nat, k: nat, s: seq<Byte>, off: nat, o: Orders)
    requires t.Struct? && k < n <= |t.members| && n <= |vs| && At(s, off, EncMembers(t, vs, n, off, o, Sample))
    ensures var b := EncMembers(t, vs, k, off, o, Sample);
            At(s, off, b) && At(s, off + |b|, Enc(t.members[k].ty, vs[k], off + |b|, o, Sample))
    decreases n
  {
    hide Enc, At, EncMembers;
    assert Selected(t, n - 1, Sample);
    SplitMembers(t, vs, n, s, off, o, Sample);
    if k < n - 1 {
      MemberAt(t, vs, n - 1, k, s, off, o);
    }
  }

  lemma {:induction false} MemberDecoded(t: Type, n: nat, k: nat, s: seq<Byte>, off: nat, o: Orders)
    requires t.Struct? && k < n <= |t.members| && off <= |s| && DecMembers(t, n, s, off, o, Sample).GoodSeq?
    ensures var q := DecMembers(t, k, s, off, o, Sample);
            && q.GoodSeq?
            && var d := Dec(t.members[k].ty, s, q.end, o, Sample);
               d.Good? && DecMembers(t, n, s, off, o, Sample).vs[k] == d.v
    decreases n
  {
    hide Dec;
    assert Selected(t, n - 1, Sample);
    if k < n - 1 {
      MemberDecoded(t, n - 1, k, s, off, o);
    }
  }

  lemma {:induction false} NothingBeforeKey(t: Type, vs: seq<Value>, k: nat, dst: nat, o: Orders)
    requires t.Struct? && k <= |t.members| && forall j :: 0 <= j < k ==> !Selected(t, j, Key)
    ensures EncMembers(t, vs, k, dst, o, Key) == []
  {
    hide Enc, Selected;
    if k > 0 {
      NothingBeforeKey(t, vs, k - 1, dst, o);
    }
  }

  lemma {:induction false} EncMembersFirst(t: Type, vs: seq<Value>, n: nat, k: nat, dst: nat, o: Orders)
    requires t.Struct? && k < n <= |t.members| && n <= |vs|
    requires Selected(t, k, Key) && forall j :: 0 <= j < k ==> !Selected(t, j, Key)
    ensures Enc(t.members[k].ty, vs[k], dst, o, Key) <= EncMembers(t, vs, n, dst, o, Key)
    decreases n
  {
    hide Enc, Selected;
    if k < n - 1 {
      EncMembersFirst(t, vs, n - 1, k, dst, o);
    } else {
      NothingBeforeKey(t, vs, k, dst, o);
      assert [] + Enc(t.members[k].ty, vs[k], dst, o, Key) == Enc(t.members[k].ty, vs[k], dst, o, Key);
    }
  }

  // ---------------------------------------------------------------- for every type with keys

  /** The key extracted from a serialized sample is the key of the message that was written. */
  ghost predicate SampleKeyRight(root: Type, variant: SampleOrRequest, src: Source, writer: Endian, reader: Endian)
    requires root.Struct?
  {
    var v := ValueOf(root, src.mem, src.addr, writer, Key);
    ExtractStream(root, variant, Stream(root, variant, src, writer, Sample), reader, false, Sample)
    == Some(EncodingHeader(reader) + Enc(root, v, 0, Both(reader), Key))
  }

  /**
   For every type with keys and any two byte orders, the key extracted from a sample is the key of the message,
   whatever the message, if and only if samples of the type are not requests.
   */
  lemma RequestKeyExact(root: Type, variant: SampleOrRequest, writer: Endian, reader: Endian)
    requires Keyed(root)
    ensures (forall src: Source | Sendable(root, src, writer, Sample) ::
               SampleKeyRight(root, variant, src, writer, reader))
            <==> variant.Plain?
  {
    hide SampleKeyRight, Sendable, WellFormed, KeySafe, HasKeys;
    if variant.Plain? {
      forall src: Source | Sendable(root, src, writer, Sample)
        ensures SampleKeyRight(root, variant, src, writer, reader)
      {
        PlainKeyRight(root, src, writer, reader);
      }
    } else {
      var src := RequestKeyWrong(root, Ones(8), writer, reader);
      assert !SampleKeyRight(root, variant, src, writer, reader);
    }
  }

  lemma PlainKeyRight(root: Type, src: Source, writer: Endian, reader: Endian)
    requires Keyed(root) && Sendable(root, src, writer, Sample)
    ensures SampleKeyRight(root, Plain, src, writer, reader)
  {
    hide ExtractStream, Stream, Sendable, Enc, ValueOf, WellFormed, KeySafe, HasKeys;
    KeyOfStream(root, src, writer, reader, false, Sample, []);
    var cdr := Stream(root, Plain, src, writer, Sample);
    assert cdr + [] == cdr;
  }

  /**
   A request of any client whose message is blank but for the first number or length of its key,
   and which carries number zero, as every 2^32-th request of a process does.
   */
  lemma RequestKeyWrong(root: Type, guid: seq<Byte>, writer: Endian, reader: Endian) returns (src: Source)
    requires Keyed(root) && |guid| == 8
    ensures src.guid == guid && src.seqno == Zeros(8)
    ensures Sendable(root, src, writer, Sample) && !SampleKeyRight(root, Request, src, writer, reader)
  {
    hide KP.Extract, Coded, Store, ValueOf, HasType, IsMarked, Cut, WellFormed, KeySafe, HasKeys, Dec, Enc, Stream;
    src := MarkedSource(root, guid, writer);
    var v := ValueOf(root, src.mem, src.addr, writer, Sample);
    MarkedTyped(root, v);
    var cdr := Stream(root, Request, src, writer, Sample);
    StreamParts(root, Request, src, writer, Sample);
    var s := cdr[4..];
    SeqnoWindow(s);
    CodedIsPlain(root, src.mem, src.addr, 16, writer, Sample);
    var x := KP.Orientation(reader, HeaderSwap(cdr[..4], reader), false);
    assert x.Src() == writer;
    KP.ExtractIsPlain(root, s, 8, 0, x, KP.FromSample);
    MarkedEarly(root, v, s, 8, Both(writer), 0, Both(reader));
    SampleKeyEnc(root, src.mem, src.addr, writer, 0, Both(reader));
    var early := Dec(root, s, 8, Both(writer), Sample);
    if early.Good? {
      var h := EncodingHeader(reader);
      ConcatEqual(h, Enc(root, early.v, 0, Both(reader), Key), h, Enc(root, v, 0, Both(reader), Key));
    }
  }

  lemma MarkedSource(root: Type, guid: seq<Byte>, writer: Endian) returns (src: Source)
    requires root.Struct? && WellFormed(root) && |guid| == 8
    ensures ValidSource(src) && src.guid == guid && src.seqno == Zeros(8)
    ensures IsMarked(root, ValueOf(root, src.mem, src.addr, writer, Sample))
  {
    hide Store, ValueOf, HasType, IsMarked, Cut, WellFormed, Marked;
    var v := Marked(root);
    MarkedIsMarked(root);
    MarkedTyped(root, v);
    src := Source(guid, Zeros(8), Store(root, EMPTY_MEM, 0, v, writer, Sample), 0);
    StoreValueOf(root, EMPTY_MEM, 0, v, writer, Sample);
    CutMarked(root, v);
  }

  lemma SeqnoWindow(s: seq<Byte>)
    requires |s| >= 16 && s[8..16] == Zeros(8)
    ensures Window(s, 8)
  {
    forall i | 8 <= i < 16
      ensures s[i] == 0
    {
      assert s[8..16][i - 8] == s[i];
    }
  }
}
