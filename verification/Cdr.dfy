/** Plain CDR: the field-by-field aligned encoding of a value and its decoder, without any shortcut. */
module Cdr {
  import opened Bytes
  import opened Types

  /** Byte order of numbers, and of the characters of wide strings. */
  datatype Orders = Orders(num: Endian, wide: Endian)

  function Both(e: Endian): Orders {
    Orders(e, e)
  }

  datatype Unit16 = Unit16(lo: Byte, hi: Byte)

  /**
   A value free of byte order and memory layout. A primitive is its little-endian numeral.
   `VAbsent` stands where a walk in key mode leaves a member out.
   */
  datatype Value =
    | VPrim(raw: seq<Byte>)
    | VStr(chars: seq<Byte>)
    | VWStr(units: seq<Unit16>)
    | VBools(flags: seq<Byte>)
    | VStruct(fields: seq<Value>)
    | VList(elems: seq<Value>)
    | VAbsent

  /** `v` is a value of type `t` whose counts fit the 32-bit length words; members not selected are ignored. */
  predicate HasType(v: Value, t: Type, what: SampleOrKey)
    decreases t
  {
    match t
    case Prim(k) => v.VPrim? && |v.raw| == k.CdrSizeOf()
    case Str(_, _) => v.VStr? && |v.chars| + 1 <= UINT32_MAX
    case WStr(_, _) => v.VWStr? && 2 * |v.units| <= UINT32_MAX
    case BoolVec(_, _) => v.VBools? && |v.flags| <= UINT32_MAX
    case Struct(ms, _) =>
      && v.VStruct? && |v.fields| == |ms|
      && forall i :: 0 <= i < |ms| && Selected(t, i, what) ==> HasType(v.fields[i], ms[i].ty, what)
    case Array(e, n) =>
      && v.VList? && |v.elems| == n
      && forall i :: 0 <= i < n ==> HasType(v.elems[i], e, what)
    case Sequence(e, _, _) =>
      && v.VList? && |v.elems| <= UINT32_MAX
      && forall i :: 0 <= i < |v.elems| ==> HasType(v.elems[i], e, what)
  }

  // ---------------------------------------------------------------- encoding

  function WideBytes(units: seq<Unit16>, e: Endian): (r: seq<Byte>)
    ensures |r| == 2 * |units|
  {
    seq(2 * |units|, j requires 0 <= j < 2 * |units| =>
      if (j % 2 == 0) == e.Little? then units[j / 2].lo else units[j / 2].hi)
  }

  function UnitsOf(b: seq<Byte>, e: Endian): (r: seq<Unit16>)
    requires |b| % 2 == 0
    ensures |r| == |b| / 2
  {
    seq(|b| / 2, i requires 0 <= i < |b| / 2 =>
      if e.Little? then Unit16(b[2 * i], b[2 * i + 1]) else Unit16(b[2 * i + 1], b[2 * i]))
  }

  lemma WideRoundTrip(units: seq<Unit16>, e: Endian)
    ensures UnitsOf(WideBytes(units, e), e) == units
  {
  }

  lemma UnitsRoundTrip(b: seq<Byte>, e: Endian)
    requires |b| % 2 == 0
    ensures WideBytes(UnitsOf(b, e), e) == b
  {
  }

  function EncU32(n: nat, off: nat, e: Endian): (r: seq<Byte>)
    ensures |r| == Pad(off, 4) + 4
  {
    Zeros(Pad(off, 4)) + U32(n, e)
  }

  function Fields(v: Value): seq<Value> {
    if v.VStruct? then v.fields else []
  }

  function Elems(v: Value): seq<Value> {
    if v.VList? then v.elems else []
  }

  function Get(vs: seq<Value>, i: nat): Value {
    if i < |vs| then vs[i] else VAbsent
  }

  /**
   The bytes that encode `v` when the stream stands at offset `off`, alignment padding included.
   What is not a value of the type has no encoding.
   */
  function Enc(t: Type, v: Value, off: nat, o: Orders, what: SampleOrKey): seq<Byte>
    decreases t, 1, 0
  {
    match t
    case Prim(k) => if v.VPrim? then Zeros(Pad(off, k.CdrSizeOf())) + InOrder(v.raw, o.num) else []
    case Str(_, _) => if v.VStr? then EncU32(|v.chars| + 1, off, o.num) + v.chars + [0] else []
    case WStr(_, _) =>
      if v.VWStr? then EncU32(2 * |v.units|, off, o.num) + WideBytes(v.units, o.wide) else []
    case BoolVec(_, _) => if v.VBools? then EncU32(|v.flags|, off, o.num) + v.flags else []
    case Struct(ms, _) => EncMembers(t, Fields(v), |ms|, off, o, what)
    case Array(e, n) => EncElems(e, Elems(v), n, off, o, what)
    case Sequence(e, _, _) =>
      var p := EncU32(|Elems(v)|, off, o.num);
      p + EncElems(e, Elems(v), |Elems(v)|, off + |p|, o, what)
  }

  /** The first `n` members. */
  function EncMembers(t: Type, vs: seq<Value>, n: nat, off: nat, o: Orders, what: SampleOrKey): seq<Byte>
    requires t.Struct? && n <= |t.members|
    decreases t, 0, n
  {
    if n == 0 then []
    else
      var p := EncMembers(t, vs, n - 1, off, o, what);
      if Selected(t, n - 1, what)
      then p + Enc(t.members[n - 1].ty, Get(vs, n - 1), off + |p|, o, what)
      else p
  }

  /** The first `n` elements. */
  function EncElems(e: Type, vs: seq<Value>, n: nat, off: nat, o: Orders, what: SampleOrKey): seq<Byte>
    decreases e, 2, n
  {
    if n == 0 then []
    else
      var p := EncElems(e, vs, n - 1, off, o, what);
      p + Enc(e, Get(vs, n - 1), off + |p|, o, what)
  }

  // ---------------------------------------------------------------- decoding

  /** Results of decoding, with the offset where the input has been consumed to; `Bad` is an exception. */
  datatype Decoded = Bad | Good(v: Value, end: nat)
  datatype DecodedSeq = BadSeq | GoodSeq(vs: seq<Value>, end: nat)
  datatype DecodedWord = BadWord | GoodWord(n: nat, end: nat)

  /** Aligning to `w` and taking `w` bytes stays inside the input. */
  predicate CanFetch(s: seq<Byte>, off: nat, w: nat)
    requires IsAlign(w)
  {
    off + Pad(off, w) + w <= |s|
  }

  function Slice(s: seq<Byte>, off: nat, n: nat): (r: seq<Byte>)
    requires off + n <= |s|
    ensures |r| == n
  {
    s[off..off + n]
  }

  function DecU32(s: seq<Byte>, off: nat, e: Endian): (r: DecodedWord)
    ensures r.GoodWord? ==> r.n <= UINT32_MAX && off < r.end <= |s|
  {
    if CanFetch(s, off, 4)
    then GoodWord(U32Of(Slice(s, off + Pad(off, 4), 4), e), off + Pad(off, 4) + 4)
    else BadWord
  }

  /** The value at offset `off` of `s` and the offset after it. */
  function Dec(t: Type, s: seq<Byte>, off: nat, o: Orders, what: SampleOrKey): (r: Decoded)
    requires off <= |s|
    ensures r.Good? ==> off <= r.end <= |s|
    decreases t, 1, 0
  {
    match t
    case Struct(ms, _) =>
      var r := DecMembers(t, |ms|, s, off, o, what);
      if r.BadSeq? then Bad else Good(VStruct(r.vs), r.end)
    case Array(e, n) =>
      var r := DecElems(e, n, s, off, o, what);
      if r.BadSeq? then Bad else Good(VList(r.vs), r.end)
    case Sequence(e, _, _) =>
      var c := DecU32(s, off, o.num);
      if c.BadWord? then Bad
      else
        var r := DecElems(e, c.n, s, c.end, o, what);
        if r.BadSeq? then Bad else Good(VList(r.vs), r.end)
    case _ => DecLeaf(t, s, off, o)
  }

  function DecLeaf(t: Type, s: seq<Byte>, off: nat, o: Orders): (r: Decoded)
    requires t.Prim? || t.Str? || t.WStr? || t.BoolVec?
    ensures r.Good? ==> off <= r.end <= |s|
  {
    if t.Prim? then
      var w := t.kind.CdrSizeOf();
      if CanFetch(s, off, w)
      then Good(VPrim(InOrder(Slice(s, off + Pad(off, w), w), o.num)), off + Pad(off, w) + w)
      else Bad
    else
      var c := DecU32(s, off, o.num);
      if c.BadWord? || c.end + c.n > |s| then Bad
      else
        var b := Slice(s, c.end, c.n);
        match t
        case Str(_, _) => if c.n == 0 || b[c.n - 1] != 0 then Bad else Good(VStr(b[..c.n - 1]), c.end + c.n)
        case WStr(_, _) => if c.n % 2 != 0 then Bad else Good(VWStr(UnitsOf(b, o.wide)), c.end + c.n)
        case BoolVec(_, _) => Good(VBools(b), c.end + c.n)
  }

  function DecMembers(t: Type, n: nat, s: seq<Byte>, off: nat, o: Orders, what: SampleOrKey): (r: DecodedSeq)
    requires t.Struct? && n <= |t.members| && off <= |s|
    ensures r.GoodSeq? ==> |r.vs| == n && off <= r.end <= |s|
    decreases t, 0, n
  {
    if n == 0 then GoodSeq([], off)
    else
      var p := DecMembers(t, n - 1, s, off, o, what);
      if p.BadSeq? then BadSeq
      else if !Selected(t, n - 1, what) then GoodSeq(p.vs + [VAbsent], p.end)
      else
        var r := Dec(t.members[n - 1].ty, s, p.end, o, what);
        if r.Bad? then BadSeq else GoodSeq(p.vs + [r.v], r.end)
  }

  function DecElems(e: Type, n: nat, s: seq<Byte>, off: nat, o: Orders, what: SampleOrKey): (r: DecodedSeq)
    requires off <= |s|
    ensures r.GoodSeq? ==> |r.vs| == n && off <= r.end <= |s|
    decreases e, 2, n
  {
    if n == 0 then GoodSeq([], off)
    else
      var p := DecElems(e, n - 1, s, off, o, what);
      if p.BadSeq? then BadSeq
      else
        var r := Dec(e, s, p.end, o, what);
        if r.Bad? then BadSeq else GoodSeq(p.vs + [r.v], r.end)
  }

  // ---------------------------------------------------------------- round trip

  /** Any nonzero byte stands for true. */
  function AsBits(flags: seq<Byte>): (r: seq<Byte>)
    ensures |r| == |flags|
  {
    seq(|flags|, i requires 0 <= i < |flags| => if flags[i] != 0 then 1 else 0)
  }

  /**
   `v` with every member that a walk in mode `what` leaves out blanked and,
   if `bits`, with the elements of boolean vectors reduced to 0 and 1.
   */
  function Cut(t: Type, v: Value, what: SampleOrKey, bits: bool): Value
    decreases t, 1, 0
  {
    match t
    case Struct(ms, _) => VStruct(CutMembers(t, Fields(v), |ms|, what, bits))
    case Array(e, n) => VList(CutElems(e, Elems(v), n, what, bits))
    case Sequence(e, _, _) => VList(CutElems(e, Elems(v), |Elems(v)|, what, bits))
    case BoolVec(_, _) => if v.VBools? && bits then VBools(AsBits(v.flags)) else v
    case _ => v
  }

  function CutMembers(t: Type, vs: seq<Value>, n: nat, what: SampleOrKey, bits: bool): (r: seq<Value>)
    requires t.Struct? && n <= |t.members|
    ensures |r| == n
    decreases t, 0, n
  {
    if n == 0 then []
    else
      CutMembers(t, vs, n - 1, what, bits)
      + [if Selected(t, n - 1, what) then Cut(t.members[n - 1].ty, Get(vs, n - 1), what, bits) else VAbsent]
  }

  function CutElems(e: Type, vs: seq<Value>, n: nat, what: SampleOrKey, bits: bool): (r: seq<Value>)
    ensures |r| == n
    decreases e, 2, n
  {
    if n == 0 then [] else CutElems(e, vs, n - 1, what, bits) + [Cut(e, Get(vs, n - 1), what, bits)]
  }

  lemma {:induction false} CutMemberAt(t: Type, vs: seq<Value>, n: nat, what: SampleOrKey, bits: bool, i: nat)
    requires t.Struct? && i < n <= |t.members|
    ensures CutMembers(t, vs, n, what, bits)[i]
            == if Selected(t, i, what) then Cut(t.members[i].ty, Get(vs, i), what, bits) else VAbsent
  {
    hide Cut;
    if i < n - 1 {
      CutMemberAt(t, vs, n - 1, what, bits, i);
    }
  }

  lemma {:induction false} CutElemAt(e: Type, vs: seq<Value>, n: nat, what: SampleOrKey, bits: bool, i: nat)
    requires i < n
    ensures CutElems(e, vs, n, what, bits)[i] == Cut(e, Get(vs, i), what, bits)
  {
    hide Cut;
    if i < n - 1 {
      CutElemAt(e, vs, n - 1, what, bits, i);
    }
  }

  /** Blanking what a walk leaves out keeps a value well typed. */
  lemma {:induction false} CutTyped(t: Type, v: Value, what: SampleOrKey, bits: bool)
    requires HasType(v, t, what)
    ensures HasType(Cut(t, v, what, bits), t, what)
    decreases t
  {
    hide CutMembers, CutElems;
    match t
    case Struct(ms, _) =>
      forall i | 0 <= i < |ms| && Selected(t, i, what)
        ensures HasType(CutMembers(t, v.fields, |ms|, what, bits)[i], ms[i].ty, what)
      {
        CutMemberAt(t, v.fields, |ms|, what, bits, i);
        CutTyped(ms[i].ty, v.fields[i], what, bits);
      }
    case Array(e, n) =>
      forall i | 0 <= i < n
        ensures HasType(CutElems(e, v.elems, n, what, bits)[i], e, what)
      {
        CutElemAt(e, v.elems, n, what, bits, i);
        CutTyped(e, v.elems[i], what, bits);
      }
    case Sequence(e, _, _) =>
      forall i | 0 <= i < |v.elems|
        ensures HasType(CutElems(e, v.elems, |v.elems|, what, bits)[i], e, what)
      {
        CutElemAt(e, v.elems, |v.elems|, what, bits, i);
        CutTyped(e, v.elems[i], what, bits);
      }
    case _ =>
  }

  /** The bytes `b` stand at offset `off` of `s`. */
  ghost predicate At(s: seq<Byte>, off: nat, b: seq<Byte>) {
    off + |b| <= |s| && forall i :: 0 <= i < |b| ==> b[i] == s[off + i]
  }

  lemma AtSplit(s: seq<Byte>, off: nat, x: seq<Byte>, y: seq<Byte>)
    requires At(s, off, x + y)
    ensures off + |x| + |y| <= |s| && At(s, off, x) && At(s, off + |x|, y)
  {
    assert forall i :: 0 <= i < |x| ==> (x + y)[i] == x[i];
    assert forall i :: 0 <= i < |y| ==> (x + y)[|x| + i] == y[i];
  }

  lemma SliceZero(s: seq<Byte>, off: nat)
    requires off <= |s|
    ensures Slice(s, off, 0) == []
  {
  }

  lemma SliceJoin(s: seq<Byte>, off: nat, x: nat, y: nat)
    requires off + x + y <= |s|
    ensures Slice(s, off, x + y) == Slice(s, off, x) + Slice(s, off + x, y)
  {
  }

  lemma U32At(s: seq<Byte>, off: nat, n: nat, e: Endian)
    requires n <= UINT32_MAX && At(s, off, EncU32(n, off, e))
    ensures DecU32(s, off, e) == GoodWord(n, off + Pad(off, 4) + 4)
  {
    hide U32, U32Of, Pad, At;
    var p, d := Pad(off, 4), U32(n, e);
    AtSplit(s, off, Zeros(p), d);
    SliceAt(s, off + p, d);
    U32RoundTrip(n, e);
  }

  /** Decoding what was encoded, in any byte order, gives back the value and ends where the encoding ends. */
  lemma {:induction false} RoundTrip(t: Type, v: Value, s: seq<Byte>, off: nat, o: Orders, what: SampleOrKey)
    requires HasType(v, t, what)
    requires off <= |s| && At(s, off, Enc(t, v, off, o, what))
    ensures Dec(t, s, off, o, what) == Good(Cut(t, v, what, false), off + |Enc(t, v, off, o, what)|)
    decreases t, 1, 0
  {
    hide At, Pad, EncU32, DecU32, DecLeaf, EncMembers, DecMembers, CutMembers, EncElems, DecElems, CutElems;
    match t
    case Struct(ms, _) => RoundTripMembers(t, v.fields, |ms|, s, off, o, what);
    case Array(e, n) => RoundTripElems(e, v.elems, n, s, off, o, what);
    case Sequence(e, _, _) =>
      var p := EncU32(|v.elems|, off, o.num);
      AtSplit(s, off, p, EncElems(e, v.elems, |v.elems|, off + |p|, o, what));
      U32At(s, off, |v.elems|, o.num);
      RoundTripElems(e, v.elems, |v.elems|, s, off + |p|, o, what);
    case _ => RoundTripLeaf(t, v, s, off, o, what);
  }

  lemma RoundTripLeaf(t: Type, v: Value, s: seq<Byte>, off: nat, o: Orders, what: SampleOrKey)
    requires t.Prim? || t.Str? || t.WStr? || t.BoolVec?
    requires HasType(v, t, what)
    requires off <= |s| && At(s, off, Enc(t, v, off, o, what))
    ensures DecLeaf(t, s, off, o) == Good(v, off + |Enc(t, v, off, o, what)|)
  {
    if t.Prim? {
      PrimAt(s, off, v.raw, t.kind.CdrSizeOf(), o.num);
    } else {
      RoundTripCounted(t, v, s, off, o, what);
    }
  }

  lemma PrimAt(s: seq<Byte>, off: nat, raw: seq<Byte>, w: nat, e: Endian)
    requires IsAlign(w) && |raw| == w && off <= |s|
    requires At(s, off, Zeros(Pad(off, w)) + InOrder(raw, e))
    ensures CanFetch(s, off, w)
    ensures InOrder(Slice(s, off + Pad(off, w), w), e) == raw
  {
    AtSplit(s, off, Zeros(Pad(off, w)), InOrder(raw, e));
    SliceAt(s, off + Pad(off, w), InOrder(raw, e));
    InOrderTwice(raw, e);
  }

  lemma RoundTripCounted(t: Type, v: Value, s: seq<Byte>, off: nat, o: Orders, what: SampleOrKey)
    requires t.Str? || t.WStr? || t.BoolVec?
    requires HasType(v, t, what)
    requires off <= |s| && At(s, off, Enc(t, v, off, o, what))
    ensures DecLeaf(t, s, off, o) == Good(v, off + |Enc(t, v, off, o, what)|)
  {
    hide At, Pad, EncU32, DecU32, Slice, WideBytes, UnitsOf, U32, Zeros;
    var b := match t
      case Str(_, _) => v.chars + [0]
      case WStr(_, _) => WideBytes(v.units, o.wide)
      case BoolVec(_, _) => v.flags;
    assert Enc(t, v, off, o, what) == EncU32(|b|, off, o.num) + b;
    CountedAt(s, off, b, o.num);
    match t
    case Str(_, _) => assert b[..|b| - 1] == v.chars;
    case WStr(_, _) => WideRoundTrip(v.units, o.wide);
    case BoolVec(_, _) =>
  }

  lemma CountedAt(s: seq<Byte>, off: nat, b: seq<Byte>, e: Endian)
    requires |b| <= UINT32_MAX && At(s, off, EncU32(|b|, off, e) + b)
    ensures DecU32(s, off, e) == GoodWord(|b|, off + Pad(off, 4) + 4)
    ensures off + Pad(off, 4) + 4 + |b| <= |s|
    ensures Slice(s, off + Pad(off, 4) + 4, |b|) == b
  {
    AtSplit(s, off, EncU32(|b|, off, e), b);
    U32At(s, off, |b|, e);
    SliceAt(s, off + Pad(off, 4) + 4, b);
  }

  lemma SliceAt(s: seq<Byte>, off: nat, b: seq<Byte>)
    requires At(s, off, b)
    ensures Slice(s, off, |b|) == b
  {
  }

  lemma {:induction false} RoundTripMembers(
    t: Type, vs: seq<Value>, n: nat, s: seq<Byte>, off: nat, o: Orders, what: SampleOrKey)
    requires t.Struct? && n <= |t.members| && n <= |vs|
    requires forall i :: 0 <= i < n && Selected(t, i, what) ==> HasType(vs[i], t.members[i].ty, what)
    requires off <= |s| && At(s, off, EncMembers(t, vs, n, off, o, what))
    ensures DecMembers(t, n, s, off, o, what)
            == GoodSeq(CutMembers(t, vs, n, what, false), off + |EncMembers(t, vs, n, off, o, what)|)
    decreases t, 0, n
  {
    hide HasType, At, Enc, Dec, Cut, EncMembers, DecMembers, CutMembers;
    if n > 0 {
      SplitMembers(t, vs, n, s, off, o, what);
      RoundTripMembers(t, vs, n - 1, s, off, o, what);
      var p := EncMembers(t, vs, n - 1, off, o, what);
      if Selected(t, n - 1, what) {
        RoundTrip(t.members[n - 1].ty, vs[n - 1], s, off + |p|, o, what);
      }
    }
    JoinMembers(t, vs, n, s, off, o, what);
  }

  lemma SplitMembers(t: Type, vs: seq<Value>, n: nat, s: seq<Byte>, off: nat, o: Orders, what: SampleOrKey)
    requires t.Struct? && 0 < n <= |t.members|
    requires At(s, off, EncMembers(t, vs, n, off, o, what))
    ensures var p := EncMembers(t, vs, n - 1, off, o, what);
            && off + |p| <= |s| && At(s, off, p)
            && (Selected(t, n - 1, what) ==>
                  At(s, off + |p|, Enc(t.members[n - 1].ty, Get(vs, n - 1), off + |p|, o, what)))
  {
    hide Enc;
    var p := EncMembers(t, vs, n - 1, off, o, what);
    if Selected(t, n - 1, what) {
      AtSplit(s, off, p, Enc(t.members[n - 1].ty, Get(vs, n - 1), off + |p|, o, what));
    }
  }

  lemma JoinMembers(t: Type, vs: seq<Value>, n: nat, s: seq<Byte>, off: nat, o: Orders, what: SampleOrKey)
    requires t.Struct? && n <= |t.members| && off <= |s|
    requires n > 0 ==>
             var p := EncMembers(t, vs, n - 1, off, o, what);
             && off + |p| <= |s|
             && DecMembers(t, n - 1, s, off, o, what) == GoodSeq(CutMembers(t, vs, n - 1, what, false), off + |p|)
             && (Selected(t, n - 1, what) ==>
                   Dec(t.members[n - 1].ty, s, off + |p|, o, what)
                   == Good(Cut(t.members[n - 1].ty, Get(vs, n - 1), what, false),
                           off + |p| + |Enc(t.members[n - 1].ty, Get(vs, n - 1), off + |p|, o, what)|))
    ensures DecMembers(t, n, s, off, o, what)
            == GoodSeq(CutMembers(t, vs, n, what, false), off + |EncMembers(t, vs, n, off, o, what)|)
  {
    hide Enc, Dec, Cut;
  }

  lemma {:induction false} RoundTripElems(
    e: Type, vs: seq<Value>, n: nat, s: seq<Byte>, off: nat, o: Orders, what: SampleOrKey)
    requires n <= |vs| && forall i :: 0 <= i < n ==> HasType(vs[i], e, what)
    requires off <= |s| && At(s, off, EncElems(e, vs, n, off, o, what))
    ensures DecElems(e, n, s, off, o, what)
            == GoodSeq(CutElems(e, vs, n, what, false), off + |EncElems(e, vs, n, off, o, what)|)
    decreases e, 2, n
  {
    hide HasType, At, Enc, Dec, Cut, EncElems, DecElems, CutElems;
    if n > 0 {
      SplitElems(e, vs, n, s, off, o, what);
      RoundTripElems(e, vs, n - 1, s, off, o, what);
      RoundTrip(e, vs[n - 1], s, off + |EncElems(e, vs, n - 1, off, o, what)|, o, what);
    }
    JoinElems(e, vs, n, s, off, o, what);
  }

  lemma SplitElems(e: Type, vs: seq<Value>, n: nat, s: seq<Byte>, off: nat, o: Orders, what: SampleOrKey)
    requires 0 < n && At(s, off, EncElems(e, vs, n, off, o, what))
    ensures var p := EncElems(e, vs, n - 1, off, o, what);
            && off + |p| <= |s| && At(s, off, p)
            && At(s, off + |p|, Enc(e, Get(vs, n - 1), off + |p|, o, what))
  {
    hide Enc;
    var p := EncElems(e, vs, n - 1, off, o, what);
    AtSplit(s, off, p, Enc(e, Get(vs, n - 1), off + |p|, o, what));
  }

  lemma JoinElems(e: Type, vs: seq<Value>, n: nat, s: seq<Byte>, off: nat, o: Orders, what: SampleOrKey)
    requires off <= |s|
    requires n > 0 ==>
             var p := EncElems(e, vs, n - 1, off, o, what);
             && off + |p| <= |s|
             && DecElems(e, n - 1, s, off, o, what) == GoodSeq(CutElems(e, vs, n - 1, what, false), off + |p|)
             && Dec(e, s, off + |p|, o, what)
                == Good(Cut(e, Get(vs, n - 1), what, false), off + |p| + |Enc(e, Get(vs, n - 1), off + |p|, o, what)|)
    ensures DecElems(e, n, s, off, o, what)
            == GoodSeq(CutElems(e, vs, n, what, false), off + |EncElems(e, vs, n, off, o, what)|)
  {
    hide Enc, Dec, Cut;
  }

  // ---------------------------------------------------------------- arbitrary input

  /**
   On any input at all, what is decoded is a well-typed value, and the bytes consumed are as many
   as its encoding takes, whatever the byte order it would be written in.
   */
  lemma {:induction false} DecConsumesSize(t: Type, s: seq<Byte>, off: nat, o: Orders, what: SampleOrKey, o': Orders)
    requires off <= |s| && Dec(t, s, off, o, what).Good?
    ensures var r := Dec(t, s, off, o, what);
            HasType(r.v, t, what) && r.end == off + |Enc(t, r.v, off, o', what)|
    decreases t, 1, 0
  {
    var r := Dec(t, s, off, o, what);
    match t
    case Struct(ms, _) => DecMembersConsume(t, |ms|, r.v.fields, s, off, o, what, o');
    case Array(e, n) => DecElemsConsume(e, n, r.v.elems, s, off, o, what, o');
    case Sequence(e, _, _) =>
      var c := DecU32(s, off, o.num);
      DecElemsConsume(e, c.n, r.v.elems, s, c.end, o, what, o');
    case _ =>
  }

  lemma {:induction false} DecMembersConsume(
    t: Type, n: nat, ws: seq<Value>, s: seq<Byte>, off: nat, o: Orders, what: SampleOrKey, o': Orders)
    requires t.Struct? && n <= |t.members| && n <= |ws|
    requires off <= |s| && DecMembers(t, n, s, off, o, what).GoodSeq?
    requires ws[..n] == DecMembers(t, n, s, off, o, what).vs
    ensures forall i :: 0 <= i < n && Selected(t, i, what) ==> HasType(ws[i], t.members[i].ty, what)
    ensures DecMembers(t, n, s, off, o, what).end == off + |EncMembers(t, ws, n, off, o', what)|
    decreases t, 0, n
  {
    hide HasType, Enc, Dec, Selected;
    if n > 0 {
      var p := DecMembers(t, n - 1, s, off, o, what);
      DecMembersLast(t, ws, n, DecMembers(t, n, s, off, o, what).end, s, off, o, what);
      DecMembersConsume(t, n - 1, ws, s, off, o, what, o');
      if Selected(t, n - 1, what) {
        DecConsumesSize(t.members[n - 1].ty, s, p.end, o, what, o');
      }
    }
  }

  lemma {:induction false} DecElemsConsume(
    e: Type, n: nat, ws: seq<Value>, s: seq<Byte>, off: nat, o: Orders, what: SampleOrKey, o': Orders)
    requires off <= |s| && DecElems(e, n, s, off, o, what).GoodSeq?
    requires n <= |ws| && ws[..n] == DecElems(e, n, s, off, o, what).vs
    ensures forall i :: 0 <= i < n ==> HasType(ws[i], e, what)
    ensures DecElems(e, n, s, off, o, what).end == off + |EncElems(e, ws, n, off, o', what)|
    decreases e, 2, n
  {
    hide HasType, Enc, Dec;
    if n > 0 {
      var p := DecElems(e, n - 1, s, off, o, what);
      DecElemsLast(e, ws, n, DecElems(e, n, s, off, o, what).end, s, off, o, what);
      DecElemsConsume(e, n - 1, ws, s, off, o, what, o');
      DecConsumesSize(e, s, p.end, o, what, o');
    }
  }

  lemma LastOf(ws: seq<Value>, n: nat, vs: seq<Value>)
    requires 0 < n <= |ws| && |vs| == n - 1 && vs <= ws[..n]
    ensures ws[..n - 1] == vs && ws[..n] == vs + [ws[n - 1]]
  {
  }

  /** The last of `n` decoded members, and what came before it. */
  lemma DecMembersLast(t: Type, ws: seq<Value>, n: nat, end: nat, s: seq<Byte>, off: nat, o: Orders, what: SampleOrKey)
    requires t.Struct? && 0 < n <= |t.members| && n <= |ws| && off <= |s|
    requires DecMembers(t, n, s, off, o, what) == GoodSeq(ws[..n], end)
    ensures var p := DecMembers(t, n - 1, s, off, o, what);
            && p.GoodSeq? && p.vs == ws[..n - 1]
            && if Selected(t, n - 1, what) then Dec(t.members[n - 1].ty, s, p.end, o, what) == Good(ws[n - 1], end)
               else p.end == end
  {
    hide Dec, Selected;
    LastOf(ws, n, DecMembers(t, n - 1, s, off, o, what).vs);
  }

  /** The last of `n` decoded elements, and what came before it. */
  lemma DecElemsLast(e: Type, ws: seq<Value>, n: nat, end: nat, s: seq<Byte>, off: nat, o: Orders, what: SampleOrKey)
    requires 0 < n <= |ws| && off <= |s| && DecElems(e, n, s, off, o, what) == GoodSeq(ws[..n], end)
    ensures var p := DecElems(e, n - 1, s, off, o, what);
            p.GoodSeq? && p.vs == ws[..n - 1] && Dec(e, s, p.end, o, what) == Good(ws[n - 1], end)
  {
    hide Dec;
    LastOf(ws, n, DecElems(e, n - 1, s, off, o, what).vs);
  }
}
