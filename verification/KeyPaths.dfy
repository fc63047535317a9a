/**
 Extraction of the key from a serialized sample or key: what is emitted, shortcuts included, as a function
 of the input; and when that is decoding the input plainly and encoding the key of the value.
 */
module KeyPaths {
  import opened Bytes
  import opened Types
  import opened TrivCache
  import opened Cdr
  import opened NativeMemory
  import opened WriterPaths
  import opened Reach
  import opened ReaderPaths
  import opened SizeWalk
  import opened SizeBounds

  datatype ExtractKeyMode = FromSample | FromKey | Skip

  /** Byte order of the machine, and whether input and output are in the other one. */
  datatype Orientation = Orientation(native: Endian, swapSrc: bool, swapDst: bool) {
    function Src(): Endian { StreamOrder(native, swapSrc) }
    function Dst(): Endian { StreamOrder(native, swapDst) }

    /** Numbers go out in the order of the output; the characters of wide strings stay native. */
    function Out(): Orders { Orders(Dst(), native) }
  }

  datatype Extraction = Refused | Extracted(out: seq<Byte>, end: nat)

  function Emit(mode: ExtractKeyMode, b: seq<Byte>): seq<Byte> {
    if mode.Skip? then [] else b
  }

  /** The mode in which a member is visited; `None` when it is not in the input. */
  function MemberMode(t: Type, i: nat, mode: ExtractKeyMode): Option<ExtractKeyMode>
    requires t.Struct? && i < |t.members|
  {
    match mode
    case Skip => Some(Skip)
    case FromKey => if Selected(t, i, Key) then Some(FromKey) else None
    case FromSample => if Selected(t, i, Key) then Some(FromSample) else Some(Skip)
  }

  function Extract(t: Type, s: seq<Byte>, off: nat, dst: nat, x: Orientation, mode: ExtractKeyMode): (r: Extraction)
    requires off <= |s|
    ensures r.Extracted? ==> off <= r.end <= |s|
    decreases t, 1, 0
  {
    if mode.Skip? && Triv(t, off) then
      if off + SizeOf(t) <= |s| then Extracted([], off + SizeOf(t)) else Refused
    else
      match t
      case Struct(ms, _) => ExtractMembers(t, |ms|, s, off, dst, x, mode)
      case Array(e, n) => ExtractMany(e, n, s, off, dst, x, mode)
      case Sequence(e, _, _) =>
        var c := DecU32(s, off, x.Src());
        if c.BadWord? then Refused
        else
          var head := Emit(mode, EncU32(c.n, dst, x.Dst()));
          var r := ExtractMany(e, c.n, s, c.end, dst + |head|, x, mode);
          if r.Refused? then Refused else Extracted(head + r.out, r.end)
      case _ =>
        var r := DecLeaf(t, s, off, Both(x.Src()));
        if r.Bad? then Refused else Extracted(Emit(mode, Enc(t, r.v, dst, x.Out(), Key)), r.end)
  }

  function ExtractMembers(
    t: Type, n: nat, s: seq<Byte>, off: nat, dst: nat, x: Orientation, mode: ExtractKeyMode): (r: Extraction)
    requires t.Struct? && n <= |t.members| && off <= |s|
    ensures r.Extracted? ==> off <= r.end <= |s|
    decreases t, 0, n
  {
    if n == 0 then Extracted([], off)
    else
      var p := ExtractMembers(t, n - 1, s, off, dst, x, mode);
      var inner := MemberMode(t, n - 1, mode);
      if p.Refused? || inner.None? then p
      else
        var r := Extract(t.members[n - 1].ty, s, p.end, dst + |p.out|, x, inner.value);
        if r.Refused? then Refused else Extracted(p.out + r.out, r.end)
  }

  function ExtractMany(
    e: Type, n: nat, s: seq<Byte>, off: nat, dst: nat, x: Orientation, mode: ExtractKeyMode): (r: Extraction)
    requires off <= |s|
    ensures r.Extracted? ==> off <= r.end <= |s|
    decreases e, 3, n
  {
    if n == 0 then Extracted([], off)
    else
      var first := Extract(e, s, off, dst, x, mode);
      if first.Refused? || n == 1 then first
      else if !(x.swapSrc || x.swapDst) && ManyTriv(e, first.end) then
        var size := Extent(e, n - 1);
        if first.end + size <= |s|
        then Extracted(first.out + Emit(mode, Slice(s, first.end, size)), first.end + size)
        else Refused
      else ExtractElems(e, n, s, off, dst, x, mode)
  }

  function ExtractElems(
    e: Type, n: nat, s: seq<Byte>, off: nat, dst: nat, x: Orientation, mode: ExtractKeyMode): (r: Extraction)
    requires off <= |s|
    ensures r.Extracted? ==> off <= r.end <= |s|
    decreases e, 2, n
  {
    if n == 0 then Extracted([], off)
    else
      var p := ExtractElems(e, n - 1, s, off, dst, x, mode);
      if p.Refused? then p
      else
        var r := Extract(e, s, p.end, dst + |p.out|, x, mode);
        if r.Refused? then Refused else Extracted(p.out + r.out, r.end)
  }

  // ---------------------------------------------------------------- plain extraction

  /** How the input was encoded. */
  function SrcMode(mode: ExtractKeyMode): SampleOrKey {
    if mode.FromKey? then Key else Sample
  }

  function Plainly(t: Type, s: seq<Byte>, off: nat, dst: nat, x: Orientation, mode: ExtractKeyMode): Extraction
    requires off <= |s|
  {
    var r := Dec(t, s, off, Both(x.Src()), SrcMode(mode));
    if r.Bad? then Refused else Extracted(Emit(mode, Enc(t, r.v, dst, x.Out(), Key)), r.end)
  }

  function PlainlyMembers(
    t: Type, n: nat, s: seq<Byte>, off: nat, dst: nat, x: Orientation, mode: ExtractKeyMode): Extraction
    requires t.Struct? && n <= |t.members| && off <= |s|
  {
    var r := DecMembers(t, n, s, off, Both(x.Src()), SrcMode(mode));
    if r.BadSeq? then Refused else Extracted(Emit(mode, EncMembers(t, r.vs, n, dst, x.Out(), Key)), r.end)
  }

  function PlainlyElems(
    e: Type, n: nat, s: seq<Byte>, off: nat, dst: nat, x: Orientation, mode: ExtractKeyMode): Extraction
    requires off <= |s|
  {
    var r := DecElems(e, n, s, off, Both(x.Src()), SrcMode(mode));
    if r.BadSeq? then Refused else Extracted(Emit(mode, EncElems(e, r.vs, n, dst, x.Out(), Key)), r.end)
  }

  lemma {:induction false} EncMembersPrefix(
    t: Type, vs: seq<Value>, ws: seq<Value>, n: nat, off: nat, o: Orders, what: SampleOrKey)
    requires t.Struct? && n <= |t.members| && n <= |vs| && vs <= ws
    ensures EncMembers(t, vs, n, off, o, what) == EncMembers(t, ws, n, off, o, what)
  {
    hide Enc;
    if n > 0 {
      EncMembersPrefix(t, vs, ws, n - 1, off, o, what);
      assert Get(vs, n - 1) == Get(ws, n - 1);
    }
  }

  lemma {:induction false} EncElemsPrefix(
    e: Type, vs: seq<Value>, ws: seq<Value>, n: nat, off: nat, o: Orders, what: SampleOrKey)
    requires n <= |vs| && vs <= ws
    ensures EncElems(e, vs, n, off, o, what) == EncElems(e, ws, n, off, o, what)
  {
    hide Enc;
    if n > 0 {
      EncElemsPrefix(e, vs, ws, n - 1, off, o, what);
      assert Get(vs, n - 1) == Get(ws, n - 1);
    }
  }

  /** One more member. */
  lemma PlainMembersStep(
    t: Type, n: nat, s: seq<Byte>, off: nat, dst: nat, x: Orientation, mode: ExtractKeyMode)
    requires t.Struct? && 0 < n <= |t.members| && off <= |s|
    ensures var p := PlainlyMembers(t, n - 1, s, off, dst, x, mode);
            var inner := MemberMode(t, n - 1, mode);
            && (p.Extracted? ==> p.end <= |s|)
            && PlainlyMembers(t, n, s, off, dst, x, mode)
               == if p.Refused? || inner.None? then p
                  else
                    var r := Plainly(t.members[n - 1].ty, s, p.end, dst + |p.out|, x, inner.value);
                    if r.Refused? then Refused else Extracted(p.out + r.out, r.end)
  {
    hide Dec, Enc;
    var o := Both(x.Src());
    var q := DecMembers(t, n - 1, s, off, o, SrcMode(mode));
    var r := DecMembers(t, n, s, off, o, SrcMode(mode));
    assert Selected(t, n - 1, Sample);
    if r.GoodSeq? {
      assert q.vs <= r.vs;
      EncMembersPrefix(t, q.vs, r.vs, n - 1, dst, x.Out(), Key);
    }
  }

  /** One more element. */
  lemma PlainElemsStep(
    e: Type, n: nat, s: seq<Byte>, off: nat, dst: nat, x: Orientation, mode: ExtractKeyMode)
    requires 0 < n && off <= |s|
    ensures var p := PlainlyElems(e, n - 1, s, off, dst, x, mode);
            && (p.Extracted? ==> p.end <= |s|)
            && PlainlyElems(e, n, s, off, dst, x, mode)
               == if p.Refused? then p
                  else
                    var r := Plainly(e, s, p.end, dst + |p.out|, x, mode);
                    if r.Refused? then Refused else Extracted(p.out + r.out, r.end)
  {
    hide Dec, Enc;
    var o := Both(x.Src());
    var q := DecElems(e, n - 1, s, off, o, SrcMode(mode));
    var r := DecElems(e, n, s, off, o, SrcMode(mode));
    if r.GoodSeq? {
      assert q.vs <= r.vs;
      EncElemsPrefix(e, q.vs, r.vs, n - 1, dst, x.Out(), Key);
    }
  }

  lemma NoPlainElems(e: Type, s: seq<Byte>, off: nat, dst: nat, x: Orientation, mode: ExtractKeyMode)
    requires off <= |s|
    ensures PlainlyElems(e, 0, s, off, dst, x, mode) == Extracted([], off)
  {
  }

  // ---------------------------------------------------------------- source and destination move in step

  lemma {:induction false} FlatAlign(t: Type, z: nat)
    requires Triv(t, z) && WellFormed(t)
    ensures AlignOf(t, Sample, Min) == LeafAlign(t)
    decreases t, 1, 0
  {
    hide TrivMembers, AlignMembers, LeafAlignMembers;
    match t
    case Struct(ms, _) => FlatAlignMembers(t, z, |ms|);
    case Array(e, n) => FlatAlign(e, z % MAX_ALIGN);
    case _ =>
  }

  lemma {:induction false} FlatAlignMembers(t: Type, z: nat, n: nat)
    requires t.Struct? && WellFormed(t) && n <= |t.members| && TrivMembers(t, z % MAX_ALIGN, |t.members|)
    ensures AlignMembers(t, n, Sample, Min) == LeafAlignMembers(t, n)
    decreases t, 0, n
  {
    hide Triv, AlignOf, LeafAlign, WellFormed;
    WellFormedBelow(t);
    if n > 0 {
      FlatAlignMembers(t, z, n - 1);
      TrivMember(t, z % MAX_ALIGN, n - 1, |t.members|);
      FlatAlign(t.members[n - 1].ty, (z % MAX_ALIGN + Packed(t, n - 1)) % MAX_ALIGN);
    }
  }

  /**
   After a first element, source and destination offsets agree modulo the element's largest alignment:
   what is trivially serialized here in the source is so there in the destination.
   */
  lemma InStep(e: Type, v: Value, off: nat, o: Orders, dst: nat, o': Orders, k: nat)
    requires WellFormed(e) && HasType(v, e, Sample)
    requires ManyTriv(e, off + |Enc(e, v, off, o, Sample)|)
    ensures Divides(LeafAlign(e), dst + |Enc(e, v, dst, o', Sample)| - (off + |Enc(e, v, off, o, Sample)|))
    ensures Triv(e, off + |Enc(e, v, off, o, Sample)| + Extent(e, k))
    ensures Triv(e, dst + |Enc(e, v, dst, o', Sample)| + Extent(e, k))
  {
    hide Enc, HasType, WellFormed, Triv, Extent, Divides, End, AlignOf, LeafAlign;
    var x, y := off + |Enc(e, v, off, o, Sample)|, dst + |Enc(e, v, dst, o', Sample)|;
    var z := x % MAX_ALIGN;
    FlatEnd(e, z, v, off, o, Sample);
    FlatEnd(e, z, v, dst, o', Sample);
    FlatAlign(e, z);
    EndPeriodic(e, off, dst, Sample, Min, 0);
    ManyTrivEverywhere(e, x, k);
    TrivShift(e, x + Extent(e, k), y + Extent(e, k));
    assert (y + Extent(e, k)) - (x + Extent(e, k)) == y - x;
  }

  /** Re-encoding a trivially serialized value at an offset that suits it reproduces the input bytes. */
  lemma {:induction false} TrivReencode(t: Type, s: seq<Byte>, off: nat, dst: nat, e: Endian)
    requires off + SizeOf(t) <= |s| && Triv(t, off) && Triv(t, dst) && Dec(t, s, off, Both(e), Sample).Good?
    ensures Enc(t, Dec(t, s, off, Both(e), Sample).v, dst, Both(e), Sample) == Slice(s, off, SizeOf(t))
    decreases t, 1, 0
  {
    hide DecMembers, EncMembers, DecElems, EncElems, Slice, TrivMembers;
    TrivDecEnd(t, s, off, Both(e));
    var v := Dec(t, s, off, Both(e), Sample).v;
    match t
    case Prim(k) =>
      ModEight(off, k.CdrSizeOf());
      ModEight(dst, k.CdrSizeOf());
      InOrderTwice(Slice(s, off, k.CdrSizeOf()), e);
      assert Zeros(0) == [];
    case Struct(ms, _) =>
      assert v.fields[..|ms|] == v.fields;
      TrivReencodeMembers(t, v.fields, |ms|, s, off, dst, e);
    case Array(u, n) =>
      assert v.elems[..n] == v.elems;
      TrivReencodeElems(u, v.elems, n, s, off, dst, e);
    case _ =>
  }

  lemma {:induction false} TrivReencodeMembers(
    t: Type, ws: seq<Value>, n: nat, s: seq<Byte>, off: nat, dst: nat, e: Endian)
    requires t.Struct? && n <= |t.members| && n <= |ws|
    requires TrivMembers(t, off % MAX_ALIGN, n) && TrivMembers(t, dst % MAX_ALIGN, n)
    requires off + Packed(t, n) <= |s|
    requires DecMembers(t, n, s, off, Both(e), Sample) == GoodSeq(ws[..n], off + Packed(t, n))
    ensures EncMembers(t, ws, n, dst, Both(e), Sample) == Slice(s, off, Packed(t, n))
    decreases t, 0, n
  {
    hide Dec, Enc, Slice, Triv, DecMembers, SizeOf;
    if n == 0 {
      SliceZero(s, off);
    } else {
      var p, x := Packed(t, n - 1), t.members[n - 1];
      DecMembersLast(t, ws, n, off + Packed(t, n), s, off, Both(e), Sample);
      TrivDecMembersEnd(t, n - 1, s, off, Both(e));
      TrivReencodeMembers(t, ws, n - 1, s, off, dst, e);
      TrivMemberShift(t, off, n);
      TrivMemberShift(t, dst, n);
      TrivReencode(x.ty, s, off + p, dst + p, e);
      SliceJoin(s, off, p, SizeOf(x.ty));
    }
  }

  lemma {:induction false} TrivReencodeElems(
    u: Type, ws: seq<Value>, n: nat, s: seq<Byte>, off: nat, dst: nat, e: Endian)
    requires n <= |ws| && ManyTriv(u, off) && ManyTriv(u, dst)
    requires off + Extent(u, n) <= |s|
    requires DecElems(u, n, s, off, Both(e), Sample) == GoodSeq(ws[..n], off + Extent(u, n))
    ensures EncElems(u, ws, n, dst, Both(e), Sample) == Slice(s, off, Extent(u, n))
    decreases u, 2, n
  {
    hide Dec, Enc, Slice, Triv, Extent, DecElems, ManyTriv;
    ExtentZero(u);
    if n == 0 {
      SliceZero(s, off);
    } else {
      var p: nat := Extent(u, n - 1);
      ExtentStep(u, n);
      DecElemsLast(u, ws, n, off + Extent(u, n), s, off, Both(e), Sample);
      TrivDecElemsEnd(u, n - 1, s, off, Both(e));
      TrivReencodeElems(u, ws, n - 1, s, off, dst, e);
      ManyTrivEverywhere(u, off, n - 1);
      ManyTrivEverywhere(u, dst, n - 1);
      TrivReencode(u, s, off + p, dst + p, e);
      SliceJoin(s, off, p, SizeOf(u));
    }
  }

  // ---------------------------------------------------------------- shortcuts are invisible

  /** Nothing can be copied in bulk that matters. */
  predicate Unshortened(x: Orientation, mode: ExtractKeyMode) {
    mode.Skip? || x.swapSrc || x.swapDst
  }

  predicate SafeToExtract(t: Type, off: nat, x: Orientation, mode: ExtractKeyMode) {
    Unshortened(x, mode) || KeySafe(t, off % MAX_ALIGN, SrcMode(mode))
  }

  predicate SafeToExtractMany(e: Type, n: nat, off: nat, x: Orientation, mode: ExtractKeyMode) {
    Unshortened(x, mode) || ElemsSafe(e, n, off % MAX_ALIGN, SrcMode(mode))
  }

  predicate SafeToExtractEach(e: Type, n: nat, off: nat, x: Orientation, mode: ExtractKeyMode) {
    Unshortened(x, mode) || StartsSafe(e, n, off % MAX_ALIGN, SrcMode(mode))
  }

  /** One element extracted the long way, then all others copied at once. */
  lemma {:induction false} BulkExtract(
    e: Type, n: nat, s: seq<Byte>, off: nat, dst: nat, x: Orientation, mode: ExtractKeyMode)
    requires off <= |s| && n > 0 && WellFormed(e) && (mode.Skip? || Whole(e)) && !x.swapSrc && !x.swapDst
    requires var first := Plainly(e, s, off, dst, x, mode); first.Extracted? && ManyTriv(e, first.end)
    ensures var first := Plainly(e, s, off, dst, x, mode);
            var size := Extent(e, n - 1);
            PlainlyElems(e, n, s, off, dst, x, mode)
            == if first.end + size <= |s|
               then Extracted(first.out + Emit(mode, Slice(s, first.end, size)), first.end + size)
               else Refused
    decreases n
  {
    hide Plainly, PlainlyElems, Extent, ManyTriv, Whole, Slice, WellFormed;
    ExtentZero(e);
    var first := Plainly(e, s, off, dst, x, mode);
    PlainElemsStep(e, n, s, off, dst, x, mode);
    NoPlainElems(e, s, off, dst, x, mode);
    if n == 1 {
      FirstInside(e, s, off, dst, x, mode);
      SliceZero(s, first.end);
    } else {
      BulkExtract(e, n - 1, s, off, dst, x, mode);
      ExtentStep(e, n - 1);
      var y: nat := Extent(e, n - 2);
      if first.end + y <= |s| {
        BulkStep(e, n - 2, s, off, dst, x, mode);
        if first.end + y + SizeOf(e) <= |s| {
          SliceJoin(s, first.end, y, SizeOf(e));
        }
      }
    }
  }

  lemma FirstInside(e: Type, s: seq<Byte>, off: nat, dst: nat, x: Orientation, mode: ExtractKeyMode)
    requires off <= |s| && Plainly(e, s, off, dst, x, mode).Extracted?
    ensures Plainly(e, s, off, dst, x, mode).end <= |s|
  {
  }

  /** The element `k + 1` of the bulk. */
  lemma BulkStep(e: Type, k: nat, s: seq<Byte>, off: nat, dst: nat, x: Orientation, mode: ExtractKeyMode)
    requires off <= |s| && WellFormed(e) && (mode.Skip? || Whole(e)) && !x.swapSrc && !x.swapDst
    requires var first := Plainly(e, s, off, dst, x, mode); first.Extracted? && ManyTriv(e, first.end)
    requires Plainly(e, s, off, dst, x, mode).end + Extent(e, k) <= |s|
    ensures var first := Plainly(e, s, off, dst, x, mode);
            var at := first.end + Extent(e, k);
            var out := dst + |first.out| + |Emit(mode, Slice(s, first.end, Extent(e, k)))|;
            Plainly(e, s, at, out, x, mode)
            == if at + SizeOf(e) <= |s| then Extracted(Emit(mode, Slice(s, at, SizeOf(e))), at + SizeOf(e)) else Refused
  {
    hide Dec, Enc, Extent, ManyTriv, Triv, Whole, WellFormed, HasType;
    var o := Both(x.native);
    var first := Plainly(e, s, off, dst, x, mode);
    var at := first.end + Extent(e, k);
    if !mode.Skip? {
      WholeDec(e, s, off, o);
      WholeDec(e, s, at, o);
    }
    var v := Dec(e, s, off, o, Sample).v;
    DecConsumesSize(e, s, off, o, Sample, o);
    InStep(e, v, off, o, dst, o, k);
    TrivDecEnd(e, s, at, o);
    if !mode.Skip? {
      WholeEnc(e, v, dst, o);
      if at + SizeOf(e) <= |s| {
        TrivReencode(e, s, at, dst + |first.out| + Extent(e, k), x.native);
        WholeEnc(e, Dec(e, s, at, o, Sample).v, dst + |first.out| + Extent(e, k), o);
      }
    }
  }

  /**
   Extraction refuses exactly the input that plain decoding refuses, ends where it ends, emits nothing when
   skipping, and otherwise emits the plain encoding of the key of the value it passed over.
   */
  lemma {:induction false} ExtractIsPlain(
    t: Type, s: seq<Byte>, off: nat, dst: nat, x: Orientation, mode: ExtractKeyMode)
    requires off <= |s| && WellFormed(t) && SafeToExtract(t, off, x, mode)
    ensures Extract(t, s, off, dst, x, mode) == Plainly(t, s, off, dst, x, mode)
    decreases t, 1, 0
  {
    hide ExtractMembers, ExtractMany, DecMembers, DecElems, EncMembers, EncElems, Triv, DecU32, DecLeaf, WellFormed;
    WellFormedBelow(t);
    if mode.Skip? && Triv(t, off) {
      TrivDecEnd(t, s, off, Both(x.Src()));
    } else {
      match t
      case Struct(ms, _) => ExtractMembersPlain(t, |ms|, s, off, dst, x, mode);
      case Array(e, n) => ExtractManyPlain(e, n, s, off, dst, x, mode);
      case Sequence(e, _, _) => ExtractSequencePlain(t, s, off, dst, x, mode);
      case _ =>
    }
  }

  lemma {:induction false} ExtractSequencePlain(
    t: Type, s: seq<Byte>, off: nat, dst: nat, x: Orientation, mode: ExtractKeyMode)
    requires t.Sequence? && off <= |s| && WellFormed(t) && SafeToExtract(t, off, x, mode)
    ensures Extract(t, s, off, dst, x, mode) == Plainly(t, s, off, dst, x, mode)
    decreases t, 0, 0
  {
    hide ExtractMany, DecElems, EncElems, DecU32, EncU32, KeySafe, ElemsSafe;
    var c := DecU32(s, off, x.Src());
    if c.GoodWord? {
      if !Unshortened(x, mode) {
        CountedSafe(t, s, off, x.Src(), SrcMode(mode));
      }
      ExtractManyPlain(t.elem, c.n, s, c.end, dst + |Emit(mode, EncU32(c.n, dst, x.Dst()))|, x, mode);
    }
  }

  lemma {:induction false} ExtractMembersPlain(
    t: Type, n: nat, s: seq<Byte>, off: nat, dst: nat, x: Orientation, mode: ExtractKeyMode)
    requires t.Struct? && n <= |t.members| && off <= |s| && WellFormed(t) && SafeToExtract(t, off, x, mode)
    ensures ExtractMembers(t, n, s, off, dst, x, mode) == PlainlyMembers(t, n, s, off, dst, x, mode)
    decreases t, 0, n
  {
    hide Extract, Plainly, Dec, Enc, Selected, WellFormed, KeySafe;
    WellFormedBelow(t);
    if n > 0 {
      ExtractMembersPlain(t, n - 1, s, off, dst, x, mode);
      PlainMembersStep(t, n, s, off, dst, x, mode);
      var p := ExtractMembers(t, n - 1, s, off, dst, x, mode);
      var inner := MemberMode(t, n - 1, mode);
      if p.Extracted? && inner.Some? {
        if !Unshortened(x, mode) && Selected(t, n - 1, Key) {
          MemberSafe(t, n - 1, s, off, Both(x.Src()), SrcMode(mode));
        }
        ExtractIsPlain(t.members[n - 1].ty, s, p.end, dst + |p.out|, x, inner.value);
      }
    }
  }

  lemma {:induction false} ExtractManyPlain(
    e: Type, n: nat, s: seq<Byte>, off: nat, dst: nat, x: Orientation, mode: ExtractKeyMode)
    requires off <= |s| && WellFormed(e) && SafeToExtractMany(e, n, off, x, mode)
    ensures ExtractMany(e, n, s, off, dst, x, mode) == PlainlyElems(e, n, s, off, dst, x, mode)
    decreases e, 3, n
  {
    hide Extract, ExtractElems, Plainly, PlainlyElems, ManyTriv, Whole, SafeToExtract, SafeToExtractMany,
      SafeToExtractEach, Extent, WellFormed, Slice;
    NoPlainElems(e, s, off, dst, x, mode);
    if n > 0 {
      ManySafe(e, n, off, x, mode);
      ExtractIsPlain(e, s, off, dst, x, mode);
      var first := Extract(e, s, off, dst, x, mode);
      if first.Refused? || n == 1 || !(!(x.swapSrc || x.swapDst) && ManyTriv(e, first.end)) {
        ExtractOneByOne(e, n, s, off, dst, x, mode);
      } else {
        WholeIfTaken(e, n, s, off, dst, x, mode);
        BulkExtract(e, n, s, off, dst, x, mode);
      }
    }
  }

  lemma ManySafe(e: Type, n: nat, off: nat, x: Orientation, mode: ExtractKeyMode)
    requires SafeToExtractMany(e, n, off, x, mode) && n > 0
    ensures SafeToExtractEach(e, n, off, x, mode) && SafeToExtract(e, off, x, mode)
  {
    hide StartsSafe, KeySafe, ElemsSafe;
    if !Unshortened(x, mode) {
      SafeStarts(e, n, off % MAX_ALIGN, SrcMode(mode));
      FirstSafe(e, n, off % MAX_ALIGN, SrcMode(mode));
    }
  }

  lemma WholeIfTaken(e: Type, n: nat, s: seq<Byte>, off: nat, dst: nat, x: Orientation, mode: ExtractKeyMode)
    requires off <= |s| && SafeToExtractMany(e, n, off, x, mode) && n >= 2 && !x.swapSrc && !x.swapDst
    requires Plainly(e, s, off, dst, x, mode).Extracted? && ManyTriv(e, Plainly(e, s, off, dst, x, mode).end)
    ensures mode.Skip? || Whole(e)
  {
    hide Dec, Enc, StartsSafe, NeverBulk, Triv, Whole;
    if !mode.Skip? && !Whole(e) {
      NotTakenInInput(e, s, off, Both(x.Src()), SrcMode(mode));
    }
  }

  /** Where the bulk copy is not taken, elements are extracted plainly. */
  lemma {:induction false} ExtractOneByOne(
    e: Type, n: nat, s: seq<Byte>, off: nat, dst: nat, x: Orientation, mode: ExtractKeyMode)
    requires off <= |s| && WellFormed(e) && SafeToExtractEach(e, n, off, x, mode) && n > 0
    requires var first := Extract(e, s, off, dst, x, mode);
             first.Refused? || n == 1 || x.swapSrc || x.swapDst || !ManyTriv(e, first.end)
    ensures ExtractMany(e, n, s, off, dst, x, mode) == PlainlyElems(e, n, s, off, dst, x, mode)
    decreases e, 2, n + 1
  {
    hide Extract, ExtractElems, PlainlyElems, ManyTriv, StartsSafe, Extent, WellFormed, Slice;
    ExtractElemsPlain(e, n, s, off, dst, x, mode);
    ExtractElemsFirst(e, n, s, off, dst, x, mode);
  }

  /** A failing first element fails all; one element alone is just that element. */
  lemma {:induction false} ExtractElemsFirst(
    e: Type, n: nat, s: seq<Byte>, off: nat, dst: nat, x: Orientation, mode: ExtractKeyMode)
    requires off <= |s| && n > 0
    ensures var first := Extract(e, s, off, dst, x, mode);
            first.Refused? || n == 1 ==> ExtractElems(e, n, s, off, dst, x, mode) == first
    decreases n
  {
    hide Extract;
    if n > 1 {
      ExtractElemsFirst(e, n - 1, s, off, dst, x, mode);
    } else {
      assert ExtractElems(e, 0, s, off, dst, x, mode) == Extracted([], off);
    }
  }

  lemma EarlierSafe(e: Type, n: nat, off: nat, x: Orientation, mode: ExtractKeyMode)
    requires SafeToExtractEach(e, n, off, x, mode) && n > 0
    ensures SafeToExtractEach(e, n - 1, off, x, mode)
  {
    hide StartsSafe;
    if !Unshortened(x, mode) {
      FewerSafe(e, n, n - 1, off % MAX_ALIGN, SrcMode(mode));
    }
  }

  /** The last of `n` elements begins where it is safe. */
  lemma NextSafe(e: Type, n: nat, s: seq<Byte>, off: nat, dst: nat, x: Orientation, mode: ExtractKeyMode)
    requires off <= |s| && SafeToExtractEach(e, n, off, x, mode) && n > 0
    requires PlainlyElems(e, n - 1, s, off, dst, x, mode).Extracted?
    ensures SafeToExtract(e, PlainlyElems(e, n - 1, s, off, dst, x, mode).end, x, mode)
  {
    hide DecElems, EncElems, StartsSafe, KeySafe;
    if !Unshortened(x, mode) {
      ElemSafe(e, n, s, off, Both(x.Src()), SrcMode(mode));
    }
  }

  lemma {:induction false} ExtractElemsPlain(
    e: Type, n: nat, s: seq<Byte>, off: nat, dst: nat, x: Orientation, mode: ExtractKeyMode)
    requires off <= |s| && WellFormed(e) && SafeToExtractEach(e, n, off, x, mode)
    ensures ExtractElems(e, n, s, off, dst, x, mode) == PlainlyElems(e, n, s, off, dst, x, mode)
    decreases e, 2, n
  {
    hide Extract, Plainly, PlainlyElems, SafeToExtract, SafeToExtractEach, WellFormed;
    NoPlainElems(e, s, off, dst, x, mode);
    if n > 0 {
      EarlierSafe(e, n, off, x, mode);
      ExtractElemsPlain(e, n - 1, s, off, dst, x, mode);
      PlainElemsStep(e, n, s, off, dst, x, mode);
      var p := ExtractElems(e, n - 1, s, off, dst, x, mode);
      if p.Extracted? {
        NextSafe(e, n, s, off, dst, x, mode);
        ExtractIsPlain(e, s, p.end, dst + |p.out|, x, mode);
      }
    }
  }
}
