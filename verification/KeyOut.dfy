/**
 What comes out of a whole value in key mode, bulk copies included: from the writer, and from key extraction
 out of a serialized sample where nothing is swapped.
 */
module KeyOut {
  import opened Bytes
  import opened Types
  import opened TrivCache
  import opened Cdr
  import opened NativeMemory
  import opened WriterPaths
  import opened KeyPaths

  /**
   How far the source has advanced from `src` when `out` has come out: with the output if the key itself is written,
   else past the encoding `enc` of the sample.
   */
  function Ahead(src: nat, out: seq<Byte>, enc: seq<Byte>, what: SampleOrKey): nat {
    src + if what.Key? then |out| else |enc|
  }

  /** What comes out at offset `dst` of a value that stands at offset `src` of a stream in mode `what`. */
  function Out(t: Type, v: Value, src: nat, dst: nat, e: Endian, what: SampleOrKey): seq<Byte>
    decreases t, 1, 0
  {
    match t
    case Struct(ms, _) => OutMembers(t, Fields(v), |ms|, src, dst, e, what)
    case Array(u, n) => OutMany(u, Elems(v), n, src, dst, e, what)
    case Sequence(u, _, _) =>
      var p := EncU32(|Elems(v)|, dst, e);
      p + OutMany(u, Elems(v), |Elems(v)|, src + Pad(src, 4) + 4, dst + |p|, e, what)
    case _ => Enc(t, v, dst, Both(e), Key)
  }

  function OutMembers(
    t: Type, vs: seq<Value>, n: nat, src: nat, dst: nat, e: Endian, what: SampleOrKey): seq<Byte>
    requires t.Struct? && n <= |t.members|
    decreases t, 0, n
  {
    if n == 0 then []
    else
      var p := OutMembers(t, vs, n - 1, src, dst, e, what);
      var x := Ahead(src, p, EncMembers(t, vs, n - 1, src, Both(e), Sample), what);
      if Selected(t, n - 1, Key) then p + Out(t.members[n - 1].ty, Get(vs, n - 1), x, dst + |p|, e, what) else p
  }

  function OutMany(u: Type, vs: seq<Value>, n: nat, src: nat, dst: nat, e: Endian, what: SampleOrKey): seq<Byte>
    decreases u, 3, n
  {
    if n == 0 then []
    else
      var first := Out(u, Get(vs, 0), src, dst, e, what);
      var x := Ahead(src, first, Enc(u, Get(vs, 0), src, Both(e), Sample), what);
      if n == 1 then first
      else if ManyTriv(u, x) then first + EncElems(u, Behind(vs), n - 1, x, Both(e), Sample)
      else OutElems(u, vs, n, src, dst, e, what)
  }

  function OutElems(u: Type, vs: seq<Value>, n: nat, src: nat, dst: nat, e: Endian, what: SampleOrKey): seq<Byte>
    decreases u, 2, n
  {
    if n == 0 then []
    else
      var p := OutElems(u, vs, n - 1, src, dst, e, what);
      var x := Ahead(src, p, EncElems(u, vs, n - 1, src, Both(e), Sample), what);
      p + Out(u, Get(vs, n - 1), x, dst + |p|, e, what)
  }

  function Behind(vs: seq<Value>): seq<Value> {
    if vs == [] then [] else vs[1..]
  }

  // ---------------------------------------------------------------- the writer

  lemma {:induction false} CodedIsOut(t: Type, m: Mem, a: int, off: nat, e: Endian)
    ensures Coded(t, m, a, off, e, Key) == Out(t, ValueOf(t, m, a, e, Sample), off, off, e, Key)
    decreases t, 1, 0
  {
    hide CodedMembers, CodedMany, OutMembers, OutMany, ValueMembers, ValueElems, Read, EncU32, WideBytes, FlagBytes;
    match t
    case Prim(k) => InOrderTwice(Read(m, a, k.SizeOf()), e);
    case Struct(ms, _) => CodedMembersIsOut(t, m, a, |ms|, off, e);
    case Array(u, n) => CodedManyIsOut(u, m, a, n, off, e);
    case Sequence(u, _, _) =>
      var (n, block) := BlockAt(m, a);
      CodedManyIsOut(u, block, 0, n, off + |EncU32(n, off, e)|, e);
    case _ =>
  }

  lemma {:induction false} CodedMembersIsOut(t: Type, m: Mem, a: int, n: nat, off: nat, e: Endian)
    requires t.Struct? && n <= |t.members|
    ensures CodedMembers(t, m, a, n, off, e, Key)
            == OutMembers(t, ValueMembers(t, m, a, |t.members|, e, Sample), n, off, off, e, Key)
    decreases t, 0, n
  {
    hide Coded, Out, ValueOf, ValueMembers, EncMembers;
    if n > 0 {
      CodedMembersIsOut(t, m, a, n - 1, off, e);
      ValueMemberAt(t, m, a, |t.members|, e, Sample, n - 1);
      assert Selected(t, n - 1, Sample);
      CodedIsOut(t.members[n - 1].ty, m, a + t.members[n - 1].offset,
        off + |CodedMembers(t, m, a, n - 1, off, e, Key)|, e);
    }
  }

  lemma {:induction false} CodedManyIsOut(u: Type, m: Mem, a: int, n: nat, off: nat, e: Endian)
    ensures CodedMany(u, m, a, n, off, e, Key) == OutMany(u, ValueElems(u, m, a, n, e, Sample), n, off, off, e, Key)
    decreases u, 3, n
  {
    hide Coded, CodedElems, Out, OutElems, ValueOf, ValueElems, ManyTriv, Extent, Read, Enc, EncElems;
    if n > 0 {
      var vs := ValueElems(u, m, a, n, e, Sample);
      ExtentZero(u);
      ValueElemAt(u, m, a, n, e, Sample, 0);
      CodedIsOut(u, m, a, off, e);
      CodedElemsIsOut(u, m, a, n, n, off, e);
      var x := off + |Coded(u, m, a, off, e, Key)|;
      if n > 1 && ManyTriv(u, x) {
        ImageBehind(u, m, a, n, x, e);
      }
    }
  }

  /** The memory image of all elements but the first. */
  lemma ImageBehind(u: Type, m: Mem, a: int, n: nat, x: nat, e: Endian)
    requires n > 0 && ManyTriv(u, x)
    ensures EncElems(u, Behind(ValueElems(u, m, a, n, e, Sample)), n - 1, x, Both(e), Sample)
            == Read(m, a + SizeOf(u), Extent(u, n - 1))
  {
    hide ValueElems, EncElems, Extent, Read, ManyTriv;
    TrivImageElems(u, m, a + SizeOf(u), n - 1, n - 1, x, e);
    ElemsBehind(u, m, a, n, e);
  }

  lemma ElemsBehind(u: Type, m: Mem, a: int, n: nat, e: Endian)
    requires n > 0
    ensures Behind(ValueElems(u, m, a, n, e, Sample)) == ValueElems(u, m, a + SizeOf(u), n - 1, e, Sample)
  {
    hide ValueOf, ValueElems, Extent;
    var vs, ws := ValueElems(u, m, a, n, e, Sample), ValueElems(u, m, a + SizeOf(u), n - 1, e, Sample);
    forall i: nat | i < n - 1
      ensures vs[i + 1] == ws[i]
    {
      ValueElemAt(u, m, a, n, e, Sample, i + 1);
      ValueElemAt(u, m, a + SizeOf(u), n - 1, e, Sample, i);
      ExtentSplit(u, 1, i);
      ExtentZero(u);
    }
  }

  lemma {:induction false} CodedElemsIsOut(u: Type, m: Mem, a: int, count: nat, n: nat, off: nat, e: Endian)
    requires n <= count
    ensures CodedElems(u, m, a, n, off, e, Key)
            == OutElems(u, ValueElems(u, m, a, count, e, Sample), n, off, off, e, Key)
    decreases u, 2, n
  {
    hide Coded, Out, ValueOf, ValueElems, Extent, EncElems;
    if n > 0 {
      CodedElemsIsOut(u, m, a, count, n - 1, off, e);
      ValueElemAt(u, m, a, count, e, Sample, n - 1);
      CodedIsOut(u, m, a + Extent(u, n - 1), off + |CodedElems(u, m, a, n - 1, off, e, Key)|, e);
    }
  }

  // ---------------------------------------------------------------- extraction from a sample

  function Straight(e: Endian): Orientation {
    Orientation(e, false, false)
  }

  /** The value `v` stands at offset `src` of `s`, and comes back from there as it is. */
  ghost predicate Stands(t: Type, v: Value, s: seq<Byte>, src: nat, e: Endian) {
    && HasType(v, t, Sample) && Cut(t, v, Sample, false) == v
    && src <= |s| && At(s, src, Enc(t, v, src, Both(e), Sample))
  }

  lemma StandsEnd(t: Type, v: Value, s: seq<Byte>, src: nat, e: Endian)
    requires Stands(t, v, s, src, e)
    ensures Dec(t, s, src, Both(e), Sample) == Good(v, src + |Enc(t, v, src, Both(e), Sample)|)
  {
    hide HasType, Cut, Enc, Dec, At;
    RoundTrip(t, v, s, src, Both(e), Sample);
  }

  lemma {:induction false} ExtractIsOut(t: Type, v: Value, s: seq<Byte>, src: nat, dst: nat, e: Endian)
    requires WellFormed(t) && Stands(t, v, s, src, e)
    ensures Extract(t, s, src, dst, Straight(e), FromSample)
            == Extracted(Out(t, v, src, dst, e, Sample), src + |Enc(t, v, src, Both(e), Sample)|)
    decreases t, 1, 0
  {
    hide ExtractMembers, ExtractMany, OutMembers, OutMany, EncMembers, EncElems, EncU32, DecU32, HasType, Cut, At,
      WellFormed, CutMembers, CutElems;
    WellFormedBelow(t);
    match t
    case Struct(ms, _) =>
      StructParts(t, v);
      ExtractMembersIsOut(t, v.fields, |ms|, s, src, dst, e);
    case Array(u, n) =>
      ListParts(t, v);
      ExtractManyIsOut(u, v.elems, n, s, src, dst, e);
    case Sequence(u, _, _) =>
      ListParts(t, v);
      var n, p := |v.elems|, EncU32(|v.elems|, src, e);
      AtSplit(s, src, p, EncElems(u, v.elems, n, src + |p|, Both(e), Sample));
      U32At(s, src, n, e);
      ExtractManyIsOut(u, v.elems, n, s, src + |p|, dst + |EncU32(n, dst, e)|, e);
    case _ => LeafOut(t, v, s, src, dst, e);
  }

  lemma LeafOut(t: Type, v: Value, s: seq<Byte>, src: nat, dst: nat, e: Endian)
    requires t.Prim? || t.Str? || t.WStr? || t.BoolVec?
    requires Stands(t, v, s, src, e)
    ensures Extract(t, s, src, dst, Straight(e), FromSample)
            == Extracted(Out(t, v, src, dst, e, Sample), src + |Enc(t, v, src, Both(e), Sample)|)
  {
    hide HasType, Cut, At, Enc, DecLeaf;
    StandsEnd(t, v, s, src, e);
  }

  lemma StructParts(t: Type, v: Value)
    requires t.Struct? && HasType(v, t, Sample) && Cut(t, v, Sample, false) == v
    ensures v.VStruct? && |v.fields| == |t.members|
    ensures forall i :: 0 <= i < |t.members| ==>
              HasType(v.fields[i], t.members[i].ty, Sample)
              && Cut(t.members[i].ty, v.fields[i], Sample, false) == v.fields[i]
  {
    hide CutMembers;
    forall i | 0 <= i < |t.members|
      ensures HasType(v.fields[i], t.members[i].ty, Sample)
              && Cut(t.members[i].ty, v.fields[i], Sample, false) == v.fields[i]
    {
      assert Selected(t, i, Sample);
      CutMemberAt(t, v.fields, |t.members|, Sample, false, i);
    }
  }

  lemma ListParts(t: Type, v: Value)
    requires (t.Array? || t.Sequence?) && HasType(v, t, Sample) && Cut(t, v, Sample, false) == v
    ensures v.VList? && (t.Array? ==> |v.elems| == t.count) && (t.Sequence? ==> |v.elems| <= UINT32_MAX)
    ensures forall i :: 0 <= i < |v.elems| ==>
              HasType(v.elems[i], t.elem, Sample) && Cut(t.elem, v.elems[i], Sample, false) == v.elems[i]
  {
    hide CutElems;
    forall i | 0 <= i < |v.elems|
      ensures Cut(t.elem, v.elems[i], Sample, false) == v.elems[i]
    {
      CutElemAt(t.elem, v.elems, |v.elems|, Sample, false, i);
    }
  }

  lemma {:induction false} ExtractMembersIsOut(
    t: Type, vs: seq<Value>, n: nat, s: seq<Byte>, src: nat, dst: nat, e: Endian)
    requires t.Struct? && WellFormed(t) && n <= |t.members| && n <= |vs| && src <= |s|
    requires forall i :: 0 <= i < n ==>
               HasType(vs[i], t.members[i].ty, Sample) && Cut(t.members[i].ty, vs[i], Sample, false) == vs[i]
    requires At(s, src, EncMembers(t, vs, n, src, Both(e), Sample))
    ensures ExtractMembers(t, n, s, src, dst, Straight(e), FromSample)
            == Extracted(OutMembers(t, vs, n, src, dst, e, Sample),
                         src + |EncMembers(t, vs, n, src, Both(e), Sample)|)
    decreases t, 0, n
  {
    hide Extract, Out, Enc, HasType, Cut, At, WellFormed;
    if n > 0 {
      WellFormedBelow(t);
      assert Selected(t, n - 1, Sample);
      SplitMembers(t, vs, n, s, src, Both(e), Sample);
      ExtractMembersIsOut(t, vs, n - 1, s, src, dst, e);
      var x := src + |EncMembers(t, vs, n - 1, src, Both(e), Sample)|;
      var out := OutMembers(t, vs, n - 1, src, dst, e, Sample);
      if Selected(t, n - 1, Key) {
        ExtractIsOut(t.members[n - 1].ty, vs[n - 1], s, x, dst + |out|, e);
      } else {
        SkipStands(t.members[n - 1].ty, vs[n - 1], s, x, dst + |out|, e);
      }
    }
  }

  lemma SkipStands(t: Type, v: Value, s: seq<Byte>, src: nat, dst: nat, e: Endian)
    requires WellFormed(t) && Stands(t, v, s, src, e)
    ensures Extract(t, s, src, dst, Straight(e), Skip) == Extracted([], src + |Enc(t, v, src, Both(e), Sample)|)
  {
    hide Extract, Enc, Dec, HasType, Cut, At, WellFormed;
    StandsEnd(t, v, s, src, e);
    ExtractIsPlain(t, s, src, dst, Straight(e), Skip);
  }

  lemma {:induction false} ExtractManyIsOut(
    u: Type, vs: seq<Value>, n: nat, s: seq<Byte>, src: nat, dst: nat, e: Endian)
    requires WellFormed(u) && n == |vs| && src <= |s|
    requires forall i :: 0 <= i < n ==> HasType(vs[i], u, Sample) && Cut(u, vs[i], Sample, false) == vs[i]
    requires At(s, src, EncElems(u, vs, n, src, Both(e), Sample))
    ensures ExtractMany(u, n, s, src, dst, Straight(e), FromSample)
            == Extracted(OutMany(u, vs, n, src, dst, e, Sample), src + |EncElems(u, vs, n, src, Both(e), Sample)|)
    decreases u, 3, n
  {
    hide Extract, ExtractElems, ExtractMany, Out, OutElems, OutMany, Enc, EncElems, HasType, Cut, At, WellFormed,
      ManyTriv, Extent, Slice;
    if n == 0 {
      NoElemsOut(u, vs, s, src, dst, e);
    } else {
      ElemsFromFirst(u, vs, n, src, Both(e));
      var p := Enc(u, vs[0], src, Both(e), Sample);
      var rest := EncElems(u, Behind(vs), n - 1, src + |p|, Both(e), Sample);
      AtSplit(s, src, p, rest);
      ExtractIsOut(u, vs[0], s, src, dst, e);
      ExtractElemsIsOut(u, vs, n, s, src, dst, e);
      if n == 1 {
        NoElemsEncoded(u, Behind(vs), src + |p|, Both(e));
      } else if ManyTriv(u, src + |p|) {
        BulkSize(u, Behind(vs), n - 1, src + |p|, e);
        SliceAt(s, src + |p|, rest);
      }
      ManyOutStep(u, vs, n, s, src, dst, e);
    }
  }

  lemma NoElemsOut(u: Type, vs: seq<Value>, s: seq<Byte>, src: nat, dst: nat, e: Endian)
    requires src <= |s|
    ensures ExtractMany(u, 0, s, src, dst, Straight(e), FromSample)
            == Extracted(OutMany(u, vs, 0, src, dst, e, Sample), src + |EncElems(u, vs, 0, src, Both(e), Sample)|)
  {
  }

  lemma ManyOutStep(u: Type, vs: seq<Value>, n: nat, s: seq<Byte>, src: nat, dst: nat, e: Endian)
    requires 0 < n == |vs| && src <= |s|
    requires var p := Enc(u, vs[0], src, Both(e), Sample);
             var rest := EncElems(u, Behind(vs), n - 1, src + |p|, Both(e), Sample);
             && EncElems(u, vs, n, src, Both(e), Sample) == p + rest && (n == 1 ==> rest == [])
             && Extract(u, s, src, dst, Straight(e), FromSample)
                == Extracted(Out(u, vs[0], src, dst, e, Sample), src + |p|)
             && (n > 1 && ManyTriv(u, src + |p|) ==>
                   && |rest| == Extent(u, n - 1) && src + |p| + |rest| <= |s|
                   && Slice(s, src + |p|, |rest|) == rest)
    requires ExtractElems(u, n, s, src, dst, Straight(e), FromSample)
             == Extracted(OutElems(u, vs, n, src, dst, e, Sample), src + |EncElems(u, vs, n, src, Both(e), Sample)|)
    ensures ExtractMany(u, n, s, src, dst, Straight(e), FromSample)
            == Extracted(OutMany(u, vs, n, src, dst, e, Sample), src + |EncElems(u, vs, n, src, Both(e), Sample)|)
  {
    hide Extract, ExtractElems, Out, OutElems, Enc, EncElems, ManyTriv, Extent;
  }

  lemma NoElemsEncoded(u: Type, vs: seq<Value>, x: nat, o: Orders)
    ensures EncElems(u, vs, 0, x, o, Sample) == []
  {
  }

  /** Consecutive elements as the first one and the others. */
  lemma {:induction false} ElemsFromFirst(u: Type, vs: seq<Value>, n: nat, off: nat, o: Orders)
    requires 0 < n <= |vs|
    ensures var p := Enc(u, vs[0], off, o, Sample);
            EncElems(u, vs, n, off, o, Sample) == p + EncElems(u, Behind(vs), n - 1, off + |p|, o, Sample)
    decreases n
  {
    hide Enc;
    var p := Enc(u, vs[0], off, o, Sample);
    if n == 1 {
      assert EncElems(u, vs, 0, off, o, Sample) == [];
      assert [] + p == p + [];
    } else {
      ElemsFromFirst(u, vs, n - 1, off, o);
      var q := EncElems(u, Behind(vs), n - 2, off + |p|, o, Sample);
      assert Get(Behind(vs), n - 2) == vs[n - 1];
      var y := Enc(u, vs[n - 1], off + |p| + |q|, o, Sample);
      assert p + q + y == p + (q + y);
    }
  }

  /** Elements that are trivially serialized where they stand take as many bytes as in memory. */
  lemma {:induction false} BulkSize(u: Type, vs: seq<Value>, n: nat, x: nat, e: Endian)
    requires n <= |vs| && ManyTriv(u, x) && forall i :: 0 <= i < n ==> HasType(vs[i], u, Sample)
    ensures |EncElems(u, vs, n, x, Both(e), Sample)| == Extent(u, n)
    decreases n
  {
    hide Enc, HasType, Triv, Extent, ManyTriv;
    ExtentZero(u);
    if n > 0 {
      BulkSize(u, vs, n - 1, x, e);
      ManyTrivEverywhere(u, x, n - 1);
      TrivSize(u, vs[n - 1], x + Extent(u, n - 1), e);
      ExtentStep(u, n);
    }
  }

  lemma TrivSize(u: Type, v: Value, x: nat, e: Endian)
    requires Triv(u, x) && HasType(v, u, Sample)
    ensures |Enc(u, v, x, Both(e), Sample)| == SizeOf(u)
  {
    hide Enc, HasType, Triv, Dec, Cut;
    var s := Zeros(x) + Enc(u, v, x, Both(e), Sample);
    assert At(s, x, Enc(u, v, x, Both(e), Sample));
    RoundTrip(u, v, s, x, Both(e), Sample);
    TrivDecEnd(u, s, x, Both(e));
  }

  lemma {:induction false} ExtractElemsIsOut(
    u: Type, vs: seq<Value>, n: nat, s: seq<Byte>, src: nat, dst: nat, e: Endian)
    requires WellFormed(u) && n <= |vs| && src <= |s|
    requires forall i :: 0 <= i < n ==> HasType(vs[i], u, Sample) && Cut(u, vs[i], Sample, false) == vs[i]
    requires At(s, src, EncElems(u, vs, n, src, Both(e), Sample))
    ensures ExtractElems(u, n, s, src, dst, Straight(e), FromSample)
            == Extracted(OutElems(u, vs, n, src, dst, e, Sample), src + |EncElems(u, vs, n, src, Both(e), Sample)|)
    decreases u, 2, n
  {
    hide Extract, ExtractElems, Out, OutElems, Enc, EncElems, HasType, Cut, At, WellFormed;
    if n > 0 {
      SplitElems(u, vs, n, s, src, Both(e), Sample);
      ExtractElemsIsOut(u, vs, n - 1, s, src, dst, e);
      var x := src + |EncElems(u, vs, n - 1, src, Both(e), Sample)|;
      ExtractIsOut(u, vs[n - 1], s, x, dst + |OutElems(u, vs, n - 1, src, dst, e, Sample)|, e);
    }
    ElemsOutStep(u, vs, n, s, src, dst, e);
  }

  lemma ElemsOutStep(u: Type, vs: seq<Value>, n: nat, s: seq<Byte>, src: nat, dst: nat, e: Endian)
    requires n <= |vs| && src <= |s|
    requires n > 0 ==>
               var x := src + |EncElems(u, vs, n - 1, src, Both(e), Sample)|;
               var p := OutElems(u, vs, n - 1, src, dst, e, Sample);
               && x <= |s| && ExtractElems(u, n - 1, s, src, dst, Straight(e), FromSample) == Extracted(p, x)
               && Extract(u, s, x, dst + |p|, Straight(e), FromSample)
                  == Extracted(Out(u, vs[n - 1], x, dst + |p|, e, Sample),
                               x + |Enc(u, vs[n - 1], x, Both(e), Sample)|)
    ensures ExtractElems(u, n, s, src, dst, Straight(e), FromSample)
            == Extracted(OutElems(u, vs, n, src, dst, e, Sample), src + |EncElems(u, vs, n, src, Both(e), Sample)|)
  {
    hide Extract, Out, Enc;
  }
}
