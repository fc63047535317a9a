/** Serialized keys: the same bytes whichever way a key is come by, and where that fails. */
module Keys {
  import opened Bytes
  import opened Types
  import opened Cdr
  import opened NativeMemory
  import opened Reach
  import opened WriterPaths
  import opened CdrWriter
  import opened ReaderPaths
  import opened CdrReader
  import opened KeyPaths
  import opened KeyReader

  lemma ConcatEqual(p: seq<Byte>, q: seq<Byte>, p': seq<Byte>, q': seq<Byte>)
    requires |p| == |p'|
    ensures p + q == p' + q' <==> p == p' && q == q'
  {
    if p + q == p' + q' {
      assert p == (p + q)[..|p|] && p' == (p' + q')[..|p|];
      assert q == (p + q)[|p|..] && q' == (p' + q')[|p|..];
    }
  }

  // ---------------------------------------------------------------- the key of a sample

  /** Encoding the key of a value does not look at the members outside the key. */
  lemma {:induction false} SampleKeyEnc(t: Type, m: Mem, a: int, native: Endian, off: nat, o: Orders)
    ensures Enc(t, ValueOf(t, m, a, native, Sample), off, o, Key) == Enc(t, ValueOf(t, m, a, native, Key), off, o, Key)
    decreases t, 1, 0
  {
    hide EncMembers, EncElems, EncU32, ValueMembers, ValueElems, Read, WideBytes, InOrder;
    match t
    case Struct(ms, _) => SampleKeyEncMembers(t, m, a, |ms|, native, off, o);
    case Array(e, n) => SampleKeyEncElems(e, m, a, n, n, native, off, o);
    case Sequence(e, _, _) =>
      var (n, block) := BlockAt(m, a);
      SampleKeyEncElems(e, block, 0, n, n, native, off + |EncU32(n, off, o.num)|, o);
    case _ =>
  }

  lemma {:induction false} SampleKeyEncMembers(
    t: Type, m: Mem, a: int, n: nat, native: Endian, off: nat, o: Orders)
    requires t.Struct? && n <= |t.members|
    ensures EncMembers(t, ValueMembers(t, m, a, |t.members|, native, Sample), n, off, o, Key)
            == EncMembers(t, ValueMembers(t, m, a, |t.members|, native, Key), n, off, o, Key)
    decreases t, 0, n
  {
    hide Enc, ValueOf, ValueMembers;
    if n > 0 {
      SampleKeyEncMembers(t, m, a, n - 1, native, off, o);
      ValueMemberAt(t, m, a, |t.members|, native, Sample, n - 1);
      ValueMemberAt(t, m, a, |t.members|, native, Key, n - 1);
      var p := EncMembers(t, ValueMembers(t, m, a, |t.members|, native, Key), n - 1, off, o, Key);
      SampleKeyEnc(t.members[n - 1].ty, m, a + t.members[n - 1].offset, native, off + |p|, o);
    }
  }

  lemma {:induction false} SampleKeyEncElems(
    e: Type, m: Mem, a: int, count: nat, n: nat, native: Endian, off: nat, o: Orders)
    requires n <= count
    ensures EncElems(e, ValueElems(e, m, a, count, native, Sample), n, off, o, Key)
            == EncElems(e, ValueElems(e, m, a, count, native, Key), n, off, o, Key)
    decreases e, 2, n
  {
    hide Enc, ValueOf, ValueElems, Extent;
    if n > 0 {
      SampleKeyEncElems(e, m, a, count, n - 1, native, off, o);
      ValueElemAt(e, m, a, count, native, Sample, n - 1);
      ValueElemAt(e, m, a, count, native, Key, n - 1);
      var p := EncElems(e, ValueElems(e, m, a, count, native, Key), n - 1, off, o, Key);
      SampleKeyEnc(e, m, a + Extent(e, n - 1), native, off + |p|, o);
    }
  }

  /** A type whose keys are the subject of the theorems about keys. */
  predicate Keyed(root: Type) {
    root.Struct? && WellFormed(root) && HasKeys(root) && (forall what :: KeySafe(root, 0, what))
  }

  /** A source whose value can be put on the wire. */
  predicate Sendable(root: Type, src: Source, native: Endian, what: SampleOrKey)
    requires root.Struct?
  {
    ValidSource(src) && HasType(ValueOf(root, src.mem, src.addr, native, what), root, what)
  }

  /**
   From a serialized sample as from a serialized key, of either byte order and into either byte order,
   extraction gives the key of the value that was written, in the byte order asked for. Padding at the end
   of the input is ignored.
   */
  lemma KeyOfStream(
    root: Type, src: Source, writer: Endian, reader: Endian, swapDst: bool, what: SampleOrKey, tail: seq<Byte>)
    requires root.Struct? && WellFormed(root) && KeySafe(root, 0, what) && HasKeys(root)
    requires Sendable(root, src, writer, what)
    ensures var v := ValueOf(root, src.mem, src.addr, writer, Key);
            var dst := StreamOrder(reader, swapDst);
            ExtractStream(root, Plain, Stream(root, Plain, src, writer, what) + tail, reader, swapDst, what)
            == Some(EncodingHeader(dst) + Enc(root, v, 0, Orders(dst, reader), Key))
  {
    hide Extract, Coded, ValueOf, HasType, WellFormed, KeySafe, Dec, Enc, Cut, HasKeys, Stream, Body;
    var v := ValueOf(root, src.mem, src.addr, writer, what);
    var cdr := Stream(root, Plain, src, writer, what);
    StreamParts(root, Plain, src, writer, what);
    var s := (cdr + tail)[4..];
    assert (cdr + tail)[..4] == cdr[..4] && s == cdr[4..] + tail;
    var x := Orientation(reader, HeaderSwap(cdr[..4], reader), swapDst);
    assert x.Src() == writer;
    BodyIsPlain(root, src, writer, what);
    RoundTrip(root, v, s, 0, Both(writer), what);
    CutValueOf(root, src.mem, src.addr, writer, what, false);
    ExtractIsPlain(root, s, 0, 0, x, if what.Key? then FromKey else FromSample);
    SampleKeyEnc(root, src.mem, src.addr, writer, 0, x.Out());
  }

  lemma BodyIsPlain(root: Type, src: Source, writer: Endian, what: SampleOrKey)
    requires root.Struct? && HasBody(root, what) && Safe(root, 0, what)
    ensures Body(root, src, 0, writer, what)
            == Enc(root, ValueOf(root, src.mem, src.addr, writer, what), 0, Both(writer), what)
  {
    hide Coded, ValueOf, KeySafe, Enc, HasBody;
    CodedIsPlain(root, src.mem, src.addr, 0, writer, what);
  }

  /** A serialized key is its header and the plain encoding. */
  lemma KeyStream(root: Type, src: Source, native: Endian)
    requires root.Struct? && KeySafe(root, 0, Key) && HasKeys(root)
    ensures Stream(root, Plain, src, native, Key)
            == EncodingHeader(native) + Enc(root, ValueOf(root, src.mem, src.addr, native, Key), 0, Both(native), Key)
  {
    hide Body, Enc, ValueOf, KeySafe, HasKeys;
    BodyIsPlain(root, src, native, Key);
    var k := EncodingHeader(native);
    assert k + [] == k;
  }

  /**
   The extracted key is byte for byte the key that a writer of the reader's byte order produces
   for any object with the same key.
   */
  lemma ExtractedKeyIsSerializedKey(
    root: Type, src: Source, writer: Endian, src': Source, reader: Endian, what: SampleOrKey, tail: seq<Byte>)
    requires Keyed(root) && Sendable(root, src, writer, what)
    requires ValueOf(root, src'.mem, src'.addr, reader, Key) == ValueOf(root, src.mem, src.addr, writer, Key)
    ensures ExtractStream(root, Plain, Stream(root, Plain, src, writer, what) + tail, reader, false, what)
            == Some(Stream(root, Plain, src', reader, Key))
  {
    hide ExtractStream, Stream, ValueOf, HasType, WellFormed, KeySafe, Enc, HasKeys;
    KeyOfStream(root, src, writer, reader, false, what, tail);
    KeyStream(root, src', reader);
  }

  /** Two serialized keys of machines with the same byte order agree on their bytes only if the keys are equal. */
  lemma SerializedKeyIdentifies(
    root: Type, src: Source, src': Source, native: Endian, tail: seq<Byte>, tail': seq<Byte>)
    requires root.Struct? && WellFormed(root) && KeySafe(root, 0, Key) && HasKeys(root)
    requires Sendable(root, src, native, Key) && Sendable(root, src', native, Key)
    requires Stream(root, Plain, src, native, Key) + tail == Stream(root, Plain, src', native, Key) + tail'
    ensures ValueOf(root, src.mem, src.addr, native, Key) == ValueOf(root, src'.mem, src'.addr, native, Key)
  {
    hide Stream, ValueOf, HasType, WellFormed, KeySafe, Enc, HasKeys, Dec, Cut;
    DecodeKey(root, src, native, tail);
    DecodeKey(root, src', native, tail');
  }

  lemma DecodeKey(root: Type, src: Source, native: Endian, tail: seq<Byte>)
    requires root.Struct? && KeySafe(root, 0, Key) && HasKeys(root) && Sendable(root, src, native, Key)
    ensures var cdr := Stream(root, Plain, src, native, Key) + tail;
            && |cdr| >= 4
            && var r := Dec(root, cdr[4..], 0, Both(native), Key);
               r.Good? && r.v == ValueOf(root, src.mem, src.addr, native, Key)
  {
    hide Stream, ValueOf, HasType, KeySafe, Enc, HasKeys, Dec, Cut;
    KeyStream(root, src, native);
    var v := ValueOf(root, src.mem, src.addr, native, Key);
    var b := Enc(root, v, 0, Both(native), Key);
    var cdr := Stream(root, Plain, src, native, Key) + tail;
    assert cdr[4..] == b + tail;
    RoundTrip(root, v, cdr[4..], 0, Both(native), Key);
    CutValueOf(root, src.mem, src.addr, native, Key, false);
  }

  /**
   Skipping a field in the source ends exactly where decoding it as a whole sample would end,
   fails exactly where that fails, and emits nothing.
   */
  lemma SkipIsSound(t: Type, s: seq<Byte>, off: nat, dst: nat, x: Orientation)
    requires off <= |s| && WellFormed(t)
    ensures var r := Dec(t, s, off, Both(x.Src()), Sample);
            Extract(t, s, off, dst, x, Skip) == if r.Bad? then Refused else Extracted([], r.end)
  {
    hide Extract, Dec, Enc, WellFormed;
    ExtractIsPlain(t, s, off, dst, x, Skip);
  }

  // ---------------------------------------------------------------- the key of a request

  const KEYED_OCTET: Type := Struct([Member(Prim(Octet), 0, true)], 1)

  /** The extracted key of a request that holds one octet is the first byte of its sequence number. */
  lemma RequestKeyIsSequenceNumber(src: Source, native: Endian)
    requires ValidSource(src)
    ensures Built(KEYED_OCTET)
    ensures var cdr := Stream(KEYED_OCTET, Request, src, native, Sample);
            ExtractStream(KEYED_OCTET, Request, cdr, native, false, Sample)
            == Some(EncodingHeader(native) + [src.seqno[0]])
  {
    hide Extract, Coded, Dec, Enc, Stream, Body;
    var root := KEYED_OCTET;
    assert root.members[0].isKey;
    var cdr := Stream(root, Request, src, native, Sample);
    StreamParts(root, Request, src, native, Sample);
    var x := Orientation(native, false, false);
    ExtractIsPlain(root, cdr[4..], 8, 0, x, FromSample);
    OctetAt(cdr[4..], 8, native);
    assert cdr[4..][8] == cdr[4..][8..16][0];
  }

  lemma OctetAt(s: seq<Byte>, off: nat, native: Endian)
    requires off < |s|
    ensures var r := Dec(KEYED_OCTET, s, off, Both(native), Sample);
            r.Good? && Enc(KEYED_OCTET, r.v, 0, Both(native), Key) == [s[off]]
  {
    hide DecU32, EncU32, WideBytes;
    var root := KEYED_OCTET;
    var o := Both(native);
    assert root.members[0].isKey;
    var raw := InOrder(Slice(s, off, 1), native);
    assert DecMembers(root, 0, s, off, o, Sample) == GoodSeq([], off);
    assert Dec(Prim(Octet), s, off, o, Sample) == Good(VPrim(raw), off + 1);
    assert DecMembers(root, 1, s, off, o, Sample) == GoodSeq([VPrim(raw)], off + 1);
    InOrderTwice(Slice(s, off, 1), native);
    assert Zeros(0) == [] && Slice(s, off, 1) == [s[off]];
    assert EncMembers(root, [VPrim(raw)], 0, 0, o, Key) == [];
    assert EncMembers(root, [VPrim(raw)], 1, 0, o, Key) == [s[off]];
  }

  // ---------------------------------------------------------------- wide strings in the other byte order

  /** No character of a wide string of the key looks different with its two bytes swapped. */
  predicate WideSymmetric(t: Type, v: Value)
    decreases t
  {
    match t
    case WStr(_, _) => v.VWStr? ==> forall i :: 0 <= i < |v.units| ==> v.units[i].lo == v.units[i].hi
    case Struct(ms, _) =>
      forall i :: 0 <= i < |ms| && Selected(t, i, Key) ==> WideSymmetric(ms[i].ty, Get(Fields(v), i))
    case Array(e, n) => forall i :: 0 <= i < n ==> WideSymmetric(e, Get(Elems(v), i))
    case Sequence(e, _, _) => forall i :: 0 <= i < |Elems(v)| ==> WideSymmetric(e, Get(Elems(v), i))
    case _ => true
  }

  lemma WideBytesSymmetric(units: seq<Unit16>, e: Endian)
    ensures WideBytes(units, e) == WideBytes(units, e.Other())
            <==> forall i :: 0 <= i < |units| ==> units[i].lo == units[i].hi
  {
    var b, b' := WideBytes(units, e), WideBytes(units, e.Other());
    if b == b' {
      forall i | 0 <= i < |units|
        ensures units[i].lo == units[i].hi
      {
        assert b[2 * i] == b'[2 * i];
      }
    }
  }

  /** The order of wide characters shows in an encoding just when some wide string is not symmetric. */
  lemma {:induction false} WideOrderShows(t: Type, v: Value, off: nat, num: Endian, wide: Endian)
    ensures var b, b' := Enc(t, v, off, Orders(num, wide), Key), Enc(t, v, off, Orders(num, wide.Other()), Key);
            |b| == |b'| && (b == b' <==> WideSymmetric(t, v))
    decreases t, 1, 0
  {
    hide EncMembers, EncElems, EncU32, WideBytes;
    match t
    case WStr(_, _) =>
      if v.VWStr? {
        WideBytesSymmetric(v.units, wide);
        var p := EncU32(2 * |v.units|, off, num);
        ConcatEqual(p, WideBytes(v.units, wide), p, WideBytes(v.units, wide.Other()));
      }
    case Struct(ms, _) => WideOrderShowsMembers(t, Fields(v), |ms|, off, num, wide);
    case Array(e, n) => WideOrderShowsElems(e, Elems(v), n, off, num, wide);
    case Sequence(e, _, _) =>
      var p := EncU32(|Elems(v)|, off, num);
      WideOrderShowsElems(e, Elems(v), |Elems(v)|, off + |p|, num, wide);
      ConcatEqual(p, EncElems(e, Elems(v), |Elems(v)|, off + |p|, Orders(num, wide), Key),
        p, EncElems(e, Elems(v), |Elems(v)|, off + |p|, Orders(num, wide.Other()), Key));
    case _ =>
  }

  lemma {:induction false} WideOrderShowsMembers(
    t: Type, vs: seq<Value>, n: nat, off: nat, num: Endian, wide: Endian)
    requires t.Struct? && n <= |t.members|
    ensures var b := EncMembers(t, vs, n, off, Orders(num, wide), Key);
            var b' := EncMembers(t, vs, n, off, Orders(num, wide.Other()), Key);
            && |b| == |b'|
            && (b == b' <==>
                  forall i :: 0 <= i < n && Selected(t, i, Key) ==> WideSymmetric(t.members[i].ty, Get(vs, i)))
    decreases t, 0, n
  {
    hide Enc, WideSymmetric, Selected;
    if n > 0 {
      WideOrderShowsMembers(t, vs, n - 1, off, num, wide);
      if Selected(t, n - 1, Key) {
        var p := EncMembers(t, vs, n - 1, off, Orders(num, wide), Key);
        var p' := EncMembers(t, vs, n - 1, off, Orders(num, wide.Other()), Key);
        var ty, u := t.members[n - 1].ty, Get(vs, n - 1);
        WideOrderShows(ty, u, off + |p|, num, wide);
        ConcatEqual(p, Enc(ty, u, off + |p|, Orders(num, wide), Key),
          p', Enc(ty, u, off + |p|, Orders(num, wide.Other()), Key));
      }
    }
  }

  lemma {:induction false} WideOrderShowsElems(
    e: Type, vs: seq<Value>, n: nat, off: nat, num: Endian, wide: Endian)
    ensures var b := EncElems(e, vs, n, off, Orders(num, wide), Key);
            var b' := EncElems(e, vs, n, off, Orders(num, wide.Other()), Key);
            |b| == |b'| && (b == b' <==> forall i :: 0 <= i < n ==> WideSymmetric(e, Get(vs, i)))
    decreases e, 2, n
  {
    hide Enc, WideSymmetric;
    if n > 0 {
      WideOrderShowsElems(e, vs, n - 1, off, num, wide);
      var p := EncElems(e, vs, n - 1, off, Orders(num, wide), Key);
      var p' := EncElems(e, vs, n - 1, off, Orders(num, wide.Other()), Key);
      WideOrderShows(e, Get(vs, n - 1), off + |p|, num, wide);
      ConcatEqual(p, Enc(e, Get(vs, n - 1), off + |p|, Orders(num, wide), Key),
        p', Enc(e, Get(vs, n - 1), off + |p|, Orders(num, wide.Other()), Key));
    }
  }

  /** Some wide string is part of the key. */
  predicate WideInKey(t: Type) {
    match t
    case WStr(_, _) => true
    case Struct(ms, _) => exists i :: 0 <= i < |ms| && Selected(t, i, Key) && WideInKey(ms[i].ty)
    case Array(e, _) => WideInKey(e)
    case Sequence(e, _, _) => WideInKey(e)
    case _ => false
  }

  /** A value with one element in every sequence and one unsymmetric character in every wide string. */
  function Probe(t: Type): Value
    decreases t, 1
  {
    match t
    case Prim(k) => VPrim(Zeros(k.CdrSizeOf()))
    case Str(_, _) => VStr([])
    case WStr(_, _) => VWStr([Unit16(1, 0)])
    case BoolVec(_, _) => VBools([])
    case Struct(ms, _) => VStruct(seq(|ms|, i requires 0 <= i < |ms| => Probe(ms[i].ty)))
    case Array(e, n) => VList(seq(n, i => Probe(e)))
    case Sequence(e, _, _) => VList([Probe(e)])
  }

  lemma {:induction false} ProbeTells(t: Type, what: SampleOrKey)
    requires WellFormed(t)
    ensures HasType(Probe(t), t, what)
    ensures WideSymmetric(t, Probe(t)) <==> !WideInKey(t)
    decreases t
  {
    match t
    case Struct(ms, _) =>
      forall i | 0 <= i < |ms|
        ensures HasType(Probe(ms[i].ty), ms[i].ty, what)
        ensures WideSymmetric(ms[i].ty, Probe(ms[i].ty)) <==> !WideInKey(ms[i].ty)
      {
        ProbeTells(ms[i].ty, what);
      }
      assert forall i :: 0 <= i < |ms| ==> Get(Fields(Probe(t)), i) == Probe(ms[i].ty);
    case Array(e, n) =>
      ProbeTells(e, what);
      assert Get(Elems(Probe(t)), 0) == Probe(e);
    case Sequence(e, _, _) =>
      ProbeTells(e, what);
      assert Get(Elems(Probe(t)), 0) == Probe(e);
    case WStr(_, _) => assert Probe(t).units[0].lo != Probe(t).units[0].hi;
    case _ =>
  }

  lemma {:induction false} WithoutWide(t: Type, v: Value)
    requires !WideInKey(t)
    ensures WideSymmetric(t, v)
    decreases t
  {
    match t
    case Struct(ms, _) =>
      forall i | 0 <= i < |ms| && Selected(t, i, Key)
        ensures WideSymmetric(ms[i].ty, Get(Fields(v), i))
      {
        WithoutWide(ms[i].ty, Get(Fields(v), i));
      }
    case Array(e, n) =>
      forall i | 0 <= i < n ensures WideSymmetric(e, Get(Elems(v), i)) { WithoutWide(e, Get(Elems(v), i)); }
    case Sequence(e, _, _) =>
      forall i | 0 <= i < |Elems(v)| ensures WideSymmetric(e, Get(Elems(v), i)) { WithoutWide(e, Get(Elems(v), i)); }
    case _ =>
  }

  /** Blanking what a walk leaves out does not touch the wide strings of the key. */
  lemma {:induction false} CutWideSymmetric(t: Type, v: Value, what: SampleOrKey, bits: bool)
    requires HasType(v, t, what)
    ensures WideSymmetric(t, Cut(t, v, what, bits)) <==> WideSymmetric(t, v)
    decreases t, 0
  {
    hide CutMembers, CutElems;
    match t
    case Struct(ms, _) =>
      var ws := CutMembers(t, v.fields, |ms|, what, bits);
      forall i | 0 <= i < |ms| && Selected(t, i, Key)
        ensures WideSymmetric(ms[i].ty, Get(ws, i)) <==> WideSymmetric(ms[i].ty, Get(v.fields, i))
      {
        CutMemberAt(t, v.fields, |ms|, what, bits, i);
        CutWideSymmetric(ms[i].ty, v.fields[i], what, bits);
      }
    case Array(e, n) =>
      CutElemsSymmetric(e, v.elems, n, what, bits);
      assert Elems(Cut(t, v, what, bits)) == CutElems(e, v.elems, n, what, bits) && Elems(v) == v.elems;
    case Sequence(e, _, _) =>
      CutElemsSymmetric(e, v.elems, |v.elems|, what, bits);
      assert Elems(Cut(t, v, what, bits)) == CutElems(e, v.elems, |v.elems|, what, bits) && Elems(v) == v.elems;
    case _ =>
  }

  lemma {:induction false} CutElemsSymmetric(e: Type, vs: seq<Value>, n: nat, what: SampleOrKey, bits: bool)
    requires n == |vs| && forall i :: 0 <= i < n ==> HasType(vs[i], e, what)
    ensures var ws := CutElems(e, vs, n, what, bits);
            forall i :: 0 <= i < n ==> (WideSymmetric(e, Get(ws, i)) <==> WideSymmetric(e, Get(vs, i)))
    decreases e, 1
  {
    hide CutElems, HasType, WideSymmetric;
    var ws := CutElems(e, vs, n, what, bits);
    forall i | 0 <= i < n
      ensures WideSymmetric(e, Get(ws, i)) <==> WideSymmetric(e, Get(vs, i))
    {
      CutElemAt(e, vs, n, what, bits, i);
      CutWideSymmetric(e, vs[i], what, bits);
    }
  }

  /** The key extracted into big-endian order is the big-endian encoding of the key that was written. */
  ghost predicate BigEndianKeyRight(
    root: Type, src: Source, writer: Endian, native: Endian, what: SampleOrKey, tail: seq<Byte>)
    requires root.Struct?
  {
    var v := ValueOf(root, src.mem, src.addr, writer, Key);
    ExtractStream(root, Plain, Stream(root, Plain, src, writer, what) + tail, native, !native.Big?, what)
    == Some(EncodingHeader(Big) + Enc(root, v, 0, Both(Big), Key))
  }

  /** It is so just when the machine is big-endian or no wide character of the key shows its order. */
  lemma BigEndianKeyOf(root: Type, src: Source, writer: Endian, native: Endian, what: SampleOrKey, tail: seq<Byte>)
    requires Keyed(root) && Sendable(root, src, writer, what)
    ensures BigEndianKeyRight(root, src, writer, native, what, tail)
            <==> native.Big? || WideSymmetric(root, ValueOf(root, src.mem, src.addr, writer, Key))
  {
    hide ExtractStream, Stream, ValueOf, HasType, WellFormed, KeySafe, Enc, HasKeys, WideSymmetric;
    var v, h := ValueOf(root, src.mem, src.addr, writer, Key), EncodingHeader(Big);
    KeyOfStream(root, src, writer, native, !native.Big?, what, tail);
    WideOrderShows(root, v, 0, Big, Big);
    ConcatEqual(h, Enc(root, v, 0, Orders(Big, native), Key), h, Enc(root, v, 0, Both(Big), Key));
  }

  /**
   Key extraction into big-endian order gives the big-endian encoding of the key, for every sample or key of a
   type and any padding, if and only if the machine is big-endian or no wide string is part of the key.
   */
  lemma BigEndianKeyExact(root: Type, native: Endian, writer: Endian, what: SampleOrKey)
    requires Keyed(root)
    ensures (forall src: Source, tail: seq<Byte> | Sendable(root, src, writer, what) ::
               BigEndianKeyRight(root, src, writer, native, what, tail))
            <==> native.Big? || !WideInKey(root)
  {
    hide BigEndianKeyRight, Sendable, ValueOf, WideSymmetric, WideInKey, WellFormed, KeySafe, HasKeys;
    if native.Big? || !WideInKey(root) {
      forall src: Source, tail: seq<Byte> | Sendable(root, src, writer, what)
        ensures BigEndianKeyRight(root, src, writer, native, what, tail)
      {
        if !WideInKey(root) {
          WithoutWide(root, ValueOf(root, src.mem, src.addr, writer, Key));
        }
        BigEndianKeyOf(root, src, writer, native, what, tail);
      }
    } else {
      var src := ProbeSource(root, writer, what);
      BigEndianKeyOf(root, src, writer, native, what, []);
      assert !BigEndianKeyRight(root, src, writer, native, what, []);
    }
  }

  /** The probe stored in memory. */
  lemma ProbeSource(root: Type, writer: Endian, what: SampleOrKey) returns (src: Source)
    requires root.Struct? && WellFormed(root) && WideInKey(root)
    ensures Sendable(root, src, writer, what)
    ensures ValueOf(root, src.mem, src.addr, writer, what) == Cut(root, Probe(root), what, true)
    ensures !WideSymmetric(root, ValueOf(root, src.mem, src.addr, writer, Key))
  {
    hide Store, ValueOf, HasType, Cut, WellFormed, Probe, WideSymmetric, WideInKey, Enc;
    var v := Probe(root);
    ProbeTells(root, what);
    src := Source(Zeros(8), Zeros(8), Store(root, EMPTY_MEM, 0, v, writer, what), 0);
    StoreValueOf(root, EMPTY_MEM, 0, v, writer, what);
    CutTyped(root, v, what, true);
    CutWideSymmetric(root, v, what, true);
    if what.Sample? {
      SameSymmetry(root, src.mem, 0, writer);
    }
  }

  lemma SameSymmetry(t: Type, m: Mem, a: int, native: Endian)
    ensures WideSymmetric(t, ValueOf(t, m, a, native, Sample)) <==> WideSymmetric(t, ValueOf(t, m, a, native, Key))
  {
    hide ValueOf, WideSymmetric, Enc;
    SampleKeyEnc(t, m, a, native, 0, Orders(Big, Little));
    SampleKeyEnc(t, m, a, native, 0, Orders(Big, Big));
    WideOrderShows(t, ValueOf(t, m, a, native, Sample), 0, Big, Little);
    WideOrderShows(t, ValueOf(t, m, a, native, Key), 0, Big, Little);
  }
}
