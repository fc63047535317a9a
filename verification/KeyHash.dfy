/** Comparing keys and hashing them, and what that says about the values they were made from. */
module KeyHash {
  import opened Bytes
  import opened Types
  import opened Cdr
  import opened NativeMemory
  import opened Reach
  import opened WriterPaths
  import opened SizeWalk
  import opened SizeBounds
  import opened BuiltTypes
  import opened Writer
  import opened CdrWriter
  import KeyPaths
  import opened KeyReader
  import opened Keys
  import opened Serdata

  method EqKey(a: SerdataRmw, b: SerdataRmw) returns (r: bool)
    ensures r <==> a.key == b.key
  {
    r := |a.key| == |b.key| && (|a.key| == 0 || a.key == b.key);
  }

  lemma {:induction false} SampleTypedKey(t: Type, m: Mem, a: int, native: Endian)
    requires HasType(ValueOf(t, m, a, native, Sample), t, Sample)
    ensures HasType(ValueOf(t, m, a, native, Key), t, Key)
    decreases t, 1
  {
    hide ValueMembers, ValueElems, Read, InOrder;
    match t
    case Struct(ms, _) =>
      forall i | 0 <= i < |ms| && Selected(t, i, Key)
        ensures HasType(ValueMembers(t, m, a, |ms|, native, Key)[i], ms[i].ty, Key)
      {
        ValueMemberAt(t, m, a, |ms|, native, Sample, i);
        ValueMemberAt(t, m, a, |ms|, native, Key, i);
        assert Selected(t, i, Sample);
        SampleTypedKey(ms[i].ty, m, a + ms[i].offset, native);
      }
    case Array(e, n) => SampleTypedElems(e, m, a, n, native);
    case Sequence(e, _, _) => SampleTypedElems(e, BlockAt(m, a).1, 0, BlockAt(m, a).0, native);
    case _ =>
  }

  lemma {:induction false} SampleTypedElems(e: Type, m: Mem, a: int, n: nat, native: Endian)
    requires forall i :: 0 <= i < n ==> HasType(ValueElems(e, m, a, n, native, Sample)[i], e, Sample)
    ensures forall i :: 0 <= i < n ==> HasType(ValueElems(e, m, a, n, native, Key)[i], e, Key)
    decreases e, 2
  {
    hide ValueElems, HasType, ValueOf, Extent;
    forall i: nat | i < n
      ensures HasType(ValueElems(e, m, a, n, native, Key)[i], e, Key)
    {
      ValueElemAt(e, m, a, n, native, Sample, i);
      ValueElemAt(e, m, a, n, native, Key, i);
      SampleTypedKey(e, m, a + Extent(e, i), native);
    }
  }

  /** What can be sent as a sample can be sent as a key. */
  lemma SendableKey(root: Type, src: Source, native: Endian, what: SampleOrKey)
    requires root.Struct? && Sendable(root, src, native, what)
    ensures Sendable(root, src, native, Key)
  {
    hide ValueOf, HasType;
    if what.Sample? {
      SampleTypedKey(root, src.mem, src.addr, native);
    }
  }

  // ---------------------------------------------------------------- equality of keys

  /**
   Keys that were received are equal as bytes if and only if they are equal as values, whatever the byte
   orders of the writers and whether samples or keys were sent.
   */
  lemma ReceivedKeysEqual(
    root: Type, native: Endian, src: Source, writer: Endian, what: SampleOrKey, tail: seq<Byte>,
    src': Source, writer': Endian, what': SampleOrKey, tail': seq<Byte>)
    requires Keyed(root) && Sendable(root, src, writer, what) && Sendable(root, src', writer', what')
    ensures KeyIn(root, Plain, native, what, Stream(root, Plain, src, writer, what) + tail)
            == KeyIn(root, Plain, native, what', Stream(root, Plain, src', writer', what') + tail')
            <==> ValueOf(root, src.mem, src.addr, writer, Key) == ValueOf(root, src'.mem, src'.addr, writer', Key)
  {
    hide ExtractStream, Stream, ValueOf, HasType, WellFormed, KeySafe, Enc, HasKeys, Dec;
    KeyOfStream(root, src, writer, native, false, what, tail);
    KeyOfStream(root, src', writer', native, false, what', tail');
    var v := ValueOf(root, src.mem, src.addr, writer, Key);
    var v' := ValueOf(root, src'.mem, src'.addr, writer', Key);
    var h := EncodingHeader(native);
    ConcatEqual(h, Enc(root, v, 0, Both(native), Key), h, Enc(root, v', 0, Both(native), Key));
    SendableKey(root, src, writer, what);
    SendableKey(root, src', writer', what');
    EncodingIdentifies(root, src, writer, native);
    EncodingIdentifies(root, src', writer', native);
  }

  lemma EncodingIdentifies(root: Type, src: Source, writer: Endian, native: Endian)
    requires root.Struct? && Sendable(root, src, writer, Key)
    ensures var v := ValueOf(root, src.mem, src.addr, writer, Key);
            var r := Dec(root, Enc(root, v, 0, Both(native), Key), 0, Both(native), Key);
            r.Good? && r.v == v
  {
    hide ValueOf, HasType, Enc, Dec, Cut;
    var v := ValueOf(root, src.mem, src.addr, writer, Key);
    RoundTrip(root, v, Enc(root, v, 0, Both(native), Key), 0, Both(native), Key);
    CdrReader.CutValueOf(root, src.mem, src.addr, writer, Key, false);
  }

  /**
   The key made from a sample equals the key received for the same value
   if and only if the reported size of the serialized key is right.
   */
  lemma MadeEqualsReceived(
    root: Type, native: Endian, src: Source, src': Source, writer: Endian, what: SampleOrKey, tail: seq<Byte>)
    requires Keyed(root) && Sendable(root, src', writer, what) && ValidSource(src)
    requires ValueOf(root, src.mem, src.addr, native, Key) == ValueOf(root, src'.mem, src'.addr, writer, Key)
    ensures KeyMade(root, Plain, src, native)
            == KeyIn(root, Plain, native, what, Stream(root, Plain, src', writer, what) + tail)
            <==> SizeIsRight(root, Plain, src, native, Key)
  {
    hide ExtractStream, Stream, ValueOf, HasType, WellFormed, KeySafe, HasKeys, ReportedSize;
    ExtractedKeyIsSerializedKey(root, src', writer, src, native, what, tail);
  }

  /** Within its bounds a value is serialized without writing beyond the buffer of the reported size. */
  lemma InBoundsFits(root: Type, src: Source, native: Endian, what: SampleOrKey)
    requires root.Struct? && Safe(root, 0, what) && SourceInBounds(root, src, native, what)
    requires BoundExists(root, Plain, what, MinOrMax.Max)
    ensures Excess(|Stream(root, Plain, src, native, what)|, ReportedSize(root, Plain, src, native, what)) == 0
    ensures what.Key? ==> KeyOverrun(root, Plain, src, native) == 0
  {
    hide Stream, SourceInBounds, BoundExists, SizeBound;
    MaximumCovers(root, Plain, src, native, what);
  }

  // ---------------------------------------------------------------- key hashes

  const HASH_SIZE: nat := 16

  /** What is hashed: the key in big-endian order without its encoding header. */
  function HashInput(root: Type, variant: SampleOrRequest, native: Endian, key: seq<Byte>): Option<seq<Byte>>
    requires root.Struct? && HasKeys(root)
  {
    var k := ExtractStream(root, variant, key, native, !native.Big?, Key);
    if k.None? then None else Some(k.value[4..])
  }

  predicate CopiesKey(root: Type, variant: SampleOrRequest, forceMd5: bool)
    requires root.Struct?
  {
    SizeBound(root, variant, Key, MinOrMax.Max) <= HASH_SIZE + 4 && !forceMd5
  }

  /** The hash of an already serialized key; `None` is an exception of the extraction. */
  function HashOf(
    root: Type, variant: SampleOrRequest, native: Endian, key: seq<Byte>, forceMd5: bool, md5: seq<Byte> -> seq<Byte>)
    : Option<seq<Byte>>
    requires root.Struct?
  {
    if !HasKeys(root) then Some(Zeros(HASH_SIZE))
    else
      var b := HashInput(root, variant, native, key);
      if b.None? then None
      else if CopiesKey(root, variant, forceMd5) then Some(Overlaid(Zeros(HASH_SIZE), b.value))
      else Some(md5(b.value))
  }

  /** How far copying a key writes beyond the hash. */
  function HashOverrun(root: Type, variant: SampleOrRequest, native: Endian, key: seq<Byte>, forceMd5: bool): nat
    requires root.Struct?
  {
    if HasKeys(root) && CopiesKey(root, variant, forceMd5) then
      var b := HashInput(root, variant, native, key);
      if b.None? then 0 else Excess(|b.value|, HASH_SIZE)
    else 0
  }

  method GetKeyhash(d: SerdataRmw, forceMd5: bool, md5: seq<Byte> -> seq<Byte>)
    returns (r: Option<seq<Byte>>, overrun: nat)
    requires d.ty.Valid()
    ensures r == HashOf(d.ty.root, d.ty.variant, d.ty.native, d.key, forceMd5, md5)
    ensures overrun == HashOverrun(d.ty.root, d.ty.variant, d.ty.native, d.key, forceMd5)
  {
    hide SizeBound, KeyPaths.Extract;
    overrun := 0;
    var buf := new Byte[HASH_SIZE](i => 0);
    assert buf[..] == Zeros(HASH_SIZE);
    if d.ty.containsKeys {
      var k := d.ty.reader.ExtractKeyBigEndian(d.key, Key);
      if k.None? {
        return None, 0;
      }
      var b := k.value[4..];
      if d.ty.writer.GetMax(Key) <= 20 && !forceMd5 {
        var cursor := new WriteCursor(buf);
        cursor.PutBytes(b);
        overrun := cursor.Overrun();
        assert [] + b == b;
      } else {
        return Some(md5(b)), 0;
      }
    }
    r := Some(buf[..]);
  }

  /** What is hashed has its numbers in big-endian order and its wide characters in the order of the machine. */
  lemma HashedKey(root: Type, native: Endian, src: Source, tail: seq<Byte>)
    requires Keyed(root) && Sendable(root, src, native, Key)
    ensures HashInput(root, Plain, native, Stream(root, Plain, src, native, Key) + tail)
            == Some(Enc(root, ValueOf(root, src.mem, src.addr, native, Key), 0, Orders(Big, native), Key))
  {
    hide ExtractStream, Stream, ValueOf, HasType, WellFormed, KeySafe, HasKeys, Enc;
    KeyOfStream(root, src, native, native, !native.Big?, Key, tail);
    var b := Enc(root, ValueOf(root, src.mem, src.addr, native, Key), 0, Orders(Big, native), Key);
    assert (EncodingHeader(Big) + b)[4..] == b;
  }

  /** The key that is copied instead of hashed has room in the hash, if it is within its bounds. */
  lemma CopiedKeyFits(root: Type, native: Endian, src: Source, tail: seq<Byte>)
    requires Keyed(root) && SourceInBounds(root, src, native, Key) && CopiesKey(root, Plain, false)
    ensures var b := HashInput(root, Plain, native, Stream(root, Plain, src, native, Key) + tail);
            b.Some? && |b.value| <= HASH_SIZE
  {
    hide HashInput, Stream, ValueOf, HasType, WellFormed, KeySafe, HasKeys, Enc, InBounds, End, Countable;
    var v := ValueOf(root, src.mem, src.addr, native, Key);
    InBoundsTyped(v, root, Key);
    HashedKey(root, native, src, tail);
    UpperBound(root, v, 0, 0, Orders(Big, native), Key, OVERCOUNT);
  }

  /**
   Copying a key runs beyond the hash if and only if its encoding is longer than the hash,
   which no key within its bounds is.
   */
  lemma HashOverrunExact(root: Type, native: Endian, src: Source, tail: seq<Byte>)
    requires Keyed(root) && Sendable(root, src, native, Key) && CopiesKey(root, Plain, false)
    ensures var v := ValueOf(root, src.mem, src.addr, native, Key);
            && HashOverrun(root, Plain, native, Stream(root, Plain, src, native, Key) + tail, false)
               == Excess(|Enc(root, v, 0, Both(Big), Key)|, HASH_SIZE)
            && (InBounds(v, root, Key) ==> |Enc(root, v, 0, Both(Big), Key)| <= HASH_SIZE)
  {
    hide HashInput, Stream, ValueOf, HasType, WellFormed, KeySafe, Enc, InBounds, End, Countable, WideSymmetric;
    var v := ValueOf(root, src.mem, src.addr, native, Key);
    HashedKey(root, native, src, tail);
    WideOrderShows(root, v, 0, Big, Big);
    CopiesMeans(root);
    if InBounds(v, root, Key) {
      UpperBound(root, v, 0, 0, Both(Big), Key, OVERCOUNT);
    }
  }

  // ---------------------------------------------------------------- keys beyond their bounds

  /** No received key of the type is copied beyond the hash. */
  ghost predicate NoOverrun(root: Type, src: Source, native: Endian, tail: seq<Byte>)
    requires root.Struct?
  {
    HashOverrun(root, Plain, native, Stream(root, Plain, src, native, Key) + tail, false) == 0
  }

  /**
   For a built type, copying a key never runs beyond the hash, whatever key comes in, if and only if keys of the type
   are not copied or no sequence is part of them. No reader checks bounds, and keys with strings are never copied.
   */
  lemma NoOverrunExact(root: Type, native: Endian)
    requires Keyed(root) && Built(root)
    ensures (forall src: Source, tail: seq<Byte> | Sendable(root, src, native, Key) ::
               NoOverrun(root, src, native, tail))
            <==> !CopiesKey(root, Plain, false) || !SequenceInKey(root)
  {
    hide NoOverrun, ValueOf, HasType, WellFormed, KeySafe, HasKeys, SequenceInKey, CopiesKey, Built;
    if CopiesKey(root, Plain, false) && SequenceInKey(root) {
      var src := OverrunningSource(root, native);
      assert !NoOverrun(root, src, native, []);
    } else {
      forall src: Source, tail: seq<Byte> | Sendable(root, src, native, Key)
        ensures NoOverrun(root, src, native, tail)
      {
        HarmlessCopy(root, native, src, tail);
      }
    }
  }

  lemma HarmlessCopy(root: Type, native: Endian, src: Source, tail: seq<Byte>)
    requires Keyed(root) && Built(root) && Sendable(root, src, native, Key)
    requires !CopiesKey(root, Plain, false) || !SequenceInKey(root)
    ensures NoOverrun(root, src, native, tail)
  {
    hide HashInput, Stream, ValueOf, HasType, WellFormed, KeySafe, Enc, InBounds, SequenceInKey, CopiesKey, Built;
    if CopiesKey(root, Plain, false) {
      CopiedHasNoText(root);
      FixedInBounds(root, ValueOf(root, src.mem, src.addr, native, Key));
      HashOverrunExact(root, native, src, tail);
    }
  }

  /** Keys with strings have no maximum and are digested. */
  lemma CopiedHasNoText(root: Type)
    requires Keyed(root) && Built(root) && CopiesKey(root, Plain, false)
    ensures !TextInKey(root)
  {
    hide End, WellFormed, KeySafe, HasKeys, InBounds, IsFull, Enc, Built, TextInKey;
    if TextInKey(root) {
      TextUnbounded(root, 0);
      CopiesMeans(root);
      FullIsFull(root, Key);
      FullAttainsMaximum(root, Full(root), 0, Both(Big), Key);
      UpperBound(root, Full(root), 0, 0, Both(Big), Key, OVERCOUNT);
    }
  }

  lemma OverrunningSource(root: Type, native: Endian) returns (src: Source)
    requires Keyed(root) && CopiesKey(root, Plain, false) && SequenceInKey(root)
    ensures Sendable(root, src, native, Key) && !NoOverrun(root, src, native, [])
  {
    hide HashOverrun, Stream, ValueOf, HasType, WellFormed, KeySafe, Enc, InBounds, SequenceInKey, CopiesKey;
    var m := LongMemory(root, HASH_SIZE + 1, native);
    src := Source(Zeros(8), Zeros(8), m, 0);
    HashOverrunExact(root, native, src, []);
  }

  /** A sequence of at most four octets as the key of a message. */
  const OCTETS_IN_SEQUENCE: Type := Struct([Member(Sequence(Prim(Octet), 4, 24), 0, true)], 24)

  /** Memory in which the sequence has a hundred octets. */
  const LONG_SEQUENCE: Mem := Own(EMPTY_MEM, 0, Block(100, EMPTY_MEM))

  /** No reader checks bounds: a hundred octets are received, and hashing them runs 88 bytes beyond the hash. */
  lemma LongKeyOverruns(native: Endian, tail: seq<Byte>)
    ensures var root, src := OCTETS_IN_SEQUENCE, Source(Zeros(8), Zeros(8), LONG_SEQUENCE, 0);
            && Built(root) && Keyed(root) && CopiesKey(root, Plain, false) && Sendable(root, src, native, Key)
            && HashOverrun(root, Plain, native, Stream(root, Plain, src, native, Key) + tail, false) == 88
  {
    hide HashOverrun, Stream, Enc, End, Countable, ValueOf, CopiesKey;
    var root, src := OCTETS_IN_SEQUENCE, Source(Zeros(8), Zeros(8), LONG_SEQUENCE, 0);
    assert root.members[0].isKey;
    SequenceKeyEnd();
    CopiesMeans(root);
    LongSequenceValue(native);
    HashOverrunExact(root, native, src, tail);
  }

  lemma SequenceKeyEnd()
    ensures End(OCTETS_IN_SEQUENCE, 0, Key, Max, OVERCOUNT) == 10 && Countable(OCTETS_IN_SEQUENCE, Key, Max)
  {
    var t, e := OCTETS_IN_SEQUENCE, Prim(Octet);
    assert t.members[0].isKey;
    assert End(e, 4, Key, Max, OVERCOUNT) == 5 && End(e, 5, Key, Max, OVERCOUNT) == 6;
    assert Strides(4, 1) == 4;
    assert EndMany(e, 4, 4, Key, Max, OVERCOUNT) == 10;
    assert EndMembers(t, 0, 0, Key, Max, OVERCOUNT) == 0;
    assert EndMembers(t, 1, 0, Key, Max, OVERCOUNT) == 10;
  }

  lemma {:induction false} OctetsEncoded(vs: seq<Value>, n: nat, off: nat)
    requires n <= |vs| && forall i :: 0 <= i < n ==> HasType(vs[i], Prim(Octet), Key)
    ensures |EncElems(Prim(Octet), vs, n, off, Both(Big), Key)| == n
  {
    if n > 0 {
      OctetsEncoded(vs, n - 1, off);
    }
  }

  lemma LongSequenceValue(native: Endian)
    ensures var v := ValueOf(OCTETS_IN_SEQUENCE, LONG_SEQUENCE, 0, native, Key);
            HasType(v, OCTETS_IN_SEQUENCE, Key) && |Enc(OCTETS_IN_SEQUENCE, v, 0, Both(Big), Key)| == 104
  {
    hide WideBytes, ValueElems, EncElems;
    var t, e := OCTETS_IN_SEQUENCE, Prim(Octet);
    assert t.members[0].isKey;
    var v := ValueOf(t, LONG_SEQUENCE, 0, native, Key);
    ValueMemberAt(t, LONG_SEQUENCE, 0, 1, native, Key, 0);
    assert BlockAt(LONG_SEQUENCE, 0) == (100, EMPTY_MEM);
    var vs := ValueElems(e, EMPTY_MEM, 0, 100, native, Key);
    assert Get(v.fields, 0) == VList(vs);
    forall i: nat | i < 100 ensures HasType(vs[i], e, Key) { ValueElemAt(e, EMPTY_MEM, 0, 100, native, Key, i); }
    OctetsEncoded(vs, 100, 4);
    assert EncMembers(t, v.fields, 0, 0, Both(Big), Key) == [];
    assert |EncMembers(t, v.fields, 1, 0, Both(Big), Key)| == 104;
  }

  /** The hash that DDSI-RTPS section 9.6.3.8 asks for, of a key that is short enough to be its own hash. */
  function PlainHash(root: Type, v: Value): seq<Byte> {
    Overlaid(Zeros(HASH_SIZE), Enc(root, v, 0, Both(Big), Key))
  }

  /**
   For a built type a key that is copied is hashed as asked for, on every machine:
   no wide string is part of it, so that the order of wide characters does not matter.
   */
  lemma CopiedKeyIsHash(root: Type, native: Endian, src: Source, tail: seq<Byte>, md5: seq<Byte> -> seq<Byte>)
    requires Keyed(root) && Built(root) && Sendable(root, src, native, Key) && CopiesKey(root, Plain, false)
    ensures HashOf(root, Plain, native, Stream(root, Plain, src, native, Key) + tail, false, md5)
            == Some(PlainHash(root, ValueOf(root, src.mem, src.addr, native, Key)))
  {
    hide HashInput, Stream, ValueOf, HasType, WellFormed, KeySafe, HasKeys, Enc, CopiesKey, WideSymmetric, Built;
    var v := ValueOf(root, src.mem, src.addr, native, Key);
    HashedKey(root, native, src, tail);
    CopiedHasNoText(root);
    WideIsText(root);
    WithoutWide(root, v);
    WideOrderShows(root, v, 0, Big, Big);
  }

  /** The two sources hold the same key, each for a machine of its own byte order. */
  predicate SameKey(root: Type, src: Source, src': Source)
    requires root.Struct?
  {
    && Sendable(root, src, Little, Key) && Sendable(root, src', Big, Key)
    && ValueOf(root, src.mem, src.addr, Little, Key) == ValueOf(root, src'.mem, src'.addr, Big, Key)
  }

  /** What is hashed of a key on a machine, from the key as it lies there. */
  function Hashed(root: Type, native: Endian, src: Source, tail: seq<Byte>): Option<seq<Byte>>
    requires root.Struct? && HasKeys(root)
  {
    HashInput(root, Plain, native, Stream(root, Plain, src, native, Key) + tail)
  }

  /** Machines of different byte orders hash the same bytes just when no wide character of the key shows its order. */
  lemma HashedAlike(root: Type, src: Source, src': Source, tail: seq<Byte>, tail': seq<Byte>)
    requires Keyed(root) && SameKey(root, src, src')
    ensures Hashed(root, Little, src, tail).Some? && Hashed(root, Big, src', tail').Some?
    ensures Hashed(root, Little, src, tail) == Hashed(root, Big, src', tail')
            <==> WideSymmetric(root, ValueOf(root, src.mem, src.addr, Little, Key))
  {
    hide HashInput, Stream, ValueOf, HasType, WellFormed, KeySafe, HasKeys, Enc, WideSymmetric;
    HashedKey(root, Little, src, tail);
    HashedKey(root, Big, src', tail');
    WideOrderShows(root, ValueOf(root, src.mem, src.addr, Little, Key), 0, Big, Big);
  }

  /**
   Machines of different byte orders hash the same key of a built type alike if no wide character in it has two
   different bytes, and only then unless the digests of what they hash collide.
   */
  lemma HashesAgree(
    root: Type, src: Source, src': Source, tail: seq<Byte>, tail': seq<Byte>,
    forceMd5: bool, md5: seq<Byte> -> seq<Byte>)
    requires Keyed(root) && Built(root) && SameKey(root, src, src')
    ensures var h := HashOf(root, Plain, Little, Stream(root, Plain, src, Little, Key) + tail, forceMd5, md5);
            var h' := HashOf(root, Plain, Big, Stream(root, Plain, src', Big, Key) + tail', forceMd5, md5);
            var b, b' := Hashed(root, Little, src, tail), Hashed(root, Big, src', tail');
            var symmetric := WideSymmetric(root, ValueOf(root, src.mem, src.addr, Little, Key));
            && (symmetric ==> h == h')
            && b.Some? && b'.Some?
            && ((md5(b.value) == md5(b'.value) ==> b == b') ==> (h == h' <==> symmetric))
  {
    hide HashInput, Stream, ValueOf, HasType, WellFormed, KeySafe, HasKeys, Enc, SizeBound, WideSymmetric, Built;
    HashedAlike(root, src, src', tail, tail');
    if CopiesKey(root, Plain, forceMd5) {
      CopiedHasNoText(root);
      WideIsText(root);
      WithoutWide(root, ValueOf(root, src.mem, src.addr, Little, Key));
    }
  }

  ghost predicate HashInputsAgree(root: Type, src: Source, src': Source, tail: seq<Byte>, tail': seq<Byte>)
    requires root.Struct? && HasKeys(root)
  {
    Hashed(root, Little, src, tail) == Hashed(root, Big, src', tail')
  }

  /** Machines of different byte orders hash the same bytes of every key if and only if no wide string is part of it. */
  lemma HashInputsExact(root: Type)
    requires Keyed(root)
    ensures (forall src: Source, src': Source, tail: seq<Byte>, tail': seq<Byte> | SameKey(root, src, src') ::
               HashInputsAgree(root, src, src', tail, tail'))
            <==> !WideInKey(root)
  {
    hide HashInputsAgree, SameKey, WideInKey, WellFormed, KeySafe, HasKeys;
    if WideInKey(root) {
      var src, src' := HashedDifferently(root);
      assert !HashInputsAgree(root, src, src', [], []);
    } else {
      forall src: Source, src': Source, tail: seq<Byte>, tail': seq<Byte> | SameKey(root, src, src')
        ensures HashInputsAgree(root, src, src', tail, tail')
      {
        WithoutWide(root, ValueOf(root, src.mem, src.addr, Little, Key));
        AlikeIfSymmetric(root, src, src', tail, tail');
      }
    }
  }

  lemma AlikeIfSymmetric(root: Type, src: Source, src': Source, tail: seq<Byte>, tail': seq<Byte>)
    requires Keyed(root) && SameKey(root, src, src')
    ensures HashInputsAgree(root, src, src', tail, tail')
            <==> WideSymmetric(root, ValueOf(root, src.mem, src.addr, Little, Key))
  {
    hide Hashed, SameKey, WideSymmetric, Keyed, ValueOf;
    HashedAlike(root, src, src', tail, tail');
  }

  /** For every type with a wide string in its key, a key that machines of different byte orders hash differently. */
  lemma HashedDifferently(root: Type) returns (src: Source, src': Source)
    requires Keyed(root) && WideInKey(root)
    ensures SameKey(root, src, src') && !HashInputsAgree(root, src, src', [], [])
  {
    hide ValueOf, HasType, WellFormed, KeySafe, HasKeys, WideSymmetric, WideInKey, HashInputsAgree, Cut, Probe;
    src := ProbeSource(root, Little, Key);
    src' := ProbeSource(root, Big, Key);
    AlikeIfSymmetric(root, src, src', [], []);
  }

  lemma {:induction false} WideIsText(t: Type)
    ensures WideInKey(t) ==> TextInKey(t)
    decreases t
  {
    match t
    case Struct(ms, _) =>
      if WideInKey(t) {
        var i :| 0 <= i < |ms| && Selected(t, i, Key) && WideInKey(ms[i].ty);
        WideIsText(ms[i].ty);
      }
    case Array(e, _) => WideIsText(e);
    case Sequence(e, _, _) => WideIsText(e);
    case _ =>
  }

  /** Every key within its bounds takes at most 16 bytes, so that DDSI-RTPS asks for a copy instead of a digest. */
  ghost predicate ShortKeys(root: Type) {
    forall v: Value | InBounds(v, root, Key) :: |Enc(root, v, 0, Both(Big), Key)| <= HASH_SIZE
  }

  /**
   The keys of a type are copied exactly when they all are short, if and only if the two elements that the walk
   for the maximum adds to every repetition do not take it beyond 16 bytes from a maximum that does not lie beyond.
   */
  lemma ShortKeysCopied(root: Type)
    requires Keyed(root)
    ensures CopiesKey(root, Plain, false) ==> ShortKeys(root)
    ensures (CopiesKey(root, Plain, false) <==> ShortKeys(root))
            <==> !(End(root, 0, Key, Max, 0) <= HASH_SIZE < End(root, 0, Key, Max, OVERCOUNT))
  {
    hide Enc, End, WellFormed, KeySafe, HasKeys, ShortKeys, Countable, InBounds, CopiesKey;
    ShortMeans(root);
    CopiesMeans(root);
    var v := Full(root);
    FullIsFull(root, Key);
    FullAttainsMaximum(root, v, 0, Both(Big), Key);
    UpperBound(root, v, 0, 0, Both(Big), Key, OVERCOUNT);
    if End(root, 0, Key, Max, 0) <= HASH_SIZE {
      SmallIsCountable(root, 0, Key, Max);
    }
  }

  /** All keys are short just when the exact walk for the maximum is. */
  lemma ShortMeans(root: Type)
    requires Keyed(root)
    ensures ShortKeys(root) <==> End(root, 0, Key, Max, 0) <= HASH_SIZE
  {
    hide Enc, End, WellFormed, KeySafe, HasKeys, InBounds, IsFull;
    FullIsFull(root, Key);
    FullAttainsMaximum(root, Full(root), 0, Both(Big), Key);
    if End(root, 0, Key, Max, 0) <= HASH_SIZE {
      forall v: Value | InBounds(v, root, Key)
        ensures |Enc(root, v, 0, Both(Big), Key)| <= HASH_SIZE
      {
        UpperBound(root, v, 0, 0, Both(Big), Key, 0);
      }
    }
  }

  lemma CopiesMeans(root: Type)
    requires Keyed(root)
    ensures CopiesKey(root, Plain, false)
            <==> Countable(root, Key, Max) && End(root, 0, Key, Max, OVERCOUNT) <= HASH_SIZE
  {
    hide End, WellFormed, KeySafe, HasKeys, Countable;
  }

  /** Sixteen octets as the key of a message. */
  const OCTETS_KEY: Type := Struct([Member(Array(Prim(Octet), 16), 0, true)], 16)

  /** A key of sixteen octets would be its own hash, but as its bound is overstated by two bytes it is not copied. */
  lemma SixteenOctetsNotCopied(src: Source, native: Endian)
    requires ValidSource(src)
    ensures Built(OCTETS_KEY) && |Stream(OCTETS_KEY, Plain, src, native, Key)| == HASH_SIZE + 4
    ensures !CopiesKey(OCTETS_KEY, Plain, false)
  {
    hide Stream, BodyEnd, InBounds;
    OctetsEnd(Min, 0);
    OctetsEnd(MinOrMax.Max, 0);
    OctetsEnd(MinOrMax.Max, OVERCOUNT);
    OctetsInBounds(src, native);
    StreamBetween(OCTETS_KEY, Plain, src, native, Key, 0);
  }

  lemma OctetsEnd(mm: MinOrMax, extra: nat)
    ensures BodyEnd(OCTETS_KEY, Plain, Key, mm, extra) == HASH_SIZE + extra
    ensures KeySafe(OCTETS_KEY, 0, Key) && Countable(OCTETS_KEY, Key, mm)
  {
    var t := OCTETS_KEY;
    assert t.members[0].isKey;
    var a := Array(Prim(Octet), 16);
    assert EndMembers(t, 0, 0, Key, mm, extra) == 0;
    assert EndMembers(t, 1, 0, Key, mm, extra) == End(a, 0, Key, mm, extra);
    assert End(Prim(Octet), 0, Key, mm, extra) == 1 && End(Prim(Octet), 1, Key, mm, extra) == 2;
    assert Strides(14 + extra, 1) == 14 + extra;
    assert Countable(a, Key, mm);
  }

  lemma OctetsInBounds(src: Source, native: Endian)
    requires ValidSource(src)
    ensures SourceInBounds(OCTETS_KEY, src, native, Key)
  {
    hide ValueElems;
    var e, a := Prim(Octet), Array(Prim(Octet), 16);
    var vs := ValueElems(e, src.mem, src.addr + 0, 16, native, Key);
    forall i | 0 <= i < 16
      ensures InBounds(vs[i], e, Key)
    {
      ValueElemAt(e, src.mem, src.addr + 0, 16, native, Key, i);
    }
    assert InBounds(ValueOf(a, src.mem, src.addr + 0, native, Key), a, Key);
    ValueMemberAt(OCTETS_KEY, src.mem, src.addr, 1, native, Key, 0);
  }
}
