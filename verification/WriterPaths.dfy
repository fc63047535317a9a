/**
 What the writer emits, shortcuts included, as a function of memory; and when that is the plain encoding.
 A shortcut replaces the walk over a value, or over the second and later elements, by a memcpy.
 */
module WriterPaths {
  import opened Bytes
  import opened Types
  import opened TrivCache
  import opened Cdr
  import opened NativeMemory
  import opened Reach

  function Coded(t: Type, m: Mem, a: int, off: nat, native: Endian, what: SampleOrKey): seq<Byte>
    decreases t, 1, 0
  {
    if what.Sample? && Triv(t, off) then Read(m, a, SizeOf(t))
    else
      match t
      case Prim(k) => Zeros(Pad(off, k.CdrSizeOf())) + Read(m, a, k.CdrSizeOf())
      case Str(_, _) => EncU32(|TextAt(m, a)| + 1, off, native) + TextAt(m, a) + [0]
      case WStr(_, _) => EncU32(2 * |WideAt(m, a)|, off, native) + WideBytes(WideAt(m, a), native)
      case BoolVec(_, _) => EncU32(|BitsAt(m, a)|, off, native) + FlagBytes(BitsAt(m, a))
      case Struct(ms, _) => CodedMembers(t, m, a, |ms|, off, native, what)
      case Array(e, n) => CodedMany(e, m, a, n, off, native, what)
      case Sequence(e, _, _) =>
        var (n, block) := BlockAt(m, a);
        var p := EncU32(n, off, native);
        p + CodedMany(e, block, 0, n, off + |p|, native, what)
  }

  function CodedMembers(t: Type, m: Mem, a: int, n: nat, off: nat, native: Endian, what: SampleOrKey): seq<Byte>
    requires t.Struct? && n <= |t.members|
    decreases t, 0, n
  {
    if n == 0 then []
    else
      var p := CodedMembers(t, m, a, n - 1, off, native, what);
      if Selected(t, n - 1, what)
      then p + Coded(t.members[n - 1].ty, m, a + t.members[n - 1].offset, off + |p|, native, what)
      else p
  }

  function CodedMany(e: Type, m: Mem, a: int, n: nat, off: nat, native: Endian, what: SampleOrKey): seq<Byte>
    decreases e, 3, n
  {
    if n == 0 then []
    else
      var first := Coded(e, m, a, off, native, what);
      if n == 1 then first
      else if ManyTriv(e, off + |first|) then first + Read(m, a + SizeOf(e), Extent(e, n - 1))
      else CodedElems(e, m, a, n, off, native, what)
  }

  function CodedElems(e: Type, m: Mem, a: int, n: nat, off: nat, native: Endian, what: SampleOrKey): seq<Byte>
    decreases e, 2, n
  {
    if n == 0 then []
    else
      var p := CodedElems(e, m, a, n - 1, off, native, what);
      p + Coded(e, m, a + Extent(e, n - 1), off + |p|, native, what)
  }

  // ---------------------------------------------------------------- shortcuts are invisible

  predicate Safe(t: Type, off: nat, what: SampleOrKey) {
    what.Sample? || KeySafe(t, off % MAX_ALIGN, Key)
  }

  /** On a type without left-out members both modes see the same value and encode it the same way. */
  lemma {:induction false} WholeValue(t: Type, m: Mem, a: int, native: Endian)
    requires Whole(t)
    ensures ValueOf(t, m, a, native, Key) == ValueOf(t, m, a, native, Sample)
    decreases t, 1, 0
  {
    match t
    case Struct(ms, _) => WholeValueMembers(t, m, a, |ms|, native);
    case Array(e, n) => WholeValueElems(e, m, a, n, native);
    case Sequence(e, _, _) => WholeValueElems(e, BlockAt(m, a).1, 0, BlockAt(m, a).0, native);
    case _ =>
  }

  lemma {:induction false} WholeValueMembers(t: Type, m: Mem, a: int, n: nat, native: Endian)
    requires t.Struct? && Whole(t) && n <= |t.members|
    ensures ValueMembers(t, m, a, n, native, Key) == ValueMembers(t, m, a, n, native, Sample)
    decreases t, 0, n
  {
    hide ValueOf;
    if n > 0 {
      WholeValueMembers(t, m, a, n - 1, native);
      assert Selected(t, n - 1, Key) && Whole(t.members[n - 1].ty);
      WholeValue(t.members[n - 1].ty, m, a + t.members[n - 1].offset, native);
    }
  }

  lemma {:induction false} WholeValueElems(e: Type, m: Mem, a: int, n: nat, native: Endian)
    requires Whole(e)
    ensures ValueElems(e, m, a, n, native, Key) == ValueElems(e, m, a, n, native, Sample)
    decreases e, 2, n
  {
    hide ValueOf;
    if n > 0 {
      WholeValueElems(e, m, a, n - 1, native);
      WholeValue(e, m, a + Extent(e, n - 1), native);
    }
  }

  lemma {:induction false} WholeEnc(t: Type, v: Value, off: nat, o: Orders)
    requires Whole(t)
    ensures Enc(t, v, off, o, Key) == Enc(t, v, off, o, Sample)
    decreases t, 1, 0
  {
    hide EncMembers, EncElems, EncU32, Pad, WideBytes, InOrder, Zeros;
    match t
    case Struct(ms, _) => WholeEncMembers(t, Fields(v), |ms|, off, o);
    case Array(e, n) => WholeEncElems(e, Elems(v), n, off, o);
    case Sequence(e, _, _) =>
      WholeEncElems(e, Elems(v), |Elems(v)|, off + |EncU32(|Elems(v)|, off, o.num)|, o);
    case _ =>
  }

  lemma {:induction false} WholeEncMembers(t: Type, vs: seq<Value>, n: nat, off: nat, o: Orders)
    requires t.Struct? && Whole(t) && n <= |t.members|
    ensures EncMembers(t, vs, n, off, o, Key) == EncMembers(t, vs, n, off, o, Sample)
    decreases t, 0, n
  {
    hide Enc;
    if n > 0 {
      WholeEncMembers(t, vs, n - 1, off, o);
      assert Selected(t, n - 1, Key) && Whole(t.members[n - 1].ty);
      WholeEnc(t.members[n - 1].ty, Get(vs, n - 1), off + |EncMembers(t, vs, n - 1, off, o, Key)|, o);
    }
  }

  lemma {:induction false} WholeEncElems(e: Type, vs: seq<Value>, n: nat, off: nat, o: Orders)
    requires Whole(e)
    ensures EncElems(e, vs, n, off, o, Key) == EncElems(e, vs, n, off, o, Sample)
    decreases e, 2, n
  {
    hide Enc;
    if n > 0 {
      WholeEncElems(e, vs, n - 1, off, o);
      WholeEnc(e, Get(vs, n - 1), off + |EncElems(e, vs, n - 1, off, o, Key)|, o);
    }
  }

  /** In the mode at hand, the image of one whole trivially serialized value is its encoding. */
  lemma ImageIsEncoding(t: Type, m: Mem, a: int, off: nat, native: Endian, what: SampleOrKey)
    requires Triv(t, off) && (what.Sample? || Whole(t))
    ensures Enc(t, ValueOf(t, m, a, native, what), off, Both(native), what) == Read(m, a, SizeOf(t))
  {
    hide Enc, ValueOf, Triv, Whole, Read;
    TrivImage(t, m, a, off, native);
    if what.Key? {
      WholeValue(t, m, a, native);
      WholeEnc(t, ValueOf(t, m, a, native, Sample), off, Both(native));
    }
  }

  /**
   The optimised writer emits the plain encoding: for every type tree, memory and offset in sample mode,
   and in key mode wherever the type says that the key walk is safe.
   */
  lemma {:induction false} CodedIsPlain(t: Type, m: Mem, a: int, off: nat, native: Endian, what: SampleOrKey)
    requires Safe(t, off, what)
    ensures Coded(t, m, a, off, native, what) == Enc(t, ValueOf(t, m, a, native, what), off, Both(native), what)
    decreases t, 1, 0
  {
    hide CodedMembers, CodedMany, EncMembers, EncElems, ValueMembers, ValueElems, EncU32, Triv, Read, WideBytes,
      FlagBytes;
    if what.Sample? && Triv(t, off) {
      TrivImage(t, m, a, off, native);
    } else {
      match t
      case Prim(k) => InOrderTwice(Read(m, a, k.SizeOf()), native);
      case Struct(ms, _) => CodedMembersPlain(t, m, a, |ms|, off, native, what);
      case Array(e, n) => CodedManyPlain(e, m, a, n, off, native, what);
      case Sequence(e, _, _) =>
        var (n, block) := BlockAt(m, a);
        SafeSequence(t, n, off, what);
        CodedManyPlain(e, block, 0, n, off + |EncU32(n, off, native)|, native, what);
      case _ =>
    }
  }

  lemma SafeSequence(t: Type, n: nat, off: nat, what: SampleOrKey)
    requires t.Sequence? && Safe(t, off, what)
    ensures what.Key? ==> ElemsSafe(t.elem, n, (off + Pad(off, 4) + 4) % MAX_ALIGN, Key)
  {
    hide KeySafe, ElemsSafe, AfterWord, Pad;
    if what.Key? {
      AfterWordIs(off);
      SequenceSafe(t, n, off % MAX_ALIGN, Key);
    }
  }

  lemma {:induction false} CodedMembersPlain(
    t: Type, m: Mem, a: int, n: nat, off: nat, native: Endian, what: SampleOrKey)
    requires t.Struct? && Safe(t, off, what) && n <= |t.members|
    ensures CodedMembers(t, m, a, n, off, native, what)
            == EncMembers(t, ValueMembers(t, m, a, |t.members|, native, what), n, off, Both(native), what)
    decreases t, 0, n
  {
    hide Coded, Enc, ValueOf, ValueMembers, KeySafe;
    if n > 0 {
      CodedMembersPlain(t, m, a, n - 1, off, native, what);
      if Selected(t, n - 1, what) {
        var x := t.members[n - 1];
        ValueMemberAt(t, m, a, |t.members|, native, what, n - 1);
        SafeMemberInMemory(t, m, a, n - 1, off, native, what);
        CodedIsPlain(x.ty, m, a + x.offset, off + |CodedMembers(t, m, a, n - 1, off, native, what)|, native, what);
      }
    }
  }

  /** Whatever memory holds, member `n` begins where it is safe. */
  lemma SafeMemberInMemory(t: Type, m: Mem, a: int, n: nat, off: nat, native: Endian, what: SampleOrKey)
    requires t.Struct? && Safe(t, off, what) && n < |t.members| && Selected(t, n, what)
    ensures var vs := ValueMembers(t, m, a, |t.members|, native, what);
            Safe(t.members[n].ty, off + |EncMembers(t, vs, n, off, Both(native), what)|, what)
  {
    hide Enc, EncMembers, ValueOf, ValueMembers, Reaches, ReachesMember, Selected;
    var vs := ValueMembers(t, m, a, |t.members|, native, what);
    MemoryShaped(t, m, a, native, what);
    assert ValueOf(t, m, a, native, what) == VStruct(vs) by { StructValue(t, m, a, native, what); }
    EncReachesMember(t, vs, n, off, Both(native), what);
  }

  lemma StructValue(t: Type, m: Mem, a: int, native: Endian, what: SampleOrKey)
    requires t.Struct?
    ensures ValueOf(t, m, a, native, what) == VStruct(ValueMembers(t, m, a, |t.members|, native, what))
  {
  }

  lemma {:induction false} CodedManyPlain(e: Type, m: Mem, a: int, n: nat, off: nat, native: Endian, what: SampleOrKey)
    requires what.Key? ==> ElemsSafe(e, n, off % MAX_ALIGN, Key)
    ensures CodedMany(e, m, a, n, off, native, what)
            == EncElems(e, ValueElems(e, m, a, n, native, what), n, off, Both(native), what)
    decreases e, 3, n
  {
    hide Coded, CodedElems, Enc, EncElems, ValueOf, ValueElems, Whole, NeverBulk, ManyTriv, KeySafe, Extent, Read,
      StartsSafe;
    if what.Key? {
      SafeStarts(e, n, off % MAX_ALIGN, Key);
    }
    CodedElemsPlain(e, m, a, n, n, off, native, what);
    if n > 0 {
      var first := Coded(e, m, a, off, native, what);
      if what.Key? {
        FewerSafe(e, n, 1, off % MAX_ALIGN, Key);
        FirstSafe(e, n, off % MAX_ALIGN, Key);
      }
      CodedElemsPlain(e, m, a, n, 1, off, native, what);
      OneElement(e, m, a, off, native, what);
      if ManyTriv(e, off + |first|) && n > 1 {
        CodedIsPlain(e, m, a, off, native, what);
        MemoryShaped(e, m, a, native, what);
        if what.Key? && !Whole(e) {
          NotTaken(e, off, ValueOf(e, m, a, native, what), Both(native), Key);
        }
        BulkElems(e, m, a, n, n, off, |first|, native, what);
      }
    }
    NoElement(e, m, a, off, native, what);
  }

  lemma NoElement(e: Type, m: Mem, a: int, off: nat, native: Endian, what: SampleOrKey)
    ensures CodedElems(e, m, a, 0, off, native, what) == []
  {
  }

  lemma OneElement(e: Type, m: Mem, a: int, off: nat, native: Endian, what: SampleOrKey)
    ensures CodedElems(e, m, a, 1, off, native, what) == Coded(e, m, a, off, native, what)
  {
    hide Coded;
    ExtentZero(e);
    assert CodedElems(e, m, a, 0, off, native, what) == [];
  }

  lemma {:induction false} CodedElemsPlain(
    e: Type, m: Mem, a: int, count: nat, n: nat, off: nat, native: Endian, what: SampleOrKey)
    requires n <= count && (what.Key? ==> StartsSafe(e, n, off % MAX_ALIGN, Key))
    ensures CodedElems(e, m, a, n, off, native, what)
            == EncElems(e, ValueElems(e, m, a, count, native, what), n, off, Both(native), what)
    decreases e, 2, n
  {
    hide Coded, Enc, ValueOf, ValueElems, Extent, StartsSafe, KeySafe;
    if n > 0 {
      if what.Key? {
        FewerSafe(e, n, n - 1, off % MAX_ALIGN, Key);
      }
      CodedElemsPlain(e, m, a, count, n - 1, off, native, what);
      ValueElemAt(e, m, a, count, native, what, n - 1);
      SafeElemInMemory(e, m, a, count, n, off, native, what);
      var p := CodedElems(e, m, a, n - 1, off, native, what);
      CodedIsPlain(e, m, a + Extent(e, n - 1), off + |p|, native, what);
    }
  }

  /** Whatever memory holds, the last of `n` elements begins where it is safe. */
  lemma SafeElemInMemory(e: Type, m: Mem, a: int, count: nat, n: nat, off: nat, native: Endian, what: SampleOrKey)
    requires 0 < n <= count && (what.Key? ==> StartsSafe(e, n, off % MAX_ALIGN, Key))
    ensures var vs := ValueElems(e, m, a, count, native, what);
            Safe(e, off + |EncElems(e, vs, n - 1, off, Both(native), what)|, what)
  {
    hide Enc, EncElems, ValueOf, ValueElems, ReachesElem, KeySafe, Shaped;
    ElemsShaped(e, m, a, count, native, what);
    EncReachesElem(e, ValueElems(e, m, a, count, native, what), n - 1, off, Both(native), what);
  }

  /** One element encoded the long way, then the memory image of the others. */
  lemma {:induction false} BulkElems(
    e: Type, m: Mem, a: int, count: nat, n: nat, off: nat, first: nat, native: Endian, what: SampleOrKey)
    requires ManyTriv(e, off + first) && (what.Sample? || Whole(e)) && 0 < n <= count
    requires first == |EncElems(e, ValueElems(e, m, a, count, native, what), 1, off, Both(native), what)|
    ensures EncElems(e, ValueElems(e, m, a, count, native, what), n, off, Both(native), what)
            == EncElems(e, ValueElems(e, m, a, count, native, what), 1, off, Both(native), what)
               + Read(m, a + SizeOf(e), Extent(e, n - 1))
    decreases n
  {
    hide Enc, ValueOf, ValueElems, Whole, Extent, ManyTriv, Triv;
    ExtentZero(e);
    var vs := ValueElems(e, m, a, count, native, what);
    if n > 1 {
      BulkElems(e, m, a, count, n - 1, off, first, native, what);
      ManyTrivEverywhere(e, off + first, n - 2);
      ExtentStep(e, n - 1);
      ValueElemAt(e, m, a, count, native, what, n - 1);
      ImageIsEncoding(e, m, a + Extent(e, n - 1), off + first + Extent(e, n - 2), native, what);
      ReadSplit(m, a + SizeOf(e), Extent(e, n - 2), SizeOf(e));
    } else {
      assert Read(m, a + SizeOf(e), 0) == [];
    }
  }
}
