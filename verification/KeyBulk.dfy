/**
 The bulk copy of elements 2..n does not look at the mode. This module settles exactly when that makes
 a serialized key differ from the plain key encoding.
 */
module KeyBulk {
  import opened Bytes
  import opened Types
  import opened TrivCache
  import opened Cdr
  import opened NativeMemory
  import opened Reach
  import opened WriterPaths
  import opened SizeWalk
  import opened SizeBounds

  ghost predicate SameTouched(t: Type, m: Mem, m': Mem, a: int, what: SampleOrKey) {
    forall x :: Touches(t, a, x, what) ==> SameAt(m, m', x)
  }

  /** A value seen in some mode depends only on the memory which that mode touches. */
  lemma {:induction false} ValueOfTouched(t: Type, m: Mem, m': Mem, a: int, native: Endian, what: SampleOrKey)
    requires SameTouched(t, m, m', a, what)
    ensures ValueOf(t, m, a, native, what) == ValueOf(t, m', a, native, what)
    decreases t, 1, 0
  {
    match t
    case Prim(k) =>
      forall i | 0 <= i < k.SizeOf()
        ensures Read(m, a, k.SizeOf())[i] == Read(m', a, k.SizeOf())[i]
      {
        assert Touches(t, a, a + i, what);
      }
      assert Read(m, a, k.SizeOf()) == Read(m', a, k.SizeOf());
    case Struct(ms, _) => ValueMembersTouched(t, m, m', a, |ms|, native, what);
    case Array(e, n) => ValueElemsTouched(e, m, m', a, n, n, native, what);
    case _ => assert Touches(t, a, a, what);
  }

  lemma {:induction false} ValueMembersTouched(
    t: Type, m: Mem, m': Mem, a: int, n: nat, native: Endian, what: SampleOrKey)
    requires t.Struct? && SameTouched(t, m, m', a, what) && n <= |t.members|
    ensures ValueMembers(t, m, a, n, native, what) == ValueMembers(t, m', a, n, native, what)
    decreases t, 0, n
  {
    hide ValueOf;
    if n > 0 {
      ValueMembersTouched(t, m, m', a, n - 1, native, what);
      if Selected(t, n - 1, what) {
        ValueOfTouched(t.members[n - 1].ty, m, m', a + t.members[n - 1].offset, native, what);
      }
    }
  }

  lemma {:induction false} ValueElemsTouched(
    e: Type, m: Mem, m': Mem, a: int, count: nat, n: nat, native: Endian, what: SampleOrKey)
    requires n <= count && forall i: nat | i < count :: SameTouched(e, m, m', a + Extent(e, i), what)
    ensures ValueElems(e, m, a, n, native, what) == ValueElems(e, m', a, n, native, what)
    decreases e, 2, n
  {
    hide ValueOf, SameTouched;
    if n > 0 {
      ValueElemsTouched(e, m, m', a, count, n - 1, native, what);
      ValueOfTouched(e, m, m', a + Extent(e, n - 1), native, what);
    }
  }

  /** A trivially serialized type with left-out members has memory that a key walk does not touch. */
  lemma {:induction false} SomethingUntouched(t: Type, z: nat, a: int) returns (x: int)
    requires WellFormed(t) && Triv(t, z) && !Whole(t)
    ensures a <= x < a + SizeOf(t) && !Touches(t, a, x, Key)
    decreases t, 1
  {
    hide Touches, WellFormed, Selected, Extent;
    match t
    case Struct(ms, _) => x := UntouchedInStruct(t, z, a);
    case Array(e, n) => x := UntouchedInArray(t, z, a);
    case _ =>
  }

  lemma {:induction false} UntouchedInStruct(t: Type, z: nat, a: int) returns (x: int)
    requires t.Struct? && WellFormed(t) && Triv(t, z) && !Whole(t)
    ensures a <= x < a + SizeOf(t) && !Touches(t, a, x, Key)
    decreases t, 0
  {
    hide Touches, WellFormed, TrivMembers, Selected;
    var i :| 0 <= i < |t.members| && !(Selected(t, i, Key) && Whole(t.members[i].ty));
    var y := t.members[i];
    WellFormedBelow(t);
    SizePositive(y.ty);
    if Selected(t, i, Key) {
      TrivMember(t, z % MAX_ALIGN, i, |t.members|);
      x := SomethingUntouched(y.ty, (z % MAX_ALIGN + Packed(t, i)) % MAX_ALIGN, a + y.offset);
    } else {
      x := a + y.offset;
    }
    OnlyMember(t, i, a, x);
  }

  lemma {:induction false} UntouchedInArray(t: Type, z: nat, a: int) returns (x: int)
    requires t.Array? && WellFormed(t) && Triv(t, z) && !Whole(t)
    ensures a <= x < a + SizeOf(t) && !Touches(t, a, x, Key)
    decreases t, 0
  {
    var e, n := t.elem, t.count;
    x := SomethingUntouched(e, z % MAX_ALIGN, a);
    UntouchedInFirst(e, n, a, x);
  }

  lemma UntouchedInFirst(e: Type, n: nat, a: int, x: int)
    requires WellFormed(e) && 1 <= n && a <= x < a + SizeOf(e) && !Touches(e, a, x, Key)
    ensures forall i: nat | i < n :: !Touches(e, a + Extent(e, i), x, Key)
    ensures x < a + Extent(e, n)
  {
    hide Touches, WellFormed, Extent;
    ExtentZero(e);
    OnlyElement(e, n, 0, a, x, Key);
    ExtentMonotone(e, 1, n);
  }

  /** Memory inside member `i` can be touched only through member `i`. */
  lemma OnlyMember(t: Type, i: nat, a: int, x: int)
    requires WellFormed(t) && t.Struct? && i < |t.members|
    requires a + t.members[i].offset <= x < a + t.members[i].offset + SizeOf(t.members[i].ty)
    ensures a <= x < a + SizeOf(t)
    ensures Touches(t, a, x, Key) ==>
              Selected(t, i, Key) && Touches(t.members[i].ty, a + t.members[i].offset, x, Key)
  {
    hide WellFormed;
    WellFormedBelow(t);
    forall j | 0 <= j < |t.members| && j != i
      ensures !Touches(t.members[j].ty, a + t.members[j].offset, x, Key)
    {
      MembersApart(t, i, j);
      if Touches(t.members[j].ty, a + t.members[j].offset, x, Key) {
        TouchesInside(t.members[j].ty, a + t.members[j].offset, x, Key);
      }
    }
  }

  /** Memory inside element `k` can be touched only through element `k`. */
  lemma OnlyElement(e: Type, n: nat, k: nat, a: int, x: int, what: SampleOrKey)
    requires WellFormed(e)
    requires a + Extent(e, k) <= x < a + Extent(e, k) + SizeOf(e)
    ensures forall i: nat | i < n && i != k :: !Touches(e, a + Extent(e, i), x, what)
  {
    hide Touches, Extent, WellFormed;
    forall i: nat | i < n && i != k
      ensures !Touches(e, a + Extent(e, i), x, what)
    {
      if Touches(e, a + Extent(e, i), x, what) {
        TouchesInside(e, a + Extent(e, i), x, what);
        if i < k { ElementInside(e, i, k); } else { ElementInside(e, k, i); }
      }
    }
  }

  // ---------------------------------------------------------------- the exact condition

  /** Where a stream stands after a first element of fixed layout that starts at offset `off`. */
  function AfterFirst(e: Type, off: nat, what: SampleOrKey): nat {
    End(e, off, what, Min, 0)
  }

  /** Further elements after a first one at offset `off` are copied whole. */
  predicate TakesBulk(e: Type, off: nat, what: SampleOrKey) {
    ManyTriv(e, AfterFirst(e, off, what))
  }

  ghost predicate ManyIsPlain(e: Type, n: nat, off: nat, native: Endian, m: Mem, a: int) {
    CodedMany(e, m, a, n, off, native, Key)
    == EncElems(e, ValueElems(e, m, a, n, native, Key), n, off, Both(native), Key)
  }

  /**
   `n` keyed elements written from offset `off` come out as the plain key encoding, whatever they hold,
   if and only if the bulk copy is not taken after the first one or leaves no member out.
   */
  lemma BulkKeyExact(e: Type, n: nat, off: nat, native: Endian)
    requires WellFormed(e) && StartsSafe(e, n, off % MAX_ALIGN, Key) && n >= 2
    ensures (forall m: Mem, a: int :: ManyIsPlain(e, n, off, native, m, a))
            <==> (TakesBulk(e, off, Key) ==> Whole(e))
  {
    hide ManyTriv, AfterFirst, Whole, WellFormed, KeySafe, StartsSafe, ManyIsPlain;
    if TakesBulk(e, off, Key) ==> Whole(e) {
      forall m: Mem, a: int
        ensures ManyIsPlain(e, n, off, native, m, a)
      {
        NotTakenIsPlain(e, n, off, native, m, a);
      }
    } else {
      FirstSafe(e, n, off % MAX_ALIGN, Key);
      var m := BulkKeyLeaks(e, n, off, native);
      assert !ManyIsPlain(e, n, off, native, EMPTY_MEM, 0) || !ManyIsPlain(e, n, off, native, m, 0);
    }
  }

  /** The writer takes the bulk copy after a first element just when the type says so. */
  lemma SameAfterFirst(e: Type, off: nat, native: Endian, m: Mem, a: int)
    requires KeySafe(e, off % MAX_ALIGN, Key)
    ensures ManyTriv(e, off + |Coded(e, m, a, off, native, Key)|) <==> TakesBulk(e, off, Key)
    ensures TakesBulk(e, off, Key) ==> AfterFirst(e, off, Key) == off + |Coded(e, m, a, off, native, Key)|
  {
    hide Coded, Enc, End, ValueOf, KeySafe, StartsSafe, Triv, HasType;
    CodedIsPlain(e, m, a, off, native, Key);
    if ManyTriv(e, off + |Coded(e, m, a, off, native, Key)|) {
      FlatAfterFirst(e, (off + |Coded(e, m, a, off, native, Key)|) % MAX_ALIGN, m, a, off, native);
    } else if TakesBulk(e, off, Key) {
      FlatAfterFirst(e, AfterFirst(e, off, Key) % MAX_ALIGN, m, a, off, native);
    }
  }

  lemma FlatAfterFirst(e: Type, z: nat, m: Mem, a: int, off: nat, native: Endian)
    requires Triv(e, z)
    ensures off + |Enc(e, ValueOf(e, m, a, native, Key), off, Both(native), Key)| == AfterFirst(e, off, Key)
  {
    hide Enc, End, ValueOf, Triv, HasType;
    FlatTyped(e, z, m, a, native, Key);
    FlatEnd(e, z, ValueOf(e, m, a, native, Key), off, Both(native), Key);
  }

  lemma NotTakenIsPlain(e: Type, n: nat, off: nat, native: Endian, m: Mem, a: int)
    requires StartsSafe(e, n, off % MAX_ALIGN, Key) && n >= 2
    requires TakesBulk(e, off, Key) ==> Whole(e)
    ensures ManyIsPlain(e, n, off, native, m, a)
  {
    hide Coded, Enc, End, ValueOf, KeySafe, StartsSafe, Triv, Whole, CodedElems, EncElems, ValueElems;
    FirstSafe(e, n, off % MAX_ALIGN, Key);
    SameAfterFirst(e, off, native, m, a);
    if Whole(e) {
      CodedManyPlain(e, m, a, n, off, native, Key);
    } else {
      CodedElemsPlain(e, m, a, n, n, off, native, Key);
    }
  }

  // ---------------------------------------------------------------- the bound on keyed elements

  ghost predicate ManyInBounds(e: Type, n: nat, native: Endian, m: Mem, a: int) {
    var vs := ValueElems(e, m, a, n, native, Key);
    forall i :: 0 <= i < n ==> InBounds(vs[i], e, Key)
  }

  ghost predicate ManyFits(e: Type, n: nat, off: nat, native: Endian, m: Mem, a: int, extra: nat) {
    off + |CodedMany(e, m, a, n, off, native, Key)| <= EndMany(e, n, off, Key, Max, extra)
  }

  /**
   `n` keyed elements within their bounds, written from offset `off`, stay within the walk for the maximum
   if and only if the bulk copy is not taken after the first one or what it copies is not more than that walk adds.
   */
  lemma BulkBoundExact(e: Type, n: nat, off: nat, native: Endian, extra: nat)
    requires WellFormed(e) && StartsSafe(e, n, off % MAX_ALIGN, Key) && n >= 2
    ensures (forall m: Mem, a: int | ManyInBounds(e, n, native, m, a) :: ManyFits(e, n, off, native, m, a, extra))
            <==> (TakesBulk(e, off, Key) ==>
                    AfterFirst(e, off, Key) + Extent(e, n - 1) <= EndMany(e, n, off, Key, Max, extra))
  {
    hide ManyTriv, AfterFirst, WellFormed, KeySafe, StartsSafe, CodedMany, EndMany, Extent, ManyInBounds;
    var fits := AfterFirst(e, off, Key) + Extent(e, n - 1) <= EndMany(e, n, off, Key, Max, extra);
    if TakesBulk(e, off, Key) {
      forall m: Mem, a: int
        ensures ManyFits(e, n, off, native, m, a, extra) <==> fits
      {
        BulkLength(e, n, off, native, m, a);
      }
      EmptyInBounds(e, n, native);
    } else {
      forall m: Mem, a: int | ManyInBounds(e, n, native, m, a)
        ensures ManyFits(e, n, off, native, m, a, extra)
      {
        NotTakenFits(e, n, off, native, m, a, extra);
      }
    }
  }

  lemma BulkLength(e: Type, n: nat, off: nat, native: Endian, m: Mem, a: int)
    requires StartsSafe(e, n, off % MAX_ALIGN, Key) && n >= 2 && TakesBulk(e, off, Key)
    ensures off + |CodedMany(e, m, a, n, off, native, Key)| == AfterFirst(e, off, Key) + Extent(e, n - 1)
  {
    hide Coded, End, KeySafe, StartsSafe, Triv, CodedElems, Extent;
    FirstSafe(e, n, off % MAX_ALIGN, Key);
    SameAfterFirst(e, off, native, m, a);
  }

  lemma EmptyInBounds(e: Type, n: nat, native: Endian)
    ensures ManyInBounds(e, n, native, EMPTY_MEM, 0)
  {
    hide Enc, End, ValueOf, InBounds, ValueElems;
    EmptyElems(e, 0, n, n, 0, native, Key);
  }

  lemma NotTakenFits(e: Type, n: nat, off: nat, native: Endian, m: Mem, a: int, extra: nat)
    requires StartsSafe(e, n, off % MAX_ALIGN, Key) && n >= 2
    requires !TakesBulk(e, off, Key) && ManyInBounds(e, n, native, m, a)
    ensures ManyFits(e, n, off, native, m, a, extra)
  {
    hide Enc, ValueElems, EncElems, EndMany, InBounds, KeySafe, StartsSafe, TakesBulk, CodedMany;
    NotTakenIsPlain(e, n, off, native, m, a);
    UpperBoundElems(e, ValueElems(e, m, a, n, native, Key), n, n, off, off, Both(native), Key, extra);
  }

  // ---------------------------------------------------------------- leaking

  /** A byte of the second and later elements that belongs to no key. */
  lemma BulkByte(e: Type, z: nat, n: nat, native: Endian) returns (m: Mem)
    requires WellFormed(e) && Triv(e, z) && !Whole(e) && n >= 2
    ensures ValueElems(e, EMPTY_MEM, 0, n, native, Key) == ValueElems(e, m, 0, n, native, Key)
    ensures Differ(Read(EMPTY_MEM, SizeOf(e), Extent(e, n - 1)), Read(m, SizeOf(e), Extent(e, n - 1)))
  {
    hide Triv, Whole, ValueElems, WellFormed, Extent, Touches, Write, Read;
    var s := SizeOf(e);
    ExtentZero(e);
    var x := SomethingUntouched(e, z, s);
    m := Write(EMPTY_MEM, x, [1]);
    OneByte(e, n, x, m, native);
    ExtentMonotone(e, 1, n - 1);
    ReadOneByte(x, s, Extent(e, n - 1));
    var b, b' := Read(EMPTY_MEM, s, Extent(e, n - 1)), Read(m, s, Extent(e, n - 1));
    assert b[x - s] != b'[x - s];
  }

  /**
   When the bulk copy drops the key mode, a single byte outside the key changes the output,
   so that at most one of two memories with the same key can be encoded right.
   */
  lemma BulkKeyLeaks(e: Type, n: nat, off: nat, native: Endian) returns (m: Mem)
    requires WellFormed(e) && KeySafe(e, off % MAX_ALIGN, Key) && n >= 2
    requires TakesBulk(e, off, Key) && !Whole(e)
    ensures ValueElems(e, EMPTY_MEM, 0, n, native, Key) == ValueElems(e, m, 0, n, native, Key)
    ensures !ManyIsPlain(e, n, off, native, EMPTY_MEM, 0) || !ManyIsPlain(e, n, off, native, m, 0)
  {
    hide Coded, EncElems, Enc, End, ValueOf, KeySafe, Triv, Whole, CodedElems, ValueElems, WellFormed, Extent, Read,
      Differ;
    var len := Extent(e, n - 1);
    m := BulkByte(e, AfterFirst(e, off, Key) % MAX_ALIGN, n, native);
    SameAfterFirst(e, off, native, EMPTY_MEM, 0);
    SameAfterFirst(e, off, native, m, 0);
    var f, f' := Coded(e, EMPTY_MEM, 0, off, native, Key), Coded(e, m, 0, off, native, Key);
    var b, b' := Read(EMPTY_MEM, 0 + SizeOf(e), len), Read(m, 0 + SizeOf(e), len);
    assert CodedMany(e, EMPTY_MEM, 0, n, off, native, Key) == f + b;
    assert CodedMany(e, m, 0, n, off, native, Key) == f' + b';
    DifferBehind(f, f', b, b');
    NotDifferent(f + b);
  }

  lemma ReadOneByte(x: int, s: nat, len: nat)
    requires s <= x < s + len
    ensures Read(EMPTY_MEM, s, len)[x - s] == 0 && Read(Write(EMPTY_MEM, x, [1]), s, len)[x - s] == 1
  {
    var m := Write(EMPTY_MEM, x, [1]);
    WriteAt(EMPTY_MEM, x, [1], x);
    assert s + (x - s) == x;
    assert ByteAt(m, x) == 1 && ByteAt(EMPTY_MEM, x) == 0;
    assert Read(EMPTY_MEM, s, len)[x - s] == ByteAt(EMPTY_MEM, s + (x - s));
    assert Read(m, s, len)[x - s] == ByteAt(m, s + (x - s));
  }

  lemma OneByte(e: Type, n: nat, x: int, m: Mem, native: Endian)
    requires WellFormed(e) && n >= 2 && SizeOf(e) <= x < SizeOf(e) + SizeOf(e)
    requires !Touches(e, SizeOf(e), x, Key) && m == Write(EMPTY_MEM, x, [1])
    ensures ValueElems(e, EMPTY_MEM, 0, n, native, Key) == ValueElems(e, m, 0, n, native, Key)
  {
    hide Touches, Extent, WellFormed, Write, ValueElems;
    ExtentZero(e);
    OnlyElement(e, n, 1, 0, x, Key);
    forall i: nat | i < n
      ensures SameTouched(e, EMPTY_MEM, m, 0 + Extent(e, i), Key)
    {
      forall y | Touches(e, 0 + Extent(e, i), y, Key)
        ensures SameAt(EMPTY_MEM, m, y)
      {
        assert y != x;
        WriteFrame(EMPTY_MEM, x, [1], y);
      }
    }
    ValueElemsTouched(e, EMPTY_MEM, m, 0, n, n, native, Key);
  }

  /** A pair of octets of which only the first is the key. */
  const KEYED_PAIR: Type := Struct([Member(Prim(Octet), 0, true), Member(Prim(Octet), 1, false)], 2)

  lemma PairTriv(at: nat)
    ensures Triv(KEYED_PAIR, at)
  {
    var e := KEYED_PAIR;
    assert Packed(e, 0) == 0 && Packed(e, 1) == 1 && Packed(e, 2) == 2;
    assert TrivMembers(e, at % MAX_ALIGN, 0) && TrivMembers(e, at % MAX_ALIGN, 1) && TrivMembers(e, at % MAX_ALIGN, 2);
  }

  lemma OctetCoded(m: Mem, a: int, off: nat, native: Endian)
    ensures Coded(Prim(Octet), m, a, off, native, Key) == [ByteAt(m, a)]
  {
    assert Read(m, a, 1) == [ByteAt(m, a)] && Zeros(0) == [];
  }

  lemma PairCoded(m: Mem, a: int, off: nat, native: Endian)
    ensures Coded(KEYED_PAIR, m, a, off, native, Key) == [ByteAt(m, a)]
  {
    hide CodedMany, Triv, Read, EncU32, WideBytes, FlagBytes;
    var e := KEYED_PAIR;
    assert e.members[0].isKey;
    OctetCoded(m, a, off, native);
    assert Selected(e, 0, Key) && !Selected(e, 1, Key);
    assert CodedMembers(e, m, a, 0, off, native, Key) == [];
    assert CodedMembers(e, m, a, 1, off, native, Key) == [] + Coded(Prim(Octet), m, a + 0, off, native, Key);
    assert CodedMembers(e, m, a, 2, off, native, Key) == [ByteAt(m, a)];
  }

  lemma PairEncoded(m: Mem, a: int, off: nat, native: Endian)
    ensures |Enc(KEYED_PAIR, ValueOf(KEYED_PAIR, m, a, native, Key), off, Both(native), Key)| == 1
  {
    hide Coded, Enc, ValueOf;
    PairCoded(m, a, off, native);
    CodedIsPlain(KEYED_PAIR, m, a, off, native, Key);
  }

  /** Of an array of two keyed pairs the second pair goes out whole: three bytes instead of two. */
  lemma SecondPairWhole(m: Mem, a: int, native: Endian)
    ensures var pairs := Array(KEYED_PAIR, 2);
            && Built(pairs)
            && Coded(pairs, m, a, 0, native, Key) == [ByteAt(m, a), ByteAt(m, a + 2), ByteAt(m, a + 3)]
            && |Enc(pairs, ValueOf(pairs, m, a, native, Key), 0, Both(native), Key)| == 2
  {
    hide ValueOf, Triv, Coded, Enc, EncElems, CodedElems, ValueElems;
    var e, pairs := KEYED_PAIR, Array(KEYED_PAIR, 2);
    PairCoded(m, a, 0, native);
    PairTriv(1);
    PairTriv(3);
    assert CodedMany(e, m, a, 2, 0, native, Key) == [ByteAt(m, a)] + Read(m, a + 2, 2);
    assert Read(m, a + 2, 2) == [ByteAt(m, a + 2), ByteAt(m, a + 3)];
    PairsUnfold(m, a, native);
    TwoPairsEncoded(m, a, native);
  }

  lemma PairsUnfold(m: Mem, a: int, native: Endian)
    ensures var e, pairs := KEYED_PAIR, Array(KEYED_PAIR, 2);
            && Coded(pairs, m, a, 0, native, Key) == CodedMany(e, m, a, 2, 0, native, Key)
            && Enc(pairs, ValueOf(pairs, m, a, native, Key), 0, Both(native), Key)
               == EncElems(e, ValueElems(e, m, a, 2, native, Key), 2, 0, Both(native), Key)
  {
    hide CodedMany, EncElems, ValueElems;
  }

  lemma TwoPairsEncoded(m: Mem, a: int, native: Endian)
    ensures |EncElems(KEYED_PAIR, ValueElems(KEYED_PAIR, m, a, 2, native, Key), 2, 0, Both(native), Key)| == 2
  {
    hide ValueOf, Enc, ValueElems, Extent;
    var e := KEYED_PAIR;
    var vs := ValueElems(e, m, a, 2, native, Key);
    ValueElemAt(e, m, a, 2, native, Key, 0);
    ValueElemAt(e, m, a, 2, native, Key, 1);
    PairEncoded(m, a + Extent(e, 0), 0, native);
    PairEncoded(m, a + Extent(e, 1), 1, native);
    assert EncElems(e, vs, 0, 0, Both(native), Key) == [];
    assert |EncElems(e, vs, 1, 0, Both(native), Key)| == 1;
  }
}
