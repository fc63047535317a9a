/** Serialized sizes lie between the bounds that the walk over the type computes. */
module SizeBounds {
  import opened Bytes
  import opened Types
  import opened TrivCache
  import opened Cdr
  import opened NativeMemory
  import opened SizeWalk

  lemma {:induction false} IteratedMonotone(
    e: Type, m: nat, n: nat, x: nat, what: SampleOrKey, mm: MinOrMax, extra: nat)
    requires m <= n
    ensures Iterated(e, m, x, what, mm, extra) <= Iterated(e, n, x, what, mm, extra)
    decreases n
  {
    hide End;
    if m < n {
      IteratedMonotone(e, m, n - 1, x, what, mm, extra);
      EndGrows(e, Iterated(e, n - 1, x, what, mm, extra), what, mm, extra);
    }
  }

  // ---------------------------------------------------------------- bounds on encodings

  /** `v` has the shape of `t` and respects the declared bounds of strings and sequences. */
  predicate InBounds(v: Value, t: Type, what: SampleOrKey)
    decreases t
  {
    match t
    case Prim(k) => v.VPrim? && |v.raw| == k.CdrSizeOf()
    case Str(b, _) => v.VStr? && |v.chars| <= b
    case WStr(b, _) => v.VWStr? && |v.units| <= b
    case BoolVec(b, _) => v.VBools? && |v.flags| <= b
    case Struct(ms, _) =>
      && v.VStruct? && |v.fields| == |ms|
      && forall i :: 0 <= i < |ms| && Selected(t, i, what) ==> InBounds(v.fields[i], ms[i].ty, what)
    case Array(e, n) => v.VList? && |v.elems| == n && forall i :: 0 <= i < n ==> InBounds(v.elems[i], e, what)
    case Sequence(e, b, _) =>
      v.VList? && |v.elems| <= b && forall i :: 0 <= i < |v.elems| ==> InBounds(v.elems[i], e, what)
  }

  /** Values within their bounds fit the length words. */
  lemma {:induction false} InBoundsTyped(v: Value, t: Type, what: SampleOrKey)
    requires WellFormed(t) && InBounds(v, t, what)
    ensures HasType(v, t, what)
    decreases t
  {
    match t
    case Struct(ms, _) =>
      forall i | 0 <= i < |ms| && Selected(t, i, what)
        ensures HasType(v.fields[i], ms[i].ty, what)
      {
        InBoundsTyped(v.fields[i], ms[i].ty, what);
      }
    case Array(e, n) =>
      forall i | 0 <= i < n ensures HasType(v.elems[i], e, what) { InBoundsTyped(v.elems[i], e, what); }
    case Sequence(e, _, _) =>
      forall i | 0 <= i < |v.elems| ensures HasType(v.elems[i], e, what) { InBoundsTyped(v.elems[i], e, what); }
    case _ =>
  }

  /** No encoding of a value within its bounds ends after the walk for the maximum, overcounting or not. */
  lemma {:induction false} UpperBound(
    t: Type, v: Value, x: nat, y: nat, o: Orders, what: SampleOrKey, extra: nat)
    requires InBounds(v, t, what) && x <= y
    ensures x + |Enc(t, v, x, o, what)| <= End(t, y, what, Max, extra)
    decreases t, 1, 0
  {
    hide EncMembers, EncElems, EndMembers, EndMany, WideBytes;
    match t
    case Prim(k) => PadMonotone(x, y, k.CdrSizeOf());
    case Struct(ms, _) => UpperBoundMembers(t, v.fields, |ms|, x, y, o, what, extra);
    case Array(e, n) => UpperBoundElems(e, v.elems, n, n, x, y, o, what, extra);
    case Sequence(e, b, _) =>
      PadMonotone(x, y, 4);
      UpperBoundElems(e, v.elems, |v.elems|, b, x + |EncU32(|v.elems|, x, o.num)|, EndU32(y), o, what, extra);
    case _ => PadMonotone(x, y, 4);
  }

  lemma {:induction false} UpperBoundMembers(
    t: Type, vs: seq<Value>, n: nat, x: nat, y: nat, o: Orders, what: SampleOrKey, extra: nat)
    requires t.Struct? && n <= |t.members| && n <= |vs| && x <= y
    requires forall i :: 0 <= i < n && Selected(t, i, what) ==> InBounds(vs[i], t.members[i].ty, what)
    ensures x + |EncMembers(t, vs, n, x, o, what)| <= EndMembers(t, n, y, what, Max, extra)
    decreases t, 0, n
  {
    hide Enc, End, InBounds;
    if n > 0 {
      UpperBoundMembers(t, vs, n - 1, x, y, o, what, extra);
      if Selected(t, n - 1, what) {
        UpperBound(t.members[n - 1].ty, vs[n - 1], x + |EncMembers(t, vs, n - 1, x, o, what)|,
          EndMembers(t, n - 1, y, what, Max, extra), o, what, extra);
      }
    }
  }

  lemma {:induction false} UpperBoundElems(
    e: Type, vs: seq<Value>, n: nat, count: nat, x: nat, y: nat, o: Orders, what: SampleOrKey, extra: nat)
    requires n <= |vs| && n <= count && x <= y
    requires forall i :: 0 <= i < n ==> InBounds(vs[i], e, what)
    ensures x + |EncElems(e, vs, n, x, o, what)| <= EndMany(e, count, y, what, Max, extra)
    decreases e, 3, 0
  {
    hide Enc, End, InBounds, EncElems, EndMany, Iterated;
    UpperBoundIterated(e, vs, n, x, y, o, what, extra);
    IteratedMonotone(e, n, count, y, what, Max, extra);
    ManyIsIterated(e, count, y, what, Max, extra);
  }

  lemma {:induction false} UpperBoundIterated(
    e: Type, vs: seq<Value>, n: nat, x: nat, y: nat, o: Orders, what: SampleOrKey, extra: nat)
    requires n <= |vs| && x <= y
    requires forall i :: 0 <= i < n ==> InBounds(vs[i], e, what)
    ensures x + |EncElems(e, vs, n, x, o, what)| <= Iterated(e, n, y, what, Max, extra)
    decreases e, 2, n
  {
    hide Enc, End, InBounds;
    if n > 0 {
      UpperBoundIterated(e, vs, n - 1, x, y, o, what, extra);
      UpperBound(e, vs[n - 1], x + |EncElems(e, vs, n - 1, x, o, what)|,
        Iterated(e, n - 1, y, what, Max, extra), o, what, extra);
    }
  }

  /** With the exact repeat count, no encoding ends before the walk for the minimum. */
  lemma {:induction false} LowerBound(t: Type, v: Value, x: nat, y: nat, o: Orders, what: SampleOrKey)
    requires InBounds(v, t, what) && y <= x
    ensures End(t, y, what, Min, 0) <= x + |Enc(t, v, x, o, what)|
    decreases t, 1, 0
  {
    hide EncMembers, EncElems, EndMembers, WideBytes;
    match t
    case Prim(k) => PadMonotone(y, x, k.CdrSizeOf());
    case Struct(ms, _) => LowerBoundMembers(t, v.fields, |ms|, x, y, o, what);
    case Array(e, n) =>
      LowerBoundElems(e, v.elems, n, x, y, o, what);
      ManyIsIterated(e, n, y, what, Min, 0);
    case _ => PadMonotone(y, x, 4);
  }

  lemma {:induction false} LowerBoundMembers(
    t: Type, vs: seq<Value>, n: nat, x: nat, y: nat, o: Orders, what: SampleOrKey)
    requires t.Struct? && n <= |t.members| && n <= |vs| && y <= x
    requires forall i :: 0 <= i < n && Selected(t, i, what) ==> InBounds(vs[i], t.members[i].ty, what)
    ensures EndMembers(t, n, y, what, Min, 0) <= x + |EncMembers(t, vs, n, x, o, what)|
    decreases t, 0, n
  {
    hide Enc, End, InBounds;
    if n > 0 {
      LowerBoundMembers(t, vs, n - 1, x, y, o, what);
      if Selected(t, n - 1, what) {
        LowerBound(t.members[n - 1].ty, vs[n - 1], x + |EncMembers(t, vs, n - 1, x, o, what)|,
          EndMembers(t, n - 1, y, what, Min, 0), o, what);
      }
    }
  }

  lemma {:induction false} LowerBoundElems(
    e: Type, vs: seq<Value>, n: nat, x: nat, y: nat, o: Orders, what: SampleOrKey)
    requires n <= |vs| && y <= x
    requires forall i :: 0 <= i < n ==> InBounds(vs[i], e, what)
    ensures Iterated(e, n, y, what, Min, 0) <= x + |EncElems(e, vs, n, x, o, what)|
    decreases e, 2, n
  {
    hide Enc, End, InBounds;
    if n > 0 {
      LowerBoundElems(e, vs, n - 1, x, y, o, what);
      LowerBound(e, vs[n - 1], x + |EncElems(e, vs, n - 1, x, o, what)|, Iterated(e, n - 1, y, what, Min, 0), o, what);
    }
  }

  /** Memory in which every string and sequence is empty: its value is in bounds and attains the minimum. */
  lemma {:induction false} EmptyAttainsMinimum(t: Type, a: int, x: nat, native: Endian, what: SampleOrKey)
    ensures var v := ValueOf(t, EMPTY_MEM, a, native, what);
            && InBounds(v, t, what)
            && x + |Enc(t, v, x, Both(native), what)| == End(t, x, what, Min, 0)
    decreases t, 1, 0
  {
    hide EncMembers, EncElems, EndMembers, ValueMembers, ValueElems, Read, InOrder, WideBytes;
    match t
    case Struct(ms, _) =>
      EmptyMembers(t, a, |ms|, x, native, what);
    case Array(e, n) =>
      EmptyElems(e, a, n, n, x, native, what);
      ManyIsIterated(e, n, x, what, Min, 0);
    case Sequence(e, _, _) =>
      EncNothing(e, x + |EncU32(0, x, native)|, Both(native), what);
      assert ValueElems(e, EMPTY_MEM, 0, 0, native, what) == [];
    case _ =>
  }

  lemma EncNothing(e: Type, x: nat, o: Orders, what: SampleOrKey)
    ensures EncElems(e, [], 0, x, o, what) == []
  {
  }

  lemma {:induction false} EmptyMembers(t: Type, a: int, n: nat, x: nat, native: Endian, what: SampleOrKey)
    requires t.Struct? && n <= |t.members|
    ensures var vs := ValueMembers(t, EMPTY_MEM, a, |t.members|, native, what);
            && (forall i :: 0 <= i < n && Selected(t, i, what) ==> InBounds(vs[i], t.members[i].ty, what))
            && x + |EncMembers(t, vs, n, x, Both(native), what)| == EndMembers(t, n, x, what, Min, 0)
    decreases t, 0, n
  {
    hide Enc, End, ValueOf, InBounds, ValueMembers;
    if n > 0 {
      EmptyMembers(t, a, n - 1, x, native, what);
      ValueMemberAt(t, EMPTY_MEM, a, |t.members|, native, what, n - 1);
      if Selected(t, n - 1, what) {
        EmptyAttainsMinimum(t.members[n - 1].ty, a + t.members[n - 1].offset,
          EndMembers(t, n - 1, x, what, Min, 0), native, what);
      }
    }
  }

  lemma {:induction false} EmptyElems(e: Type, a: int, count: nat, n: nat, x: nat, native: Endian, what: SampleOrKey)
    requires n <= count
    ensures var vs := ValueElems(e, EMPTY_MEM, a, count, native, what);
            && (forall i :: 0 <= i < n ==> InBounds(vs[i], e, what))
            && x + |EncElems(e, vs, n, x, Both(native), what)| == Iterated(e, n, x, what, Min, 0)
    decreases e, 2, n
  {
    hide Enc, End, ValueOf, InBounds, ValueElems, Extent;
    if n > 0 {
      EmptyElems(e, a, count, n - 1, x, native, what);
      ValueElemAt(e, EMPTY_MEM, a, count, native, what, n - 1);
      EmptyAttainsMinimum(e, a + Extent(e, n - 1), Iterated(e, n - 1, x, what, Min, 0), native, what);
    }
  }

  // ---------------------------------------------------------------- the maximum is attained

  /** `v` is a value of `t` with every string and sequence as long as its bound allows. */
  predicate IsFull(v: Value, t: Type, what: SampleOrKey)
    decreases t
  {
    match t
    case Prim(k) => v.VPrim? && |v.raw| == k.CdrSizeOf()
    case Str(b, _) => v.VStr? && |v.chars| == b
    case WStr(b, _) => v.VWStr? && |v.units| == b
    case BoolVec(b, _) => v.VBools? && |v.flags| == b
    case Struct(ms, _) =>
      && v.VStruct? && |v.fields| == |ms|
      && forall i :: 0 <= i < |ms| && Selected(t, i, what) ==> IsFull(v.fields[i], ms[i].ty, what)
    case Array(e, n) => v.VList? && |v.elems| == n && forall i :: 0 <= i < n ==> IsFull(v.elems[i], e, what)
    case Sequence(e, b, _) =>
      v.VList? && |v.elems| == b && forall i :: 0 <= i < |v.elems| ==> IsFull(v.elems[i], e, what)
  }

  /** A full value is within its bounds and ends exactly where the walk for the maximum with the exact count ends. */
  lemma {:induction false} FullAttainsMaximum(t: Type, v: Value, x: nat, o: Orders, what: SampleOrKey)
    requires IsFull(v, t, what)
    ensures InBounds(v, t, what) && x + |Enc(t, v, x, o, what)| == End(t, x, what, Max, 0)
    decreases t, 1, 0
  {
    hide EncMembers, EncElems, EndMembers, EndMany, WideBytes;
    match t
    case Struct(ms, _) => FullMembers(t, v.fields, |ms|, x, o, what);
    case Array(e, n) =>
      FullElems(e, v.elems, n, x, o, what);
      ManyIsIterated(e, n, x, what, Max, 0);
    case Sequence(e, b, _) =>
      FullElems(e, v.elems, b, x + |EncU32(b, x, o.num)|, o, what);
      ManyIsIterated(e, b, EndU32(x), what, Max, 0);
    case _ =>
  }

  lemma {:induction false} FullMembers(t: Type, vs: seq<Value>, n: nat, x: nat, o: Orders, what: SampleOrKey)
    requires t.Struct? && n <= |t.members| && n <= |vs|
    requires forall i :: 0 <= i < n && Selected(t, i, what) ==> IsFull(vs[i], t.members[i].ty, what)
    ensures forall i :: 0 <= i < n && Selected(t, i, what) ==> InBounds(vs[i], t.members[i].ty, what)
    ensures x + |EncMembers(t, vs, n, x, o, what)| == EndMembers(t, n, x, what, Max, 0)
    decreases t, 0, n
  {
    hide Enc, End, InBounds, IsFull;
    if n > 0 {
      FullMembers(t, vs, n - 1, x, o, what);
      if Selected(t, n - 1, what) {
        FullAttainsMaximum(t.members[n - 1].ty, vs[n - 1], x + |EncMembers(t, vs, n - 1, x, o, what)|, o, what);
      }
    }
  }

  lemma {:induction false} FullElems(e: Type, vs: seq<Value>, n: nat, x: nat, o: Orders, what: SampleOrKey)
    requires n <= |vs| && forall i :: 0 <= i < n ==> IsFull(vs[i], e, what)
    ensures forall i :: 0 <= i < n ==> InBounds(vs[i], e, what)
    ensures x + |EncElems(e, vs, n, x, o, what)| == Iterated(e, n, x, what, Max, 0)
    decreases e, 2, n
  {
    hide Enc, End, InBounds, IsFull;
    if n > 0 {
      FullElems(e, vs, n - 1, x, o, what);
      FullAttainsMaximum(e, vs[n - 1], x + |EncElems(e, vs, n - 1, x, o, what)|, o, what);
    }
  }

  function Full(t: Type): Value
    decreases t
  {
    match t
    case Prim(k) => VPrim(Zeros(k.CdrSizeOf()))
    case Str(b, _) => VStr(Zeros(b))
    case WStr(b, _) => VWStr(seq(b, i => Unit16(0, 0)))
    case BoolVec(b, _) => VBools(Zeros(b))
    case Struct(ms, _) => VStruct(seq(|ms|, i requires 0 <= i < |ms| => Full(ms[i].ty)))
    case Array(e, n) => VList(seq(n, i => Full(e)))
    case Sequence(e, b, _) => VList(seq(b, i => Full(e)))
  }

  lemma {:induction false} FullIsFull(t: Type, what: SampleOrKey)
    ensures IsFull(Full(t), t, what)
    decreases t
  {
    match t
    case Struct(ms, _) =>
      forall i | 0 <= i < |ms| ensures IsFull(Full(ms[i].ty), ms[i].ty, what) { FullIsFull(ms[i].ty, what); }
    case Array(e, _) => FullIsFull(e, what);
    case Sequence(e, _, _) => FullIsFull(e, what);
    case _ =>
  }

  lemma {:induction false} CutFull(t: Type, v: Value, what: SampleOrKey, bits: bool)
    requires IsFull(v, t, what)
    ensures IsFull(Cut(t, v, what, bits), t, what)
    decreases t
  {
    hide CutMembers, CutElems;
    match t
    case Struct(ms, _) =>
      forall i | 0 <= i < |ms| && Selected(t, i, what)
        ensures IsFull(CutMembers(t, v.fields, |ms|, what, bits)[i], ms[i].ty, what)
      {
        CutMemberAt(t, v.fields, |ms|, what, bits, i);
        CutFull(ms[i].ty, v.fields[i], what, bits);
      }
    case Array(e, n) =>
      forall i | 0 <= i < n
        ensures IsFull(CutElems(e, v.elems, n, what, bits)[i], e, what)
      {
        CutElemAt(e, v.elems, n, what, bits, i);
        CutFull(e, v.elems[i], what, bits);
      }
    case Sequence(e, b, _) =>
      forall i | 0 <= i < b
        ensures IsFull(CutElems(e, v.elems, |v.elems|, what, bits)[i], e, what)
      {
        CutElemAt(e, v.elems, |v.elems|, what, bits, i);
        CutFull(e, v.elems[i], what, bits);
      }
    case _ =>
  }

  /** Memory that holds a full value. */
  lemma FullMemory(t: Type, native: Endian, what: SampleOrKey) returns (m: Mem)
    requires WellFormed(t)
    ensures IsFull(ValueOf(t, m, 0, native, what), t, what)
  {
    hide Store, ValueOf, IsFull, Cut, WellFormed, HasType, Enc, InBounds;
    var v := Full(t);
    FullIsFull(t, what);
    FullAttainsMaximum(t, v, 0, Both(native), what);
    InBoundsTyped(v, t, what);
    m := Store(t, EMPTY_MEM, 0, v, native, what);
    StoreValueOf(t, EMPTY_MEM, 0, v, native, what);
    CutFull(t, v, what, true);
  }

  // ---------------------------------------------------------------- trivially serialized types have one size

  /** Any memory holds a value of a trivially serialized type. */
  lemma {:induction false} FlatTyped(t: Type, z: nat, m: Mem, a: int, native: Endian, what: SampleOrKey)
    requires Triv(t, z)
    ensures HasType(ValueOf(t, m, a, native, what), t, what)
    decreases t, 1
  {
    hide ValueMembers, ValueElems, TrivMembers, Read;
    match t
    case Struct(ms, _) =>
      forall i | 0 <= i < |ms| && Selected(t, i, what)
        ensures HasType(ValueMembers(t, m, a, |ms|, native, what)[i], ms[i].ty, what)
      {
        ValueMemberAt(t, m, a, |ms|, native, what, i);
        TrivMember(t, z % MAX_ALIGN, i, |ms|);
        FlatTyped(ms[i].ty, (z % MAX_ALIGN + Packed(t, i)) % MAX_ALIGN, m, a + ms[i].offset, native, what);
      }
    case Array(e, n) =>
      var vs := ValueElems(e, m, a, n, native, what);
      forall i: nat | i < n
        ensures HasType(vs[i], e, what)
      {
        ValueElemAt(e, m, a, n, native, what, i);
        FlatTyped(e, z % MAX_ALIGN, m, a + Extent(e, i), native, what);
      }
    case _ =>
  }

  /** The encoded size of a trivially serialized type, whole or key, is what the size walk says. */
  lemma {:induction false} FlatEnd(t: Type, z: nat, v: Value, off: nat, o: Orders, what: SampleOrKey)
    requires Triv(t, z) && HasType(v, t, what)
    ensures off + |Enc(t, v, off, o, what)| == End(t, off, what, Min, 0)
    decreases t, 1, 0
  {
    hide EncMembers, EncElems, EndMembers, EndMany, TrivMembers;
    match t
    case Struct(ms, _) => FlatEndMembers(t, z, v.fields, |ms|, off, o, what);
    case Array(e, n) =>
      FlatEndElems(e, z % MAX_ALIGN, v.elems, n, off, o, what);
      ManyIsIterated(e, n, off, what, Min, 0);
    case _ =>
  }

  lemma {:induction false} FlatEndMembers(
    t: Type, z: nat, vs: seq<Value>, n: nat, off: nat, o: Orders, what: SampleOrKey)
    requires t.Struct? && n <= |t.members| && n <= |vs| && TrivMembers(t, z % MAX_ALIGN, |t.members|)
    requires forall i :: 0 <= i < |t.members| && Selected(t, i, what) && i < |vs| ==>
               HasType(vs[i], t.members[i].ty, what)
    ensures off + |EncMembers(t, vs, n, off, o, what)| == EndMembers(t, n, off, what, Min, 0)
    decreases t, 0, n
  {
    hide Enc, End, HasType, Triv;
    if n > 0 {
      FlatEndMembers(t, z, vs, n - 1, off, o, what);
      if Selected(t, n - 1, what) {
        TrivMember(t, z % MAX_ALIGN, n - 1, |t.members|);
        FlatEnd(t.members[n - 1].ty, (z % MAX_ALIGN + Packed(t, n - 1)) % MAX_ALIGN, vs[n - 1],
          off + |EncMembers(t, vs, n - 1, off, o, what)|, o, what);
      }
    }
  }

  lemma {:induction false} FlatEndElems(
    e: Type, z: nat, vs: seq<Value>, n: nat, off: nat, o: Orders, what: SampleOrKey)
    requires Triv(e, z) && n <= |vs| && forall i :: 0 <= i < |vs| ==> HasType(vs[i], e, what)
    ensures off + |EncElems(e, vs, n, off, o, what)| == Iterated(e, n, off, what, Min, 0)
    decreases e, 2, n
  {
    hide Enc, End, HasType, Triv;
    if n > 0 {
      FlatEndElems(e, z, vs, n - 1, off, o, what);
      FlatEnd(e, z, vs[n - 1], off + |EncElems(e, vs, n - 1, off, o, what)|, o, what);
    }
  }
}
