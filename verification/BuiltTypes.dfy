/**
 What the bounds of built types mean for their keys. A string in the key makes its maximum unbounded;
 without strings and sequences every key is within its bounds; with a sequence keys can be of any length.
 */
module BuiltTypes {
  import opened Bytes
  import opened Types
  import opened Cdr
  import opened NativeMemory
  import opened SizeWalk
  import opened SizeBounds
  import opened CdrWriter

  /** Some string is part of the key. */
  predicate TextInKey(t: Type) {
    match t
    case Str(_, _) => true
    case WStr(_, _) => true
    case Struct(ms, _) => exists i :: 0 <= i < |ms| && Selected(t, i, Key) && TextInKey(ms[i].ty)
    case Array(e, _) => TextInKey(e)
    case Sequence(e, _, _) => TextInKey(e)
    case _ => false
  }

  /** Some sequence is part of the key. */
  predicate SequenceInKey(t: Type) {
    match t
    case BoolVec(_, _) => true
    case Struct(ms, _) => exists i :: 0 <= i < |ms| && Selected(t, i, Key) && SequenceInKey(ms[i].ty)
    case Array(e, _) => SequenceInKey(e)
    case Sequence(_, _, _) => true
    case _ => false
  }

  lemma BuiltBelow(t: Type)
    requires Built(t)
    ensures t.Struct? ==> forall i :: 0 <= i < |t.members| ==> Built(t.members[i].ty)
    ensures t.Array? || t.Sequence? ==> Built(t.elem)
    ensures t.Array? ==> t.count >= 1
    ensures t.Sequence? ==> t.bound >= 1
  {
  }

  /** A string in the key of a built type takes the walk for the maximum beyond 4 GiB. */
  lemma {:induction false} TextUnbounded(t: Type, x: nat)
    requires Built(t) && TextInKey(t)
    ensures End(t, x, Key, Max, 0) > UINT32_MAX
    decreases t, 0
  {
    hide EndMembers, EndMany, Built, Selected;
    BuiltBelow(t);
    match t
    case Struct(ms, _) =>
      var i :| 0 <= i < |ms| && Selected(t, i, Key) && TextInKey(ms[i].ty);
      MemberEnd(t, i, x, Key, Max);
      EndMembersPrefix(t, i + 1, |ms|, x, Key, Max, 0);
      TextUnbounded(ms[i].ty, EndMembers(t, i, x, Key, Max, 0));
    case Array(e, n) => FirstUnbounded(e, n, x);
    case Sequence(e, b, _) => FirstUnbounded(e, b, EndU32(x));
    case _ => BuiltText(t);
  }

  lemma BuiltText(t: Type)
    requires Built(t)
    ensures t.Str? ==> t.bound == UINT32_MAX - 1
    ensures t.WStr? ==> t.bound == UINT32_MAX / 2
  {
  }

  lemma {:induction false} FirstUnbounded(e: Type, n: nat, x: nat)
    requires Built(e) && TextInKey(e) && n >= 1
    ensures EndMany(e, n, x, Key, Max, 0) > UINT32_MAX
    decreases e, 1
  {
    hide End, EndMany, Built;
    TextUnbounded(e, x);
    ManyIsIterated(e, n, x, Key, Max, 0);
    IteratedMonotone(e, 1, n, x, Key, Max, 0);
    assert Iterated(e, 0, x, Key, Max, 0) == x;
    assert Iterated(e, 1, x, Key, Max, 0) == End(e, x, Key, Max, 0);
  }

  /** Where there is nothing to bound, every key is within its bounds. */
  lemma {:induction false} FixedInBounds(t: Type, v: Value)
    requires !TextInKey(t) && !SequenceInKey(t) && HasType(v, t, Key)
    ensures InBounds(v, t, Key)
    decreases t
  {
    match t
    case Struct(ms, _) =>
      forall i | 0 <= i < |ms| && Selected(t, i, Key)
        ensures InBounds(v.fields[i], ms[i].ty, Key)
      {
        FixedInBounds(ms[i].ty, v.fields[i]);
      }
    case Array(e, n) =>
      forall i | 0 <= i < n ensures InBounds(v.elems[i], e, Key) { FixedInBounds(e, v.elems[i]); }
    case _ =>
  }

  // ---------------------------------------------------------------- long keys

  /** `v` is a value of `t` with `k` elements in every sequence. */
  predicate IsLong(t: Type, v: Value, k: nat, what: SampleOrKey)
    decreases t
  {
    match t
    case Prim(w) => v.VPrim? && |v.raw| == w.CdrSizeOf()
    case Str(_, _) => v == VStr([])
    case WStr(_, _) => v == VWStr([])
    case BoolVec(_, _) => v.VBools? && |v.flags| == k
    case Struct(ms, _) =>
      && v.VStruct? && |v.fields| == |ms|
      && forall i :: 0 <= i < |ms| && Selected(t, i, what) ==> IsLong(ms[i].ty, v.fields[i], k, what)
    case Array(e, n) => v.VList? && |v.elems| == n && forall i :: 0 <= i < n ==> IsLong(e, v.elems[i], k, what)
    case Sequence(e, _, _) =>
      v.VList? && |v.elems| == k && forall i :: 0 <= i < k ==> IsLong(e, v.elems[i], k, what)
  }

  function Long(t: Type, k: nat): Value
    decreases t
  {
    match t
    case Prim(w) => VPrim(Zeros(w.CdrSizeOf()))
    case Str(_, _) => VStr([])
    case WStr(_, _) => VWStr([])
    case BoolVec(_, _) => VBools(Zeros(k))
    case Struct(ms, _) => VStruct(seq(|ms|, i requires 0 <= i < |ms| => Long(ms[i].ty, k)))
    case Array(e, n) => VList(seq(n, i => Long(e, k)))
    case Sequence(e, _, _) => VList(seq(k, i => Long(e, k)))
  }

  lemma {:induction false} LongIsLong(t: Type, k: nat, what: SampleOrKey)
    requires k <= UINT32_MAX
    ensures IsLong(t, Long(t, k), k, what) && HasType(Long(t, k), t, what)
    decreases t
  {
    match t
    case Struct(ms, _) =>
      forall i | 0 <= i < |ms|
        ensures IsLong(ms[i].ty, Long(ms[i].ty, k), k, what) && HasType(Long(ms[i].ty, k), ms[i].ty, what)
      {
        LongIsLong(ms[i].ty, k, what);
      }
    case Array(e, _) => LongIsLong(e, k, what);
    case Sequence(e, _, _) => LongIsLong(e, k, what);
    case _ =>
  }

  lemma {:induction false} CutLong(t: Type, v: Value, k: nat, what: SampleOrKey, bits: bool)
    requires IsLong(t, v, k, what)
    ensures IsLong(t, Cut(t, v, what, bits), k, what)
    decreases t
  {
    hide CutMembers, CutElems;
    match t
    case Struct(ms, _) =>
      forall i | 0 <= i < |ms| && Selected(t, i, what)
        ensures IsLong(ms[i].ty, CutMembers(t, v.fields, |ms|, what, bits)[i], k, what)
      {
        CutMemberAt(t, v.fields, |ms|, what, bits, i);
        CutLong(ms[i].ty, v.fields[i], k, what, bits);
      }
    case Array(e, n) =>
      forall i | 0 <= i < n
        ensures IsLong(e, CutElems(e, v.elems, n, what, bits)[i], k, what)
      {
        CutElemAt(e, v.elems, n, what, bits, i);
        CutLong(e, v.elems[i], k, what, bits);
      }
    case Sequence(e, _, _) =>
      forall i | 0 <= i < k
        ensures IsLong(e, CutElems(e, v.elems, k, what, bits)[i], k, what)
      {
        CutElemAt(e, v.elems, k, what, bits, i);
        CutLong(e, v.elems[i], k, what, bits);
      }
    case _ =>
  }

  /** Nothing is encoded without a byte, and `k` elements of a sequence take at least `k`. */
  lemma {:induction false} LongLength(t: Type, v: Value, k: nat, off: nat, o: Orders)
    requires WellFormed(t) && IsLong(t, v, k, Key)
    ensures |Enc(t, v, off, o, Key)| >= 1
    ensures SequenceInKey(t) ==> |Enc(t, v, off, o, Key)| >= k
    decreases t, 1, 0
  {
    hide EncMembers, EncElems, WellFormed, Selected, WideBytes;
    WellFormedBelow(t);
    NotEmpty(t);
    match t
    case Struct(ms, _) =>
      SomeSelected(t, Key);
      LongMembers(t, v.fields, |ms|, k, off, o);
    case Array(e, n) =>
      LongElems(e, v.elems, n, k, off, o);
    case Sequence(e, _, _) => LongElems(e, v.elems, k, k, off + |EncU32(k, off, o.num)|, o);
    case _ =>
  }

  lemma NotEmpty(t: Type)
    requires WellFormed(t)
    ensures t.Struct? ==> |t.members| > 0
    ensures t.Array? ==> t.count > 0
  {
  }

  lemma {:induction false} LongMembers(t: Type, vs: seq<Value>, n: nat, k: nat, off: nat, o: Orders)
    requires t.Struct? && WellFormed(t) && n <= |t.members| && n <= |vs|
    requires forall i :: 0 <= i < n && Selected(t, i, Key) ==> IsLong(t.members[i].ty, vs[i], k, Key)
    ensures (exists i :: 0 <= i < n && Selected(t, i, Key)) ==> |EncMembers(t, vs, n, off, o, Key)| >= 1
    ensures (exists i :: 0 <= i < n && Selected(t, i, Key) && SequenceInKey(t.members[i].ty)) ==>
              |EncMembers(t, vs, n, off, o, Key)| >= k
    decreases t, 0, n
  {
    hide Enc, WellFormed, Selected, IsLong, SequenceInKey;
    if n > 0 {
      WellFormedBelow(t);
      LongMembers(t, vs, n - 1, k, off, o);
      if Selected(t, n - 1, Key) {
        LongLength(t.members[n - 1].ty, vs[n - 1], k, off + |EncMembers(t, vs, n - 1, off, o, Key)|, o);
      }
    }
  }

  lemma {:induction false} LongElems(e: Type, vs: seq<Value>, n: nat, k: nat, off: nat, o: Orders)
    requires WellFormed(e) && n <= |vs| && forall i :: 0 <= i < n ==> IsLong(e, vs[i], k, Key)
    ensures |EncElems(e, vs, n, off, o, Key)| >= n
    ensures n >= 1 && SequenceInKey(e) ==> |EncElems(e, vs, n, off, o, Key)| >= k
    decreases e, 2, n
  {
    hide Enc, WellFormed, IsLong, SequenceInKey;
    if n > 0 {
      LongElems(e, vs, n - 1, k, off, o);
      LongLength(e, vs[n - 1], k, off + |EncElems(e, vs, n - 1, off, o, Key)|, o);
    }
  }

  /** If a sequence is part of the key, some object in memory has a key of at least `k` bytes. */
  lemma LongMemory(t: Type, k: nat, native: Endian) returns (m: Mem)
    requires WellFormed(t) && SequenceInKey(t) && k <= UINT32_MAX
    ensures var v := ValueOf(t, m, 0, native, Key);
            HasType(v, t, Key) && forall o :: |Enc(t, v, 0, o, Key)| >= k
  {
    hide Store, ValueOf, IsLong, Cut, WellFormed, HasType, Enc, SequenceInKey;
    var v := Long(t, k);
    LongIsLong(t, k, Key);
    m := Store(t, EMPTY_MEM, 0, v, native, Key);
    StoreValueOf(t, EMPTY_MEM, 0, v, native, Key);
    CutLong(t, v, k, Key, true);
    CutTyped(t, v, Key, true);
    forall o
      ensures |Enc(t, ValueOf(t, m, 0, native, Key), 0, o, Key)| >= k
    {
      LongLength(t, ValueOf(t, m, 0, native, Key), k, 0, o);
    }
  }
}
