/**
 At which residues modulo the largest alignment the parts of an encoding can begin, and what that means for the bulk
 copy in key mode: a condition on the type alone for a walk never to copy members outside the key.
 */
module Reach {
  import opened Bytes
  import opened Types
  import opened TrivCache
  import opened Cdr
  import opened NativeMemory

  // ---------------------------------------------------------------- where parts can begin

  /** Where a 32-bit length word ends that is written at residue `r`. */
  function AfterWord(r: nat): nat {
    (r + Pad(r, 4) + 4) % MAX_ALIGN
  }

  /** Some value of `t` whose encoding begins at residue `r` may end at residue `q`. */
  predicate Reaches(t: Type, r: nat, q: nat, what: SampleOrKey)
    decreases t, 1, 0
  {
    match t
    case Prim(k) => q == (r + Pad(r, k.CdrSizeOf()) + k.CdrSizeOf()) % MAX_ALIGN
    case Str(_, _) => q < MAX_ALIGN
    case WStr(_, _) => q < MAX_ALIGN && q % 2 == 0
    case BoolVec(_, _) => q < MAX_ALIGN
    case Struct(ms, _) => ReachesMember(t, |ms|, r, q, what)
    case Array(e, n) => ReachesElem(e, n, r, q, what)
    case Sequence(e, _, _) => q in Within(e, {AfterWord(r)}, MAX_ALIGN, what)
  }

  /** Member `n`, or the end behind the last one, may begin at residue `q`. */
  predicate ReachesMember(t: Type, n: nat, r: nat, q: nat, what: SampleOrKey)
    requires t.Struct? && n <= |t.members|
    decreases t, 0, n
  {
    if n == 0 then q == r
    else if !Selected(t, n - 1, what) then ReachesMember(t, n - 1, r, q, what)
    else
      var ty := t.members[n - 1].ty;
      exists p: nat | p < MAX_ALIGN :: ReachesMember(t, n - 1, r, p, what) && Reaches(ty, p, q, what)
  }

  /** Element `n` of consecutive elements, or their end, may begin at residue `q`. */
  predicate ReachesElem(e: Type, n: nat, r: nat, q: nat, what: SampleOrKey)
    decreases e, 2, n
  {
    if n == 0 then q == r
    else exists p: nat | p < MAX_ALIGN :: ReachesElem(e, n - 1, r, p, what) && Reaches(e, p, q, what)
  }

  /** Where up to `n` elements may end that begin at a residue in `s`. */
  function Within(e: Type, s: set<nat>, n: nat, what: SampleOrKey): set<nat>
    decreases e, 3, n
  {
    if n == 0 then s
    else Within(e, s, n - 1, what) + Onward(e, Within(e, s, n - 1, what), what)
  }

  /** Where one element may end that begins at a residue in `s`. */
  function Onward(e: Type, s: set<nat>, what: SampleOrKey): set<nat>
    decreases e, 2, 0
  {
    set p: nat, q: nat | p in s && q < MAX_ALIGN && Reaches(e, p, q, what) :: q
  }

  // ---------------------------------------------------------------- as many steps as residues suffice

  lemma SmallSet(s: set<nat>, n: nat)
    requires forall x :: x in s ==> x < n
    ensures |s| <= n
  {
    if n > 0 {
      SmallSet(s - {n - 1}, n - 1);
    } else {
      assert s == {};
    }
  }

  lemma WithinSmall(e: Type, s: set<nat>, n: nat, what: SampleOrKey)
    requires forall x :: x in s ==> x < MAX_ALIGN
    ensures forall x :: x in Within(e, s, n, what) ==> x < MAX_ALIGN
  {
    hide Reaches;
  }

  /** Each step adds something until nothing is ever added any more. */
  lemma {:induction false} GrowsOrStays(e: Type, s: set<nat>, n: nat, what: SampleOrKey)
    ensures |Within(e, s, n, what)| >= |s| + n || Within(e, s, n + 1, what) == Within(e, s, n, what)
    decreases n
  {
    hide Onward, Within;
    WithinStep(e, s, n, what);
    if n > 0 {
      GrowsOrStays(e, s, n - 1, what);
      WithinStep(e, s, n - 1, what);
      var a, b := Within(e, s, n - 1, what), Within(e, s, n, what);
      if a != b {
        StrictlyLarger(a, b);
      }
    } else {
      NoStep(e, s, what);
    }
  }

  lemma WithinStep(e: Type, s: set<nat>, n: nat, what: SampleOrKey)
    ensures Within(e, s, n + 1, what) == Within(e, s, n, what) + Onward(e, Within(e, s, n, what), what)
  {
  }

  lemma NoStep(e: Type, s: set<nat>, what: SampleOrKey)
    ensures Within(e, s, 0, what) == s
  {
  }

  lemma StrictlyLarger(a: set<nat>, b: set<nat>)
    requires a <= b && a != b
    ensures |b| >= |a| + 1
  {
    var x :| x in b && x !in a;
    SubsetSize(a, b - {x});
  }

  lemma SubsetSize(a: set<nat>, b: set<nat>)
    requires a <= b
    ensures |a| <= |b|
  {
    assert b == a + (b - a);
  }

  /** Any number of elements leads no further than as many as there are residues. */
  lemma {:induction false} AnyNumberWithin(e: Type, r: nat, n: nat, q: nat, what: SampleOrKey)
    requires r < MAX_ALIGN && q < MAX_ALIGN && ReachesElem(e, n, r, q, what)
    ensures q in Within(e, {r}, MAX_ALIGN, what)
    decreases n
  {
    hide Reaches, Within;
    if n == 0 {
      WithinGrows(e, {r}, MAX_ALIGN, what);
    } else {
      var p: nat :| p < MAX_ALIGN && ReachesElem(e, n - 1, r, p, what) && Reaches(e, p, q, what);
      AnyNumberWithin(e, r, n - 1, p, what);
      Closed(e, r, p, q, what);
    }
  }

  lemma {:induction false} WithinGrows(e: Type, s: set<nat>, n: nat, what: SampleOrKey)
    ensures s <= Within(e, s, n, what)
  {
    hide Reaches;
    if n > 0 {
      WithinGrows(e, s, n - 1, what);
    }
  }

  lemma Closed(e: Type, r: nat, p: nat, q: nat, what: SampleOrKey)
    requires r < MAX_ALIGN && q < MAX_ALIGN
    requires p in Within(e, {r}, MAX_ALIGN, what) && Reaches(e, p, q, what)
    ensures q in Within(e, {r}, MAX_ALIGN, what)
  {
    hide Reaches;
    GrowsOrStays(e, {r}, MAX_ALIGN, what);
    WithinSmall(e, {r}, MAX_ALIGN, what);
    SmallSet(Within(e, {r}, MAX_ALIGN, what), MAX_ALIGN);
    assert q in Within(e, {r}, MAX_ALIGN + 1, what);
  }

  // ---------------------------------------------------------------- encodings end where they may

  /** `v` has the shape of `t`, whatever its counts. */
  predicate Shaped(t: Type, v: Value, what: SampleOrKey)
    decreases t
  {
    match t
    case Prim(k) => v.VPrim? && |v.raw| == k.CdrSizeOf()
    case Str(_, _) => v.VStr?
    case WStr(_, _) => v.VWStr?
    case BoolVec(_, _) => v.VBools?
    case Struct(ms, _) =>
      && v.VStruct? && |v.fields| == |ms|
      && forall i :: 0 <= i < |ms| && Selected(t, i, what) ==> Shaped(ms[i].ty, v.fields[i], what)
    case Array(e, n) => v.VList? && |v.elems| == n && forall i :: 0 <= i < n ==> Shaped(e, v.elems[i], what)
    case Sequence(e, _, _) => v.VList? && forall i :: 0 <= i < |v.elems| ==> Shaped(e, v.elems[i], what)
  }

  lemma {:induction false} TypedShaped(t: Type, v: Value, what: SampleOrKey)
    requires HasType(v, t, what)
    ensures Shaped(t, v, what)
    decreases t
  {
    match t
    case Struct(ms, _) =>
      forall i | 0 <= i < |ms| && Selected(t, i, what)
        ensures Shaped(ms[i].ty, v.fields[i], what)
      {
        TypedShaped(ms[i].ty, v.fields[i], what);
      }
    case Array(e, n) =>
      forall i | 0 <= i < n ensures Shaped(e, v.elems[i], what) { TypedShaped(e, v.elems[i], what); }
    case Sequence(e, _, _) =>
      forall i | 0 <= i < |v.elems| ensures Shaped(e, v.elems[i], what) { TypedShaped(e, v.elems[i], what); }
    case _ =>
  }

  /** Any memory holds a value of the shape of the type. */
  lemma {:induction false} MemoryShaped(t: Type, m: Mem, a: int, native: Endian, what: SampleOrKey)
    ensures Shaped(t, ValueOf(t, m, a, native, what), what)
    decreases t, 1
  {
    hide ValueMembers, ValueElems, Read;
    match t
    case Struct(ms, _) =>
      forall i | 0 <= i < |ms| && Selected(t, i, what)
        ensures Shaped(ms[i].ty, ValueMembers(t, m, a, |ms|, native, what)[i], what)
      {
        ValueMemberAt(t, m, a, |ms|, native, what, i);
        MemoryShaped(ms[i].ty, m, a + ms[i].offset, native, what);
      }
    case Array(e, n) => ElemsShaped(e, m, a, n, native, what);
    case Sequence(e, _, _) => ElemsShaped(e, BlockAt(m, a).1, 0, BlockAt(m, a).0, native, what);
    case _ =>
  }

  lemma {:induction false} ElemsShaped(e: Type, m: Mem, a: int, n: nat, native: Endian, what: SampleOrKey)
    ensures forall i :: 0 <= i < n ==> Shaped(e, ValueElems(e, m, a, n, native, what)[i], what)
    decreases e, 2
  {
    hide ValueOf, ValueElems, Shaped, Extent;
    forall i: nat | i < n
      ensures Shaped(e, ValueElems(e, m, a, n, native, what)[i], what)
    {
      ValueElemAt(e, m, a, n, native, what, i);
      MemoryShaped(e, m, a + Extent(e, i), native, what);
    }
  }

  lemma PadResidue(off: nat, w: nat)
    requires IsAlign(w)
    ensures Pad(off % MAX_ALIGN, w) == Pad(off, w)
  {
    ModEight(off, w);
  }

  lemma AfterWordIs(off: nat)
    ensures AfterWord(off % MAX_ALIGN) == (off + Pad(off, 4) + 4) % MAX_ALIGN
  {
    PadResidue(off, 4);
  }

  lemma WideEven(off: nat, n: nat)
    ensures (off + Pad(off, 4) + 4 + 2 * n) % MAX_ALIGN % 2 == 0
  {
    PadAligns(off, 4);
    Chain(off + Pad(off, 4));
    ModEight(off + Pad(off, 4) + 4 + 2 * n, 2);
  }

  lemma PrimReaches(k: Kind, v: Value, off: nat, o: Orders, what: SampleOrKey)
    requires Shaped(Prim(k), v, what)
    ensures Reaches(Prim(k), off % MAX_ALIGN, (off + |Enc(Prim(k), v, off, o, what)|) % MAX_ALIGN, what)
  {
    hide Pad;
    var w := k.CdrSizeOf();
    PadResidue(off, w);
    Wrapped(off, Pad(off, w) + w);
  }

  lemma Wrapped(x: nat, y: nat)
    ensures (x % MAX_ALIGN + y) % MAX_ALIGN == (x + y) % MAX_ALIGN
  {
  }

  /** An encoding ends at a residue that the type says it may end at. */
  lemma {:induction false} EncReaches(t: Type, v: Value, off: nat, o: Orders, what: SampleOrKey)
    requires Shaped(t, v, what)
    ensures Reaches(t, off % MAX_ALIGN, (off + |Enc(t, v, off, o, what)|) % MAX_ALIGN, what)
    decreases t, 1, 0
  {
    hide EncMembers, EncElems, EncU32, ReachesMember, ReachesElem, Within, Pad, AfterWord, WideBytes, InOrder;
    match t
    case Prim(k) => PrimReaches(k, v, off, o, what);
    case WStr(_, _) => WideEven(off, |v.units|);
    case Struct(ms, _) => EncReachesMember(t, v.fields, |ms|, off, o, what);
    case Array(e, n) => EncReachesElem(e, v.elems, n, off, o, what);
    case Sequence(e, _, _) =>
      var n, p := |v.elems|, EncU32(|v.elems|, off, o.num);
      AfterWordIs(off);
      EncReachesElem(e, v.elems, n, off + |p|, o, what);
      AnyNumberWithin(e, AfterWord(off % MAX_ALIGN), n,
        (off + |p| + |EncElems(e, v.elems, n, off + |p|, o, what)|) % MAX_ALIGN, what);
    case _ =>
  }

  lemma {:induction false} EncReachesMember(
    t: Type, vs: seq<Value>, n: nat, off: nat, o: Orders, what: SampleOrKey)
    requires t.Struct? && n <= |t.members| && n <= |vs|
    requires forall i :: 0 <= i < n && Selected(t, i, what) ==> Shaped(t.members[i].ty, vs[i], what)
    ensures ReachesMember(t, n, off % MAX_ALIGN, (off + |EncMembers(t, vs, n, off, o, what)|) % MAX_ALIGN, what)
    decreases t, 0, n
  {
    hide Enc, Reaches, Shaped, Selected;
    if n > 0 {
      EncReachesMember(t, vs, n - 1, off, o, what);
      if Selected(t, n - 1, what) {
        EncReaches(t.members[n - 1].ty, vs[n - 1], off + |EncMembers(t, vs, n - 1, off, o, what)|, o, what);
      }
    }
  }

  lemma {:induction false} EncReachesElem(e: Type, vs: seq<Value>, n: nat, off: nat, o: Orders, what: SampleOrKey)
    requires n <= |vs| && forall i :: 0 <= i < n ==> Shaped(e, vs[i], what)
    ensures ReachesElem(e, n, off % MAX_ALIGN, (off + |EncElems(e, vs, n, off, o, what)|) % MAX_ALIGN, what)
    decreases e, 2, n
  {
    hide Enc, Reaches, Shaped;
    if n > 0 {
      EncReachesElem(e, vs, n - 1, off, o, what);
      EncReaches(e, vs[n - 1], off + |EncElems(e, vs, n - 1, off, o, what)|, o, what);
    }
  }

  /** Decoding ends at such a residue as well. */
  lemma DecReaches(t: Type, s: seq<Byte>, off: nat, o: Orders, what: SampleOrKey)
    requires off <= |s| && Dec(t, s, off, o, what).Good?
    ensures Reaches(t, off % MAX_ALIGN, Dec(t, s, off, o, what).end % MAX_ALIGN, what)
  {
    hide Dec, Enc, Reaches, HasType, Shaped;
    DecConsumesSize(t, s, off, o, what, o);
    TypedShaped(t, Dec(t, s, off, o, what).v, what);
    EncReaches(t, Dec(t, s, off, o, what).v, off, o, what);
  }

  lemma DecReachesMember(t: Type, n: nat, s: seq<Byte>, off: nat, o: Orders, what: SampleOrKey)
    requires t.Struct? && n <= |t.members| && off <= |s| && DecMembers(t, n, s, off, o, what).GoodSeq?
    ensures ReachesMember(t, n, off % MAX_ALIGN, DecMembers(t, n, s, off, o, what).end % MAX_ALIGN, what)
  {
    hide DecMembers, EncMembers, ReachesMember, HasType, Shaped, Selected;
    var vs := DecMembers(t, n, s, off, o, what).vs;
    assert vs[..n] == vs;
    DecMembersConsume(t, n, vs, s, off, o, what, o);
    forall i | 0 <= i < n && Selected(t, i, what)
      ensures Shaped(t.members[i].ty, vs[i], what)
    {
      TypedShaped(t.members[i].ty, vs[i], what);
    }
    EncReachesMember(t, vs, n, off, o, what);
  }

  lemma DecReachesElem(e: Type, n: nat, s: seq<Byte>, off: nat, o: Orders, what: SampleOrKey)
    requires off <= |s| && DecElems(e, n, s, off, o, what).GoodSeq?
    ensures ReachesElem(e, n, off % MAX_ALIGN, DecElems(e, n, s, off, o, what).end % MAX_ALIGN, what)
  {
    hide DecElems, EncElems, ReachesElem, HasType, Shaped;
    var vs := DecElems(e, n, s, off, o, what).vs;
    assert vs[..n] == vs;
    DecElemsConsume(e, n, vs, s, off, o, what, o);
    forall i | 0 <= i < n ensures Shaped(e, vs[i], what) { TypedShaped(e, vs[i], what); }
    EncReachesElem(e, vs, n, off, o, what);
  }

  // ---------------------------------------------------------------- where the bulk copy does no harm in key mode

  /** The bulk copy of further elements is never taken after a first one that begins at residue `r`. */
  predicate NeverBulk(e: Type, r: nat, what: SampleOrKey) {
    forall q: nat | q < MAX_ALIGN && Reaches(e, r, q, what) :: !ManyTriv(e, q)
  }

  /**
   A key walk over a `t` that begins at residue `r` never reaches further elements that would be copied in bulk
   although a key walk leaves some of their members out. `what` says what is in the stream.
   */
  predicate KeySafe(t: Type, r: nat, what: SampleOrKey)
    decreases t, 1
  {
    match t
    case Struct(ms, _) =>
      forall i: nat, q: nat | i < |ms| && q < MAX_ALIGN && ReachesMember(t, i, r, q, what) && Selected(t, i, Key) ::
        KeySafe(ms[i].ty, q, what)
    case Array(e, n) => ElemsSafe(e, n, r, what)
    case Sequence(e, _, _) =>
      var x := AfterWord(r);
      Whole(e) || (NeverBulk(e, x, what) && forall q | q in Within(e, {x}, MAX_ALIGN, what) :: KeySafe(e, q, what))
    case _ => true
  }

  /** The same for `n` consecutive elements. */
  predicate ElemsSafe(e: Type, n: nat, r: nat, what: SampleOrKey)
    decreases e, 3
  {
    Whole(e) || ((n >= 2 ==> NeverBulk(e, r, what)) && StartsSafe(e, n, r, what))
  }

  /** The same for each of `n` consecutive elements by itself. */
  predicate StartsSafe(e: Type, n: nat, r: nat, what: SampleOrKey)
    decreases e, 2
  {
    forall i: nat, q: nat | i < n && q < MAX_ALIGN && ReachesElem(e, i, r, q, what) :: KeySafe(e, q, what)
  }

  lemma {:induction false} WholeSafe(t: Type, r: nat, what: SampleOrKey)
    requires Whole(t)
    ensures KeySafe(t, r, what)
    decreases t
  {
    match t
    case Struct(ms, _) =>
      forall i: nat, q: nat | i < |ms| && q < MAX_ALIGN && ReachesMember(t, i, r, q, what) && Selected(t, i, Key)
        ensures KeySafe(ms[i].ty, q, what)
      {
        WholeSafe(ms[i].ty, q, what);
      }
    case _ =>
  }

  lemma SafeStarts(e: Type, n: nat, r: nat, what: SampleOrKey)
    requires ElemsSafe(e, n, r, what)
    ensures StartsSafe(e, n, r, what)
  {
    hide Whole, KeySafe, ReachesElem, NeverBulk;
    if Whole(e) {
      forall i: nat, q: nat | i < n && q < MAX_ALIGN && ReachesElem(e, i, r, q, what)
        ensures KeySafe(e, q, what)
      {
        WholeSafe(e, q, what);
      }
    }
  }

  lemma FewerSafe(e: Type, n: nat, k: nat, r: nat, what: SampleOrKey)
    requires StartsSafe(e, n, r, what) && k <= n
    ensures StartsSafe(e, k, r, what)
  {
    hide KeySafe, ReachesElem;
  }

  lemma FirstSafe(e: Type, n: nat, r: nat, what: SampleOrKey)
    requires StartsSafe(e, n, r, what) && n > 0 && r < MAX_ALIGN
    ensures KeySafe(e, r, what)
  {
    hide KeySafe;
    assert ReachesElem(e, 0, r, r, what);
  }

  lemma SequenceSafe(t: Type, n: nat, r: nat, what: SampleOrKey)
    requires t.Sequence? && KeySafe(t, r, what)
    ensures ElemsSafe(t.elem, n, AfterWord(r), what)
  {
    hide Whole, ReachesElem, NeverBulk, Within, AfterWord;
    var e, x := t.elem, AfterWord(r);
    if !Whole(e) {
      forall i: nat, q: nat | i < n && q < MAX_ALIGN && ReachesElem(e, i, x, q, what)
        ensures KeySafe(e, q, what)
      {
        AfterWordSmall(r);
        AnyNumberWithin(e, x, i, q, what);
      }
    }
  }

  /** The same for the elements behind a length word in an input. */
  lemma CountedSafe(t: Type, s: seq<Byte>, off: nat, e: Endian, what: SampleOrKey)
    requires t.Sequence? && KeySafe(t, off % MAX_ALIGN, what) && DecU32(s, off, e).GoodWord?
    ensures var c := DecU32(s, off, e); ElemsSafe(t.elem, c.n, c.end % MAX_ALIGN, what)
  {
    hide KeySafe, ElemsSafe, AfterWord, Pad;
    AfterWordIs(off);
    SequenceSafe(t, DecU32(s, off, e).n, off % MAX_ALIGN, what);
  }

  /** The member that is decoded next begins where it is safe. */
  lemma MemberSafe(t: Type, n: nat, s: seq<Byte>, off: nat, o: Orders, what: SampleOrKey)
    requires t.Struct? && n < |t.members| && off <= |s| && DecMembers(t, n, s, off, o, what).GoodSeq?
    requires KeySafe(t, off % MAX_ALIGN, what) && Selected(t, n, Key)
    ensures KeySafe(t.members[n].ty, DecMembers(t, n, s, off, o, what).end % MAX_ALIGN, what)
  {
    hide DecMembers, ReachesMember, Selected;
    DecReachesMember(t, n, s, off, o, what);
  }

  /** So does the element. */
  lemma ElemSafe(e: Type, n: nat, s: seq<Byte>, off: nat, o: Orders, what: SampleOrKey)
    requires n > 0 && off <= |s| && DecElems(e, n - 1, s, off, o, what).GoodSeq?
    requires StartsSafe(e, n, off % MAX_ALIGN, what)
    ensures KeySafe(e, DecElems(e, n - 1, s, off, o, what).end % MAX_ALIGN, what)
  {
    hide DecElems, ReachesElem, KeySafe;
    DecReachesElem(e, n - 1, s, off, o, what);
  }

  lemma NotTakenInInput(e: Type, s: seq<Byte>, off: nat, o: Orders, what: SampleOrKey)
    requires NeverBulk(e, off % MAX_ALIGN, what) && off <= |s| && Dec(e, s, off, o, what).Good?
    ensures !ManyTriv(e, Dec(e, s, off, o, what).end)
  {
    hide Reaches, Dec, Triv;
    DecReaches(e, s, off, o, what);
    assert !ManyTriv(e, Dec(e, s, off, o, what).end % MAX_ALIGN);
  }

  lemma AfterWordSmall(r: nat)
    ensures AfterWord(r) < MAX_ALIGN
  {
  }

  /** After a first element that ends where an encoding of it ends, the bulk copy is not taken. */
  lemma NotTaken(e: Type, off: nat, v: Value, o: Orders, what: SampleOrKey)
    requires NeverBulk(e, off % MAX_ALIGN, what) && Shaped(e, v, what)
    ensures !ManyTriv(e, off + |Enc(e, v, off, o, what)|)
  {
    hide Reaches, Enc, Triv;
    EncReaches(e, v, off, o, what);
    var x := off + |Enc(e, v, off, o, what)|;
    assert !ManyTriv(e, x % MAX_ALIGN);
  }
}
