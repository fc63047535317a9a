/**
 The conditions on the type for the bulk copy to do no harm in key mode are exact: where one fails, two objects with
 the same key exist whose keys the writer encodes differently, or whose samples have different keys extracted.
 */
module ReachExact {
  import opened Bytes
  import opened Types
  import opened TrivCache
  import opened Cdr
  import opened NativeMemory
  import opened Reach
  import opened WriterPaths
  import opened KeyPaths
  import opened KeyOut
  import opened SizeWalk
  import opened SizeBounds
  import opened KeyBulk
  import opened CdrWriter
  import opened CdrReader
  import opened KeyReader
  import opened Keys

  // ---------------------------------------------------------------- values that memory can hold

  /** `v` is a whole value of `t` that comes back from memory as it is. */
  ghost predicate Proper(t: Type, v: Value) {
    HasType(v, t, Sample) && Cut(t, v, Sample, true) == v
  }

  lemma ProperInMemory(t: Type, v: Value, e: Endian)
    requires WellFormed(t) && Proper(t, v)
    ensures ValueOf(t, Store(t, EMPTY_MEM, 0, v, e, Sample), 0, e, Sample) == v
  {
    hide Store, ValueOf, HasType, Cut, WellFormed;
    StoreValueOf(t, EMPTY_MEM, 0, v, e, Sample);
  }

  /** The empty value. */
  function Nothing(t: Type): Value {
    ValueOf(t, EMPTY_MEM, 0, Little, Sample)
  }

  lemma NothingProper(t: Type)
    requires WellFormed(t)
    ensures Proper(t, Nothing(t))
  {
    hide ValueOf, HasType, Cut, WellFormed, InBounds, Enc, End;
    EmptyAttainsMinimum(t, 0, 0, Little, Sample);
    InBoundsTyped(Nothing(t), t, Sample);
    CutValueOf(t, EMPTY_MEM, 0, Little, Sample, true);
  }

  lemma ProperStruct(t: Type, vs: seq<Value>)
    requires t.Struct? && |vs| == |t.members| && forall i :: 0 <= i < |vs| ==> Proper(t.members[i].ty, vs[i])
    ensures Proper(t, VStruct(vs))
  {
    hide CutMembers;
    var ws := CutMembers(t, vs, |vs|, Sample, true);
    forall i | 0 <= i < |vs|
      ensures ws[i] == vs[i]
    {
      CutMemberAt(t, vs, |vs|, Sample, true, i);
      assert Selected(t, i, Sample);
    }
    assert ws == vs;
  }

  lemma ProperElems(u: Type, vs: seq<Value>)
    requires forall i :: 0 <= i < |vs| ==> Proper(u, vs[i])
    ensures forall i :: 0 <= i < |vs| ==> HasType(vs[i], u, Sample)
    ensures CutElems(u, vs, |vs|, Sample, true) == vs
  {
    hide CutElems, HasType, Cut;
    var ws := CutElems(u, vs, |vs|, Sample, true);
    forall i | 0 <= i < |vs|
      ensures ws[i] == vs[i]
    {
      CutElemAt(u, vs, |vs|, Sample, true, i);
    }
  }

  /** A whole value comes back from a stream as it is. */
  lemma {:induction false} ProperUncut(t: Type, v: Value)
    requires Proper(t, v)
    ensures Cut(t, v, Sample, false) == v
    decreases t, 0
  {
    hide CutMembers, CutElems;
    match t
    case Struct(ms, _) =>
      var ws := CutMembers(t, v.fields, |ms|, Sample, false);
      forall i | 0 <= i < |ms|
        ensures ws[i] == v.fields[i]
      {
        assert Selected(t, i, Sample);
        CutMemberAt(t, v.fields, |ms|, Sample, true, i);
        CutMemberAt(t, v.fields, |ms|, Sample, false, i);
        ProperUncut(ms[i].ty, v.fields[i]);
      }
      assert ws == v.fields;
    case Array(u, _) => ElemsUncut(u, v.elems);
    case Sequence(u, _, _) => ElemsUncut(u, v.elems);
    case _ =>
  }

  lemma {:induction false} ElemsUncut(u: Type, vs: seq<Value>)
    requires (forall i :: 0 <= i < |vs| ==> HasType(vs[i], u, Sample)) && CutElems(u, vs, |vs|, Sample, true) == vs
    ensures CutElems(u, vs, |vs|, Sample, false) == vs
    decreases u, 1
  {
    hide CutElems, HasType, Cut;
    var ws := CutElems(u, vs, |vs|, Sample, false);
    forall i | 0 <= i < |vs|
      ensures ws[i] == vs[i]
    {
      CutElemAt(u, vs, |vs|, Sample, true, i);
      CutElemAt(u, vs, |vs|, Sample, false, i);
      ProperUncut(u, vs[i]);
    }
    assert ws == vs;
  }

  /** A key is written where it stands. */
  predicate InPlace(src: nat, dst: nat, what: SampleOrKey) {
    what.Key? ==> src == dst
  }

  /** Where the type says that it is safe, what comes out is the plain key encoding. */
  lemma OutIsPlain(t: Type, v: Value, src: nat, dst: nat, e: Endian, what: SampleOrKey)
    requires WellFormed(t) && Proper(t, v) && KeySafe(t, src % MAX_ALIGN, what) && InPlace(src, dst, what)
    ensures Out(t, v, src, dst, e, what) == Enc(t, v, dst, Both(e), Key)
  {
    hide Out, Enc, KeySafe, Proper, WellFormed;
    if what.Key? {
      WrittenPlain(t, v, dst, e);
    } else {
      ExtractedPlain(t, v, src, dst, e);
    }
  }

  lemma WrittenPlain(t: Type, v: Value, off: nat, e: Endian)
    requires WellFormed(t) && Proper(t, v) && KeySafe(t, off % MAX_ALIGN, Key)
    ensures Out(t, v, off, off, e, Key) == Enc(t, v, off, Both(e), Key)
  {
    hide Out, Enc, Coded, ValueOf, Store, KeySafe, Proper, WellFormed;
    var m := Store(t, EMPTY_MEM, 0, v, e, Sample);
    ProperInMemory(t, v, e);
    CodedIsOut(t, m, 0, off, e);
    CodedIsPlain(t, m, 0, off, e, Key);
    SampleKeyEnc(t, m, 0, e, off, Both(e));
  }

  /** A stream in which `v` stands at offset `src`. */
  function StreamOf(t: Type, v: Value, src: nat, e: Endian): seq<Byte> {
    Zeros(src) + Enc(t, v, src, Both(e), Sample)
  }

  lemma StandsInStream(t: Type, v: Value, src: nat, e: Endian)
    requires Proper(t, v)
    ensures Stands(t, v, StreamOf(t, v, src, e), src, e)
  {
    hide Enc, HasType, Cut;
    assert Cut(t, v, Sample, false) == v by { ProperUncut(t, v); }
  }

  lemma ExtractedPlain(t: Type, v: Value, src: nat, dst: nat, e: Endian)
    requires WellFormed(t) && Proper(t, v) && KeySafe(t, src % MAX_ALIGN, Sample)
    ensures Out(t, v, src, dst, e, Sample) == Enc(t, v, dst, Both(e), Key)
  {
    hide Out, Enc, Dec, KeySafe, Proper, WellFormed, Stands, Extract;
    var s := StreamOf(t, v, src, e);
    StandsInStream(t, v, src, e);
    StandsEnd(t, v, s, src, e);
    assert src <= |s|;
    ExtractIsOut(t, v, s, src, dst, e);
    ExtractIsPlain(t, s, src, dst, Straight(e), FromSample);
  }

  // ---------------------------------------------------------------- every residue is reached

  /** How far it is from residue `x` on to residue `q`. */
  function Gap(x: nat, q: nat): (n: nat)
    requires q < MAX_ALIGN
    ensures n < MAX_ALIGN && (x + n) % MAX_ALIGN == q
  {
    (q + MAX_ALIGN - x % MAX_ALIGN) % MAX_ALIGN
  }

  lemma WideGap(off: nat, q: nat)
    requires q < MAX_ALIGN && q % 2 == 0
    ensures Gap(off + Pad(off, 4) + 4, q) % 2 == 0
  {
    WideEven(off, 0);
  }

  /** Some value of the type whose encoding begins at `off` ends at the residue `q`. */
  lemma {:induction false} Reached(t: Type, off: nat, q: nat, e: Endian, what: SampleOrKey) returns (v: Value)
    requires WellFormed(t) && q < MAX_ALIGN && Reaches(t, off % MAX_ALIGN, q, what)
    ensures Proper(t, v) && (off + |Enc(t, v, off, Both(e), what)|) % MAX_ALIGN == q
    decreases t, 1, 0
  {
    hide EncMembers, EncElems, EncU32, ReachesMember, ReachesElem, Within, AfterWord, WideBytes, InOrder, WellFormed,
      Proper, Pad, Zeros;
    WellFormedBelow(t);
    match t
    case Prim(k) => v := ReachedPrim(k, off, q, e, what);
    case Str(_, _) => v := ReachedCounted(t, off, q, e, what);
    case WStr(_, _) => v := ReachedCounted(t, off, q, e, what);
    case BoolVec(_, _) => v := ReachedCounted(t, off, q, e, what);
    case Struct(ms, _) =>
      var vs := ReachedMembers(t, |ms|, off, q, e, what);
      ProperStruct(t, vs);
      v := VStruct(vs);
    case Array(u, n) =>
      var vs := ReachedElems(u, n, off, q, e, what);
      v := VList(vs);
      ProperList(t, vs);
    case Sequence(u, _, _) => v := ReachedSequence(t, off, q, e, what);
  }

  lemma ProperList(t: Type, vs: seq<Value>)
    requires t.Array? || t.Sequence?
    requires forall i :: 0 <= i < |vs| ==> Proper(t.elem, vs[i])
    requires if t.Array? then |vs| == t.count else |vs| <= UINT32_MAX
    ensures Proper(t, VList(vs))
  {
    hide CutElems;
    ProperElems(t.elem, vs);
  }

  lemma ReachedPrim(k: Kind, off: nat, q: nat, e: Endian, what: SampleOrKey) returns (v: Value)
    requires Reaches(Prim(k), off % MAX_ALIGN, q, what)
    ensures Proper(Prim(k), v) && (off + |Enc(Prim(k), v, off, Both(e), what)|) % MAX_ALIGN == q
  {
    hide Pad;
    v := VPrim(Zeros(k.CdrSizeOf()));
    PrimReaches(k, v, off, Both(e), what);
  }

  lemma ReachedCounted(t: Type, off: nat, q: nat, e: Endian, what: SampleOrKey) returns (v: Value)
    requires (t.Str? || t.WStr? || t.BoolVec?) && q < MAX_ALIGN && Reaches(t, off % MAX_ALIGN, q, what)
    ensures Proper(t, v) && (off + |Enc(t, v, off, Both(e), what)|) % MAX_ALIGN == q
  {
    hide Pad, U32;
    var x := off + Pad(off, 4) + 4;
    if t.Str? {
      v := VStr(Zeros(Gap(x + 1, q)));
    } else if t.WStr? {
      WideGap(off, q);
      v := VWStr(seq(Gap(x, q) / 2, i => Unit16(0, 0)));
    } else {
      v := VBools(Zeros(Gap(x, q)));
      assert AsBits(v.flags) == v.flags;
    }
  }

  lemma {:induction false} ReachedMembers(t: Type, n: nat, off: nat, q: nat, e: Endian, what: SampleOrKey)
    returns (vs: seq<Value>)
    requires t.Struct? && WellFormed(t) && n <= |t.members| && q < MAX_ALIGN
    requires ReachesMember(t, n, off % MAX_ALIGN, q, what)
    ensures |vs| == n && forall i :: 0 <= i < n ==> Proper(t.members[i].ty, vs[i])
    ensures (off + |EncMembers(t, vs, n, off, Both(e), what)|) % MAX_ALIGN == q
    decreases t, 0, n
  {
    hide Enc, Reaches, WellFormed, Proper, Selected;
    if n == 0 {
      vs := [];
    } else {
      WellFormedBelow(t);
      var ty := t.members[n - 1].ty;
      if Selected(t, n - 1, what) {
        var p: nat :| p < MAX_ALIGN && ReachesMember(t, n - 1, off % MAX_ALIGN, p, what) && Reaches(ty, p, q, what);
        var ws := ReachedMembers(t, n - 1, off, p, e, what);
        var v := Reached(ty, off + |EncMembers(t, ws, n - 1, off, Both(e), what)|, q, e, what);
        vs := ws + [v];
        SamePrefix(t, ws, vs, n - 1, off, Both(e), what);
      } else {
        var ws := ReachedMembers(t, n - 1, off, q, e, what);
        NothingProper(ty);
        vs := ws + [Nothing(ty)];
        SamePrefix(t, ws, vs, n - 1, off, Both(e), what);
      }
    }
  }

  lemma {:induction false} SamePrefix(
    t: Type, vs: seq<Value>, ws: seq<Value>, n: nat, off: nat, o: Orders, what: SampleOrKey)
    requires t.Struct? && n <= |t.members| && n <= |vs| && n <= |ws| && vs[..n] == ws[..n]
    ensures EncMembers(t, vs, n, off, o, what) == EncMembers(t, ws, n, off, o, what)
  {
    hide Enc;
    if n > 0 {
      assert vs[..n][..n - 1] == vs[..n - 1] && ws[..n][..n - 1] == ws[..n - 1];
      SamePrefix(t, vs, ws, n - 1, off, o, what);
      assert vs[n - 1] == vs[..n][n - 1] && ws[n - 1] == ws[..n][n - 1];
    }
  }

  lemma {:induction false} SameElemsPrefix(
    u: Type, vs: seq<Value>, ws: seq<Value>, n: nat, off: nat, o: Orders, what: SampleOrKey)
    requires n <= |vs| && n <= |ws| && vs[..n] == ws[..n]
    ensures EncElems(u, vs, n, off, o, what) == EncElems(u, ws, n, off, o, what)
  {
    hide Enc;
    if n > 0 {
      assert vs[..n][..n - 1] == vs[..n - 1] && ws[..n][..n - 1] == ws[..n - 1];
      SameElemsPrefix(u, vs, ws, n - 1, off, o, what);
      assert vs[n - 1] == vs[..n][n - 1] && ws[n - 1] == ws[..n][n - 1];
    }
  }

  lemma {:induction false} ReachedElems(u: Type, n: nat, off: nat, q: nat, e: Endian, what: SampleOrKey)
    returns (vs: seq<Value>)
    requires WellFormed(u) && q < MAX_ALIGN && ReachesElem(u, n, off % MAX_ALIGN, q, what)
    ensures |vs| == n && forall i :: 0 <= i < n ==> Proper(u, vs[i])
    ensures (off + |EncElems(u, vs, n, off, Both(e), what)|) % MAX_ALIGN == q
    decreases u, 2, n
  {
    hide Enc, Reaches, WellFormed, Proper;
    if n == 0 {
      vs := [];
    } else {
      var p: nat :| p < MAX_ALIGN && ReachesElem(u, n - 1, off % MAX_ALIGN, p, what) && Reaches(u, p, q, what);
      var ws := ReachedElems(u, n - 1, off, p, e, what);
      var v := Reached(u, off + |EncElems(u, ws, n - 1, off, Both(e), what)|, q, e, what);
      vs := ws + [v];
      SameElemsPrefix(u, ws, vs, n - 1, off, Both(e), what);
    }
  }

  lemma {:induction false} ReachedSequence(t: Type, off: nat, q: nat, e: Endian, what: SampleOrKey) returns (v: Value)
    requires t.Sequence? && WellFormed(t) && q < MAX_ALIGN && Reaches(t, off % MAX_ALIGN, q, what)
    ensures Proper(t, v) && (off + |Enc(t, v, off, Both(e), what)|) % MAX_ALIGN == q
    decreases t, 0, 0
  {
    hide EncElems, ReachesElem, Within, AfterWord, WellFormed, Proper, Pad, U32;
    WellFormedBelow(t);
    AfterWordIs(off);
    var n := WithinElem(t.elem, AfterWord(off % MAX_ALIGN), MAX_ALIGN, q, what);
    var vs := ReachedElems(t.elem, n, off + Pad(off, 4) + 4, q, e, what);
    ProperList(t, vs);
    v := VList(vs);
  }

  /** What is reached within `n` elements is reached by some number of them. */
  lemma {:induction false} WithinElem(u: Type, r: nat, n: nat, q: nat, what: SampleOrKey) returns (k: nat)
    requires q in Within(u, {r}, n, what) && r < MAX_ALIGN
    ensures k <= n && ReachesElem(u, k, r, q, what)
    decreases n
  {
    hide Reaches, Onward;
    if n == 0 {
      k := 0;
    } else if q in Within(u, {r}, n - 1, what) {
      k := WithinElem(u, r, n - 1, q, what);
    } else {
      WithinSmall(u, {r}, n - 1, what);
      var p := OnwardFrom(u, Within(u, {r}, n - 1, what), q, what);
      k := WithinElem(u, r, n - 1, p, what);
      OneMore(u, k, r, p, q, what);
      k := k + 1;
    }
  }

  lemma OnwardFrom(u: Type, s: set<nat>, q: nat, what: SampleOrKey) returns (p: nat)
    requires q in Onward(u, s, what)
    ensures p in s && q < MAX_ALIGN && Reaches(u, p, q, what)
  {
    hide Reaches;
    p :| p in s && Reaches(u, p, q, what);
  }

  lemma OneMore(u: Type, k: nat, r: nat, p: nat, q: nat, what: SampleOrKey)
    requires p < MAX_ALIGN && ReachesElem(u, k, r, p, what) && Reaches(u, p, q, what)
    ensures ReachesElem(u, k + 1, r, q, what)
  {
    hide Reaches;
  }

  // ---------------------------------------------------------------- leaking

  /** Two whole values with the same key of which something different comes out. */
  ghost predicate Leaks(t: Type, v: Value, w: Value, src: nat, dst: nat, e: Endian, what: SampleOrKey) {
    && Proper(t, v) && Proper(t, w)
    && Enc(t, v, dst, Both(e), Key) == Enc(t, w, dst, Both(e), Key)
    && Differ(Out(t, v, src, dst, e, what), Out(t, w, src, dst, e, what))
  }

  ghost predicate ElemsLeak(
    u: Type, vs: seq<Value>, ws: seq<Value>, n: nat, src: nat, dst: nat, e: Endian, what: SampleOrKey)
  {
    && |vs| == |ws| == n && (forall i :: 0 <= i < n ==> Proper(u, vs[i]) && Proper(u, ws[i]))
    && EncElems(u, vs, n, dst, Both(e), Key) == EncElems(u, ws, n, dst, Both(e), Key)
    && Differ(OutMany(u, vs, n, src, dst, e, what), OutMany(u, ws, n, src, dst, e, what))
  }

  /** Where the type is not safe, two values leak. */
  lemma {:induction false} Unsafe(t: Type, src: nat, dst: nat, e: Endian, what: SampleOrKey)
    returns (v: Value, w: Value)
    requires WellFormed(t) && !KeySafe(t, src % MAX_ALIGN, what) && InPlace(src, dst, what)
    ensures Leaks(t, v, w, src, dst, e, what)
    decreases t, 4, 0
  {
    hide ElemsSafe, WellFormed, Leaks, ElemsLeak, Within, Whole, NeverBulk, AfterWord, Pad, ReachesMember, Selected;
    WellFormedBelow(t);
    match t
    case Struct(ms, _) => v, w := UnsafeStruct(t, src, dst, e, what);
    case Array(u, n) =>
      var vs, ws := UnsafeElems(u, n, src, dst, e, what);
      v, w := VList(vs), VList(ws);
      ListLeaks(t, n, vs, ws, src, dst, e, what);
    case Sequence(u, _, _) =>
      AfterWordIs(src);
      var n := UnsafeCount(t, src % MAX_ALIGN, what);
      var vs, ws := UnsafeElems(u, n, src + Pad(src, 4) + 4, dst + Pad(dst, 4) + 4, e, what);
      v, w := VList(vs), VList(ws);
      ListLeaks(t, n, vs, ws, src, dst, e, what);
  }

  lemma ListLeaks(
    t: Type, n: nat, vs: seq<Value>, ws: seq<Value>, src: nat, dst: nat, e: Endian, what: SampleOrKey)
    requires (t.Array? && n == t.count) || (t.Sequence? && n <= UINT32_MAX)
    requires if t.Array? then ElemsLeak(t.elem, vs, ws, n, src, dst, e, what)
             else ElemsLeak(t.elem, vs, ws, n, src + Pad(src, 4) + 4, dst + Pad(dst, 4) + 4, e, what)
    ensures Leaks(t, VList(vs), VList(ws), src, dst, e, what)
  {
    hide Proper, OutMany, EncElems, Differ, Pad;
    ProperList(t, vs);
    ProperList(t, ws);
    if t.Sequence? {
      var p, x, y := EncU32(n, dst, e), src + Pad(src, 4) + 4, dst + Pad(dst, 4) + 4;
      DifferBehind(p, p, OutMany(t.elem, vs, n, x, y, e, what), OutMany(t.elem, ws, n, x, y, e, what));
    }
  }

  /** A number of elements for which a sequence is not safe. */
  lemma UnsafeCount(t: Type, r: nat, what: SampleOrKey) returns (n: nat)
    requires t.Sequence? && !KeySafe(t, r, what)
    ensures n <= MAX_ALIGN + 1 && !ElemsSafe(t.elem, n, AfterWord(r), what)
  {
    hide Reaches, ReachesElem, Within, Whole, NeverBulk, AfterWord;
    var u, x := t.elem, AfterWord(r);
    AfterWordSmall(r);
    if !NeverBulk(u, x, what) {
      n := 2;
    } else {
      var q :| q in Within(u, {x}, MAX_ALIGN, what) && !KeySafe(u, q, what);
      WithinSmall(u, {x}, MAX_ALIGN, what);
      var k := WithinElem(u, x, MAX_ALIGN, q, what);
      n := k + 1;
      assert !StartsSafe(u, n, x, what);
    }
  }

  // ---------------------------------------------------------------- leaking from a struct

  /** All members before `n` are safe where they may begin. */
  ghost predicate SafeBefore(t: Type, n: nat, r: nat, what: SampleOrKey)
    requires t.Struct? && n <= |t.members|
  {
    forall i: nat, q: nat | i < n && q < MAX_ALIGN && ReachesMember(t, i, r, q, what) && Selected(t, i, Key) ::
      KeySafe(t.members[i].ty, q, what)
  }

  /** The first member that is not safe somewhere. */
  lemma {:induction false} FirstUnsafe(t: Type, n: nat, r: nat, what: SampleOrKey) returns (i: nat, q: nat)
    requires t.Struct? && n <= |t.members| && !SafeBefore(t, n, r, what)
    ensures i < n && SafeBefore(t, i, r, what) && Selected(t, i, Key)
    ensures q < MAX_ALIGN && ReachesMember(t, i, r, q, what) && !KeySafe(t.members[i].ty, q, what)
    decreases n
  {
    hide KeySafe, ReachesMember, Selected;
    if !SafeBefore(t, n - 1, r, what) {
      i, q := FirstUnsafe(t, n - 1, r, what);
    } else {
      i := n - 1;
      q :| q < MAX_ALIGN && ReachesMember(t, i, r, q, what) && !KeySafe(t.members[i].ty, q, what);
    }
  }

  lemma {:induction false} UnsafeStruct(t: Type, src: nat, dst: nat, e: Endian, what: SampleOrKey)
    returns (v: Value, w: Value)
    requires t.Struct? && WellFormed(t) && !KeySafe(t, src % MAX_ALIGN, what) && InPlace(src, dst, what)
    ensures Leaks(t, v, w, src, dst, e, what)
    decreases t, 0, 0
  {
    hide WellFormed, Leaks, Proper, Selected, ReachesMember, Enc, Out, EncMembers;
    assert !SafeBefore(t, |t.members|, src % MAX_ALIGN, what);
    var i, q := FirstUnsafe(t, |t.members|, src % MAX_ALIGN, what);
    WellFormedBelow(t);
    var ps := ReachedMembers(t, i, src, q, e, what);
    var x := src + |EncMembers(t, ps, i, src, Both(e), what)|;
    var y := dst + |EncMembers(t, ps, i, dst, Both(e), Key)|;
    var a, b := Unsafe(t.members[i].ty, x, y, e, what);
    v, w := Around(t, ps, a), Around(t, ps, b);
    StructLeaks(t, i, ps, a, b, src, dst, e, what);
  }

  /** The members `ps`, the member `a`, and nothing in the members behind it. */
  function Around(t: Type, ps: seq<Value>, a: Value): Value
    requires t.Struct? && |ps| < |t.members|
  {
    VStruct(seq(|t.members|, j requires 0 <= j < |t.members| =>
      if j < |ps| then ps[j] else if j == |ps| then a else Nothing(t.members[j].ty)))
  }

  lemma StructLeaks(
    t: Type, i: nat, ps: seq<Value>, a: Value, b: Value, src: nat, dst: nat, e: Endian, what: SampleOrKey)
    requires t.Struct? && WellFormed(t) && i < |t.members| && Selected(t, i, Key) && |ps| == i
    requires SafeBefore(t, i, src % MAX_ALIGN, what) && forall j :: 0 <= j < i ==> Proper(t.members[j].ty, ps[j])
    requires InPlace(src, dst, what)
    requires Leaks(t.members[i].ty, a, b, src + |EncMembers(t, ps, i, src, Both(e), what)|,
               dst + |EncMembers(t, ps, i, dst, Both(e), Key)|, e, what)
    ensures Leaks(t, Around(t, ps, a), Around(t, ps, b), src, dst, e, what)
  {
    hide WellFormed, Proper, Selected, ReachesMember, Enc, Out, EncMembers, OutMembers, Differ, KeySafe, SafeBefore,
      ValueOf;
    var n := |t.members|;
    var vs, ws := Around(t, ps, a).fields, Around(t, ps, b).fields;
    ProperAround(t, ps, a);
    ProperAround(t, ps, b);
    assert vs[..i] == ps[..i] && ws[..i] == ps[..i];
    MemberLeaks(t, ps, vs, i, src, dst, e, what);
    MemberLeaks(t, ps, ws, i, src, dst, e, what);
    var p := EncMembers(t, ps, i, dst, Both(e), Key);
    var ty, x, y := t.members[i].ty, src + |EncMembers(t, ps, i, src, Both(e), what)|, dst + |p|;
    DifferBehind(p, p, Out(ty, a, x, y, e, what), Out(ty, b, x, y, e, what));
    DifferLonger(p + Out(ty, a, x, y, e, what), p + Out(ty, b, x, y, e, what),
      OutMembers(t, vs, n, src, dst, e, what), OutMembers(t, ws, n, src, dst, e, what));
    SamePrefix(t, ps, vs, i, dst, Both(e), Key);
    SameKeyMembers(t, vs, ws, i, n, dst, e);
    StructOut(t, vs, src, dst, e, what);
    StructOut(t, ws, src, dst, e, what);
  }

  lemma ProperAround(t: Type, ps: seq<Value>, a: Value)
    requires t.Struct? && WellFormed(t) && |ps| < |t.members| && Proper(t.members[|ps|].ty, a)
    requires forall j :: 0 <= j < |ps| ==> Proper(t.members[j].ty, ps[j])
    ensures Proper(t, Around(t, ps, a))
    ensures forall j :: 0 <= j < |t.members| ==> Proper(t.members[j].ty, Around(t, ps, a).fields[j])
  {
    hide WellFormed, Proper, ValueOf;
    WellFormedBelow(t);
    var vs := Around(t, ps, a).fields;
    forall j | 0 <= j < |t.members|
      ensures Proper(t.members[j].ty, vs[j])
    {
      NothingProper(t.members[j].ty);
    }
    ProperStruct(t, vs);
  }

  lemma StructOut(t: Type, vs: seq<Value>, src: nat, dst: nat, e: Endian, what: SampleOrKey)
    requires t.Struct?
    ensures Out(t, VStruct(vs), src, dst, e, what) == OutMembers(t, vs, |t.members|, src, dst, e, what)
    ensures Enc(t, VStruct(vs), dst, Both(e), Key) == EncMembers(t, vs, |t.members|, dst, Both(e), Key)
  {
  }

  /** What comes out of a struct begins with the plain encoding of the safe members and then member `i`. */
  lemma MemberLeaks(
    t: Type, ps: seq<Value>, vs: seq<Value>, i: nat, src: nat, dst: nat, e: Endian, what: SampleOrKey)
    requires t.Struct? && WellFormed(t) && i < |t.members| == |vs| && Selected(t, i, Key)
    requires |ps| == i && vs[..i] == ps[..i] && InPlace(src, dst, what)
    requires SafeBefore(t, i, src % MAX_ALIGN, what) && forall j :: 0 <= j < i ==> Proper(t.members[j].ty, vs[j])
    ensures var p := EncMembers(t, ps, i, dst, Both(e), Key);
            p + Out(t.members[i].ty, vs[i], src + |EncMembers(t, ps, i, src, Both(e), what)|, dst + |p|, e, what)
            <= OutMembers(t, vs, |t.members|, src, dst, e, what)
  {
    hide WellFormed, Proper, Selected, Enc, Out, EncMembers, SafeBefore;
    MembersOutPlain(t, vs, i, src, dst, e, what);
    SamePrefix(t, ps, vs, i, src, Both(e), what);
    SamePrefix(t, ps, vs, i, dst, Both(e), Key);
    OutMembersGrow(t, vs, i + 1, |t.members|, src, dst, e, what);
  }

  lemma {:induction false} MembersOutPlain(
    t: Type, vs: seq<Value>, n: nat, src: nat, dst: nat, e: Endian, what: SampleOrKey)
    requires t.Struct? && WellFormed(t) && n <= |t.members| && n <= |vs| && InPlace(src, dst, what)
    requires SafeBefore(t, n, src % MAX_ALIGN, what) && forall j :: 0 <= j < n ==> Proper(t.members[j].ty, vs[j])
    ensures OutMembers(t, vs, n, src, dst, e, what) == EncMembers(t, vs, n, dst, Both(e), Key)
    decreases n
  {
    hide WellFormed, Selected, ReachesMember, Enc, Out, KeySafe, HasType, Cut;
    if n > 0 {
      MembersOutPlain(t, vs, n - 1, src, dst, e, what);
      if Selected(t, n - 1, Key) {
        WellFormedBelow(t);
        forall j | 0 <= j < n - 1 && Selected(t, j, what)
          ensures Shaped(t.members[j].ty, vs[j], what)
        {
          ProperShaped(t.members[j].ty, vs[j], what);
        }
        EncReachesMember(t, vs, n - 1, src, Both(e), what);
        OutIsPlain(t.members[n - 1].ty, vs[n - 1], src + |EncMembers(t, vs, n - 1, src, Both(e), what)|,
          dst + |EncMembers(t, vs, n - 1, dst, Both(e), Key)|, e, what);
      }
    }
  }

  lemma ProperShaped(t: Type, v: Value, what: SampleOrKey)
    requires Proper(t, v)
    ensures Shaped(t, v, what)
  {
    hide HasType, Cut, Shaped;
    if what.Key? {
      SampleTypedKey(t, v);
    }
    TypedShaped(t, v, what);
  }

  /** A whole value has a key. */
  lemma {:induction false} SampleTypedKey(t: Type, v: Value)
    requires HasType(v, t, Sample)
    ensures HasType(v, t, Key)
    decreases t
  {
    match t
    case Struct(ms, _) =>
      forall i | 0 <= i < |ms| && Selected(t, i, Key)
        ensures HasType(v.fields[i], ms[i].ty, Key)
      {
        assert Selected(t, i, Sample);
        SampleTypedKey(ms[i].ty, v.fields[i]);
      }
    case Array(e, n) => forall i | 0 <= i < n ensures HasType(v.elems[i], e, Key) { SampleTypedKey(e, v.elems[i]); }
    case Sequence(e, _, _) =>
      forall i | 0 <= i < |v.elems| ensures HasType(v.elems[i], e, Key) { SampleTypedKey(e, v.elems[i]); }
    case _ =>
  }

  lemma {:induction false} OutMembersGrow(
    t: Type, vs: seq<Value>, k: nat, n: nat, src: nat, dst: nat, e: Endian, what: SampleOrKey)
    requires t.Struct? && k <= n <= |t.members|
    ensures OutMembers(t, vs, k, src, dst, e, what) <= OutMembers(t, vs, n, src, dst, e, what)
    decreases n
  {
    hide Out, EncMembers;
    if k < n {
      OutMembersGrow(t, vs, k, n - 1, src, dst, e, what);
    }
  }

  /** Structs that differ in member `i` only, and there not in the key, have the same key. */
  lemma {:induction false} SameKeyMembers(t: Type, vs: seq<Value>, ws: seq<Value>, i: nat, n: nat, off: nat, e: Endian)
    requires t.Struct? && i < n <= |t.members| == |vs| == |ws|
    requires forall j :: 0 <= j < |vs| && j != i ==> vs[j] == ws[j]
    requires var x := off + |EncMembers(t, vs, i, off, Both(e), Key)|;
             Enc(t.members[i].ty, vs[i], x, Both(e), Key) == Enc(t.members[i].ty, ws[i], x, Both(e), Key)
    ensures EncMembers(t, vs, n, off, Both(e), Key) == EncMembers(t, ws, n, off, Both(e), Key)
    decreases n
  {
    hide Enc;
    if n == i + 1 {
      assert vs[..i] == ws[..i];
      SamePrefix(t, vs, ws, i, off, Both(e), Key);
    } else {
      SameKeyMembers(t, vs, ws, i, n - 1, off, e);
    }
  }

  // ---------------------------------------------------------------- leaking from consecutive elements

  lemma {:induction false} UnsafeElems(u: Type, n: nat, src: nat, dst: nat, e: Endian, what: SampleOrKey)
    returns (vs: seq<Value>, ws: seq<Value>)
    requires WellFormed(u) && !ElemsSafe(u, n, src % MAX_ALIGN, what) && InPlace(src, dst, what)
    ensures ElemsLeak(u, vs, ws, n, src, dst, e, what)
    decreases u, 5, 0
  {
    hide WellFormed, Whole, NeverBulk, KeySafe, ReachesElem, StartsSafe, ElemsLeak;
    var r := src % MAX_ALIGN;
    if !StartsSafe(u, n, r, what) {
      var i, q := FirstUnsafeElem(u, n, r, what);
      if i == 0 || !(n >= 2 && !NeverBulk(u, r, what)) {
        vs, ws := UnsafeElem(u, n, i, q, src, dst, e, what);
        return;
      }
      FirstSafe(u, i, r, what);
    } else {
      FirstSafe(u, n, r, what);
    }
    vs, ws := BulkLeaks(u, n, src, dst, e, what);
  }

  /** The first element that is not safe somewhere. */
  lemma {:induction false} FirstUnsafeElem(u: Type, n: nat, r: nat, what: SampleOrKey) returns (i: nat, q: nat)
    requires !StartsSafe(u, n, r, what)
    ensures i < n && StartsSafe(u, i, r, what)
    ensures q < MAX_ALIGN && ReachesElem(u, i, r, q, what) && !KeySafe(u, q, what)
    decreases n
  {
    hide KeySafe, ReachesElem;
    if n > 0 && !StartsSafe(u, n - 1, r, what) {
      i, q := FirstUnsafeElem(u, n - 1, r, what);
    } else {
      i := n - 1;
      q :| q < MAX_ALIGN && ReachesElem(u, i, r, q, what) && !KeySafe(u, q, what);
    }
  }

  /** The bulk copy itself leaks. */
  lemma BulkLeaks(u: Type, n: nat, src: nat, dst: nat, e: Endian, what: SampleOrKey)
    returns (vs: seq<Value>, ws: seq<Value>)
    requires WellFormed(u) && KeySafe(u, src % MAX_ALIGN, what) && InPlace(src, dst, what)
    requires n >= 2 && !Whole(u) && !NeverBulk(u, src % MAX_ALIGN, what)
    ensures ElemsLeak(u, vs, ws, n, src, dst, e, what)
  {
    hide WellFormed, Whole, KeySafe, ValueElems, EncElems, OutMany, Differ, Proper, Triv, NeverBulk, Read, Extent,
      Out, Enc;
    var q := BulkTaken(u, src, e, what);
    var m := BulkByte(u, q % MAX_ALIGN, n, e);
    vs, ws := ValueElems(u, EMPTY_MEM, 0, n, e, Sample), ValueElems(u, m, 0, n, e, Sample);
    SampleKeyEncElems(u, EMPTY_MEM, 0, n, n, e, dst, Both(e));
    SampleKeyEncElems(u, m, 0, n, n, e, dst, Both(e));
    FlatProper(u, q, EMPTY_MEM, n, e);
    FlatProper(u, q, m, n, e);
    OutInBulk(u, q, EMPTY_MEM, n, src, dst, e, what);
    OutInBulk(u, q, m, n, src, dst, e, what);
    SameFirst(u, EMPTY_MEM, m, n, dst, e);
    var a, b := Read(EMPTY_MEM, 0 + SizeOf(u), Extent(u, n - 1)), Read(m, 0 + SizeOf(u), Extent(u, n - 1));
    DifferBehind(Enc(u, vs[0], dst, Both(e), Key), Enc(u, ws[0], dst, Both(e), Key), a, b);
  }

  /** The first elements of two memories with the same keys have the same key. */
  lemma SameFirst(u: Type, m: Mem, m': Mem, n: nat, dst: nat, e: Endian)
    requires n > 0 && ValueElems(u, m, 0, n, e, Key) == ValueElems(u, m', 0, n, e, Key)
    ensures Enc(u, ValueElems(u, m, 0, n, e, Sample)[0], dst, Both(e), Key)
            == Enc(u, ValueElems(u, m', 0, n, e, Sample)[0], dst, Both(e), Key)
  {
    hide ValueOf, ValueElems, Enc, Extent;
    ValueElemAt(u, m, 0, n, e, Sample, 0);
    ValueElemAt(u, m', 0, n, e, Sample, 0);
    ValueElemAt(u, m, 0, n, e, Key, 0);
    ValueElemAt(u, m', 0, n, e, Key, 0);
    SampleKeyEnc(u, m, 0 + Extent(u, 0), e, dst, Both(e));
    SampleKeyEnc(u, m', 0 + Extent(u, 0), e, dst, Both(e));
  }

  /** A residue at which the first element may end and the bulk copy is taken; elements always end there. */
  lemma BulkTaken(u: Type, src: nat, e: Endian, what: SampleOrKey) returns (q: nat)
    requires WellFormed(u) && !NeverBulk(u, src % MAX_ALIGN, what)
    ensures ManyTriv(u, q)
    ensures forall v: Value | HasType(v, u, what) :: (src + |Enc(u, v, src, Both(e), what)|) % MAX_ALIGN == q
  {
    hide WellFormed, Reaches, Enc, End, HasType, Cut, Triv;
    q :| q < MAX_ALIGN && Reaches(u, src % MAX_ALIGN, q, what) && ManyTriv(u, q);
    var w := Reached(u, src, q, e, what);
    if what.Key? {
      SampleTypedKey(u, w);
    }
    FlatEnd(u, q % MAX_ALIGN, w, src, Both(e), what);
    forall v: Value | HasType(v, u, what)
      ensures (src + |Enc(u, v, src, Both(e), what)|) % MAX_ALIGN == q
    {
      FlatEnd(u, q % MAX_ALIGN, v, src, Both(e), what);
    }
  }

  /** What comes out when the bulk copy is taken: the key of the first element, and all bytes of the others. */
  lemma OutInBulk(u: Type, q: nat, m: Mem, n: nat, src: nat, dst: nat, e: Endian, what: SampleOrKey)
    requires WellFormed(u) && KeySafe(u, src % MAX_ALIGN, what) && InPlace(src, dst, what) && n >= 2
    requires ManyTriv(u, q)
    requires forall v: Value | HasType(v, u, what) :: (src + |Enc(u, v, src, Both(e), what)|) % MAX_ALIGN == q
    requires forall i :: 0 <= i < n ==> Proper(u, ValueElems(u, m, 0, n, e, Sample)[i])
    ensures var vs := ValueElems(u, m, 0, n, e, Sample);
            OutMany(u, vs, n, src, dst, e, what)
            == Enc(u, vs[0], dst, Both(e), Key) + Read(m, 0 + SizeOf(u), Extent(u, n - 1))
  {
    hide WellFormed, KeySafe, ValueElems, EncElems, Out, OutElems, HasType, Cut, Triv, Enc, Read, Extent;
    var vs := ValueElems(u, m, 0, n, e, Sample);
    var v := vs[0];
    OutIsPlain(u, v, src, dst, e, what);
    if what.Key? {
      SampleTypedKey(u, v);
    }
    var x := src + |Enc(u, v, src, Both(e), what)|;
    assert x % MAX_ALIGN == q;
    SameManyTriv(u, x, q);
    assert Ahead(src, Out(u, v, src, dst, e, what), Enc(u, v, src, Both(e), Sample), what) == x;
    ImageBehind(u, m, 0, n, x, e);
  }

  lemma SameManyTriv(u: Type, x: nat, q: nat)
    requires x % MAX_ALIGN == q
    ensures ManyTriv(u, x) <==> ManyTriv(u, q)
  {
    hide Triv;
  }

  /** Elements of fixed layout are whole values in any memory. */
  lemma FlatProper(u: Type, q: nat, m: Mem, n: nat, e: Endian)
    requires ManyTriv(u, q)
    ensures forall i :: 0 <= i < n ==> Proper(u, ValueElems(u, m, 0, n, e, Sample)[i])
  {
    hide ValueOf, ValueElems, HasType, Cut, Triv, Extent;
    forall i: nat | i < n
      ensures Proper(u, ValueElems(u, m, 0, n, e, Sample)[i])
    {
      ValueElemAt(u, m, 0, n, e, Sample, i);
      FlatTyped(u, q % MAX_ALIGN, m, 0 + Extent(u, i), e, Sample);
      CutValueOf(u, m, 0 + Extent(u, i), e, Sample, true);
    }
  }

  /** An element that is not safe where it may begin leaks, if the bulk copy is not taken before it. */
  lemma {:induction false} UnsafeElem(
    u: Type, n: nat, i: nat, q: nat, src: nat, dst: nat, e: Endian, what: SampleOrKey)
    returns (vs: seq<Value>, ws: seq<Value>)
    requires WellFormed(u) && i < n && StartsSafe(u, i, src % MAX_ALIGN, what) && InPlace(src, dst, what)
    requires q < MAX_ALIGN && ReachesElem(u, i, src % MAX_ALIGN, q, what) && !KeySafe(u, q, what)
    requires i == 0 || NeverBulk(u, src % MAX_ALIGN, what)
    ensures ElemsLeak(u, vs, ws, n, src, dst, e, what)
    decreases u, 4, 1
  {
    hide WellFormed, Leaks, Proper, KeySafe, StartsSafe, NeverBulk, ReachesElem, EncElems, ElemsLeak;
    var ps := ReachedElems(u, i, src, q, e, what);
    var x := src + |EncElems(u, ps, i, src, Both(e), what)|;
    var y := dst + |EncElems(u, ps, i, dst, Both(e), Key)|;
    var a, b := Unsafe(u, x, y, e, what);
    vs, ws := AroundElem(u, n, ps, a), AroundElem(u, n, ps, b);
    ListElemLeaks(u, n, ps, a, b, src, dst, e, what);
  }

  function AroundElem(u: Type, n: nat, ps: seq<Value>, a: Value): (r: seq<Value>)
    ensures |r| == n
  {
    seq(n, j requires 0 <= j < n => if j < |ps| then ps[j] else if j == |ps| then a else Nothing(u))
  }

  lemma ListElemLeaks(
    u: Type, n: nat, ps: seq<Value>, a: Value, b: Value, src: nat, dst: nat, e: Endian, what: SampleOrKey)
    requires WellFormed(u) && |ps| < n && (forall j :: 0 <= j < |ps| ==> Proper(u, ps[j])) && InPlace(src, dst, what)
    requires StartsSafe(u, |ps|, src % MAX_ALIGN, what) && (|ps| == 0 || NeverBulk(u, src % MAX_ALIGN, what))
    requires Leaks(u, a, b, src + |EncElems(u, ps, |ps|, src, Both(e), what)|,
               dst + |EncElems(u, ps, |ps|, dst, Both(e), Key)|, e, what)
    ensures ElemsLeak(u, AroundElem(u, n, ps, a), AroundElem(u, n, ps, b), n, src, dst, e, what)
  {
    hide WellFormed, Proper, Enc, Out, EncElems, OutMany, Differ, KeySafe, StartsSafe, NeverBulk, ValueOf;
    var i := |ps|;
    var vs, ws := AroundElem(u, n, ps, a), AroundElem(u, n, ps, b);
    NothingProper(u);
    assert vs[..i] == ps[..i] && ws[..i] == ps[..i];
    ElemLeaks(u, ps, vs, n, i, src, dst, e, what);
    ElemLeaks(u, ps, ws, n, i, src, dst, e, what);
    var p := EncElems(u, ps, i, dst, Both(e), Key);
    var x, y := src + |EncElems(u, ps, i, src, Both(e), what)|, dst + |p|;
    DifferBehind(p, p, Out(u, a, x, y, e, what), Out(u, b, x, y, e, what));
    DifferLonger(p + Out(u, a, x, y, e, what), p + Out(u, b, x, y, e, what),
      OutMany(u, vs, n, src, dst, e, what), OutMany(u, ws, n, src, dst, e, what));
    SameElemsPrefix(u, ps, vs, i, dst, Both(e), Key);
    SameKeyElems(u, vs, ws, i, n, dst, e);
  }

  /** What comes out of elements begins with the plain encoding of the safe ones and then element `i`. */
  lemma ElemLeaks(
    u: Type, ps: seq<Value>, vs: seq<Value>, n: nat, i: nat, src: nat, dst: nat, e: Endian, what: SampleOrKey)
    requires WellFormed(u) && i < n == |vs| && (forall j :: 0 <= j < i ==> Proper(u, vs[j])) && InPlace(src, dst, what)
    requires |ps| == i && vs[..i] == ps[..i]
    requires StartsSafe(u, i, src % MAX_ALIGN, what) && (i == 0 || NeverBulk(u, src % MAX_ALIGN, what))
    ensures var p := EncElems(u, ps, i, dst, Both(e), Key);
            p + Out(u, vs[i], src + |EncElems(u, ps, i, src, Both(e), what)|, dst + |p|, e, what)
            <= OutMany(u, vs, n, src, dst, e, what)
  {
    hide WellFormed, Proper, Enc, EncElems, Out, OutElems, OutMany, KeySafe, StartsSafe, NeverBulk;
    SameElemsPrefix(u, ps, vs, i, src, Both(e), what);
    SameElemsPrefix(u, ps, vs, i, dst, Both(e), Key);
    if i == 0 {
      FirstOut(u, vs, n, src, dst, e, what);
    } else {
      NotInBulk(u, vs, n, i, src, dst, e, what);
      ElemsOutPlain(u, vs, i, src, dst, e, what);
      OutElemsGrow(u, vs, i + 1, n, src, dst, e, what);
      OutElemsStep(u, vs, i, src, dst, e, what);
    }
  }

  lemma FirstOut(u: Type, vs: seq<Value>, n: nat, src: nat, dst: nat, e: Endian, what: SampleOrKey)
    requires 0 < n == |vs|
    ensures var p := EncElems(u, vs, 0, dst, Both(e), Key);
            p + Out(u, vs[0], src + |EncElems(u, vs, 0, src, Both(e), what)|, dst + |p|, e, what)
            <= OutMany(u, vs, n, src, dst, e, what)
  {
    hide Enc, Out, OutElems, ManyTriv;
    OutElemsFirst(u, vs, n, src, dst, e, what);
    assert EncElems(u, vs, 0, dst, Both(e), Key) == [] && EncElems(u, vs, 0, src, Both(e), what) == [];
    assert [] + Out(u, vs[0], src, dst, e, what) == Out(u, vs[0], src, dst, e, what);
  }

  lemma NotInBulk(u: Type, vs: seq<Value>, n: nat, i: nat, src: nat, dst: nat, e: Endian, what: SampleOrKey)
    requires WellFormed(u) && 0 < i < n == |vs| && Proper(u, vs[0]) && InPlace(src, dst, what)
    requires StartsSafe(u, i, src % MAX_ALIGN, what) && NeverBulk(u, src % MAX_ALIGN, what)
    ensures OutMany(u, vs, n, src, dst, e, what) == OutElems(u, vs, n, src, dst, e, what)
  {
    hide WellFormed, Proper, Enc, Out, OutElems, EncElems, KeySafe, StartsSafe, NeverBulk, ManyTriv;
    FirstSafe(u, i, src % MAX_ALIGN, what);
    OutIsPlain(u, vs[0], src, dst, e, what);
    ProperShaped(u, vs[0], what);
    NotTaken(u, src, vs[0], Both(e), what);
  }

  lemma OutElemsStep(u: Type, vs: seq<Value>, i: nat, src: nat, dst: nat, e: Endian, what: SampleOrKey)
    requires i < |vs|
    ensures var p := OutElems(u, vs, i, src, dst, e, what);
            var x := Ahead(src, p, EncElems(u, vs, i, src, Both(e), Sample), what);
            OutElems(u, vs, i + 1, src, dst, e, what) == p + Out(u, vs[i], x, dst + |p|, e, what)
  {
    hide Out, Enc;
  }

  lemma {:induction false} OutElemsFirst(
    u: Type, vs: seq<Value>, n: nat, src: nat, dst: nat, e: Endian, what: SampleOrKey)
    requires 0 < n <= |vs|
    ensures Out(u, vs[0], src, dst, e, what) <= OutElems(u, vs, n, src, dst, e, what)
    decreases n
  {
    hide Out, Enc;
    if n > 1 {
      OutElemsFirst(u, vs, n - 1, src, dst, e, what);
    } else {
      assert OutElems(u, vs, 0, src, dst, e, what) == [];
      assert EncElems(u, vs, 0, src, Both(e), Sample) == [];
    }
  }

  lemma {:induction false} OutElemsGrow(
    u: Type, vs: seq<Value>, k: nat, n: nat, src: nat, dst: nat, e: Endian, what: SampleOrKey)
    requires k <= n
    ensures OutElems(u, vs, k, src, dst, e, what) <= OutElems(u, vs, n, src, dst, e, what)
    decreases n
  {
    hide Out, EncElems;
    if k < n {
      OutElemsGrow(u, vs, k, n - 1, src, dst, e, what);
    }
  }

  lemma {:induction false} ElemsOutPlain(
    u: Type, vs: seq<Value>, n: nat, src: nat, dst: nat, e: Endian, what: SampleOrKey)
    requires WellFormed(u) && n <= |vs| && (forall j :: 0 <= j < n ==> Proper(u, vs[j])) && InPlace(src, dst, what)
    requires StartsSafe(u, n, src % MAX_ALIGN, what)
    ensures OutElems(u, vs, n, src, dst, e, what) == EncElems(u, vs, n, dst, Both(e), Key)
    decreases n
  {
    hide WellFormed, ReachesElem, Enc, Out, KeySafe, Proper, Shaped;
    if n > 0 {
      FewerSafe(u, n, n - 1, src % MAX_ALIGN, what);
      ElemsOutPlain(u, vs, n - 1, src, dst, e, what);
      forall j | 0 <= j < n - 1 ensures Shaped(u, vs[j], what) { ProperShaped(u, vs[j], what); }
      EncReachesElem(u, vs, n - 1, src, Both(e), what);
      OutIsPlain(u, vs[n - 1], src + |EncElems(u, vs, n - 1, src, Both(e), what)|,
        dst + |EncElems(u, vs, n - 1, dst, Both(e), Key)|, e, what);
    }
  }

  lemma {:induction false} SameKeyElems(u: Type, vs: seq<Value>, ws: seq<Value>, i: nat, n: nat, off: nat, e: Endian)
    requires i < n <= |vs| == |ws| && forall j :: 0 <= j < |vs| && j != i ==> vs[j] == ws[j]
    requires var x := off + |EncElems(u, vs, i, off, Both(e), Key)|;
             Enc(u, vs[i], x, Both(e), Key) == Enc(u, ws[i], x, Both(e), Key)
    ensures EncElems(u, vs, n, off, Both(e), Key) == EncElems(u, ws, n, off, Both(e), Key)
    decreases n
  {
    hide Enc;
    if n == i + 1 {
      assert vs[..i] == ws[..i];
      SameElemsPrefix(u, vs, ws, i, off, Both(e), Key);
    } else {
      SameKeyElems(u, vs, ws, i, n - 1, off, e);
    }
  }

  // ---------------------------------------------------------------- the exact conditions

  ghost predicate KeyIsPlain(t: Type, m: Mem, a: int, off: nat, native: Endian) {
    Coded(t, m, a, off, native, Key) == Enc(t, ValueOf(t, m, a, native, Key), off, Both(native), Key)
  }

  /**
   The writer emits the plain encoding of the key of every object of a type, wherever it lies, if and only if
   the type says that the key walk is safe at the offset where it begins.
   */
  lemma KeyCodingExact(t: Type, off: nat, native: Endian)
    requires WellFormed(t)
    ensures (forall m: Mem, a: int :: KeyIsPlain(t, m, a, off, native)) <==> KeySafe(t, off % MAX_ALIGN, Key)
  {
    hide Coded, Enc, ValueOf, KeySafe, WellFormed;
    if KeySafe(t, off % MAX_ALIGN, Key) {
      forall m: Mem, a: int
        ensures KeyIsPlain(t, m, a, off, native)
      {
        CodedIsPlain(t, m, a, off, native, Key);
      }
    } else {
      var m, m' := UnsafeMemory(t, off, native);
      if KeyIsPlain(t, m, 0, off, native) && KeyIsPlain(t, m', 0, off, native) {
        NotDifferent(Coded(t, m, 0, off, native, Key));
      }
    }
  }

  /** Two objects with the same encoded key of which different keys are written. */
  lemma UnsafeMemory(t: Type, off: nat, native: Endian) returns (m: Mem, m': Mem)
    requires WellFormed(t) && !KeySafe(t, off % MAX_ALIGN, Key)
    ensures Enc(t, ValueOf(t, m, 0, native, Key), off, Both(native), Key)
            == Enc(t, ValueOf(t, m', 0, native, Key), off, Both(native), Key)
    ensures Differ(Coded(t, m, 0, off, native, Key), Coded(t, m', 0, off, native, Key))
  {
    hide Coded, Enc, Out, ValueOf, Store, KeySafe, Proper, WellFormed, Differ;
    var v, w := Unsafe(t, off, off, native, Key);
    m, m' := Store(t, EMPTY_MEM, 0, v, native, Sample), Store(t, EMPTY_MEM, 0, w, native, Sample);
    ProperInMemory(t, v, native);
    ProperInMemory(t, w, native);
    CodedIsOut(t, m, 0, off, native);
    CodedIsOut(t, m', 0, off, native);
    SampleKeyEnc(t, m, 0, native, off, Both(native));
    SampleKeyEnc(t, m', 0, native, off, Both(native));
  }

  /** The key extracted from a serialized sample, byte orders being equal, is the key of the object written. */
  ghost predicate ExtractedRight(root: Type, src: Source, native: Endian, tail: seq<Byte>)
    requires root.Struct?
  {
    ExtractStream(root, Plain, Stream(root, Plain, src, native, Sample) + tail, native, false, Sample)
    == Some(EncodingHeader(native) + Enc(root, ValueOf(root, src.mem, src.addr, native, Key), 0, Both(native), Key))
  }

  /**
   Between machines of one byte order the key extracted from a serialized sample is the key of the object,
   whatever the object, if and only if the type says that a key walk over its samples is safe.
   */
  lemma ExtractionExact(root: Type, native: Endian)
    requires root.Struct? && WellFormed(root) && HasKeys(root)
    ensures (forall src: Source, tail: seq<Byte> | Sendable(root, src, native, Sample) ::
               ExtractedRight(root, src, native, tail))
            <==> KeySafe(root, 0, Sample)
  {
    hide ExtractedRight, Sendable, KeySafe, WellFormed, HasKeys, ExtractStream, Stream, Enc, ValueOf;
    if KeySafe(root, 0, Sample) {
      forall src: Source, tail: seq<Byte> | Sendable(root, src, native, Sample)
        ensures ExtractedRight(root, src, native, tail)
      {
        SafeSource(root, src, native, tail);
      }
    } else {
      var src, src' := UnsafeSources(root, native);
      assert !(ExtractedRight(root, src, native, []) && ExtractedRight(root, src', native, []));
    }
  }

  lemma SafeSource(root: Type, src: Source, native: Endian, tail: seq<Byte>)
    requires root.Struct? && WellFormed(root) && HasKeys(root) && KeySafe(root, 0, Sample)
    requires Sendable(root, src, native, Sample)
    ensures ExtractedRight(root, src, native, tail)
  {
    hide ExtractStream, Stream, Enc, ValueOf, Sendable, WellFormed, HasKeys, KeySafe;
    KeyOfStream(root, src, native, native, false, Sample, tail);
  }

  /** Two objects with the same key from whose samples different keys are extracted. */
  lemma UnsafeSources(root: Type, native: Endian) returns (src: Source, src': Source)
    requires root.Struct? && WellFormed(root) && HasKeys(root) && !KeySafe(root, 0, Sample)
    ensures Sendable(root, src, native, Sample) && Sendable(root, src', native, Sample)
    ensures !(ExtractedRight(root, src, native, []) && ExtractedRight(root, src', native, []))
  {
    hide ExtractStream, Stream, Enc, ValueOf, Store, KeySafe, WellFormed, HasKeys, Out, Differ, HasType, Cut;
    var v, w := Unsafe(root, 0, 0, native, Sample);
    src := Source(Zeros(8), Zeros(8), Store(root, EMPTY_MEM, 0, v, native, Sample), 0);
    src' := Source(Zeros(8), Zeros(8), Store(root, EMPTY_MEM, 0, w, native, Sample), 0);
    ProperInMemory(root, v, native);
    ProperInMemory(root, w, native);
    SampleExtracted(root, v, src, native);
    SampleExtracted(root, w, src', native);
    SampleKeyEnc(root, src.mem, 0, native, 0, Both(native));
    SampleKeyEnc(root, src'.mem, 0, native, 0, Both(native));
    var h := EncodingHeader(native);
    if ExtractedRight(root, src, native, []) && ExtractedRight(root, src', native, []) {
      ConcatEqual(h, Out(root, v, 0, 0, native, Sample), h, Out(root, w, 0, 0, native, Sample));
      NotDifferent(Out(root, v, 0, 0, native, Sample));
    }
  }

  /** What is extracted from the sample of an object that holds `v`. */
  lemma SampleExtracted(root: Type, v: Value, src: Source, native: Endian)
    requires root.Struct? && WellFormed(root) && HasKeys(root) && Proper(root, v) && ValidSource(src)
    requires ValueOf(root, src.mem, src.addr, native, Sample) == v
    ensures ExtractStream(root, Plain, Stream(root, Plain, src, native, Sample) + [], native, false, Sample)
            == Some(EncodingHeader(native) + Out(root, v, 0, 0, native, Sample))
  {
    hide Stream, Enc, ValueOf, WellFormed, HasKeys, Out, Extract, HasType, Cut, Coded, KeySafe, At;
    var cdr := Stream(root, Plain, src, native, Sample);
    assert cdr + [] == cdr;
    StreamParts(root, Plain, src, native, Sample);
    CodedIsPlain(root, src.mem, src.addr, 0, native, Sample);
    ProperUncut(root, v);
    ExtractIsOut(root, v, cdr[4..], 0, 0, native);
  }
}
