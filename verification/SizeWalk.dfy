/**
 The walk over a type that bounds serialized sizes, in exact arithmetic: where the stream stands after
 the smallest or largest value of a type. Repeated elements are measured once and multiplied.
 */
module SizeWalk {
  import opened Bytes
  import opened Types

  datatype MinOrMax = Min | Max

  /**
   After two measured elements, `n - 2 + extra` more are added for `n` elements in all.
   The walk as programmed has `OVERCOUNT` for `extra`; the number of elements that are left is had with 0.
   */
  const OVERCOUNT: nat := 2

  function Strides(k: nat, s: nat): nat {
    k * s
  }

  lemma StridesStep(k: nat, s: nat)
    ensures Strides(k + 1, s) == Strides(k, s) + s
    ensures Strides(0, s) == 0
  {
  }

  lemma StridesMonotone(k: nat, k': nat, s: nat)
    requires k <= k'
    ensures Strides(k, s) <= Strides(k', s)
  {
  }

  function LengthBound(t: Type, mm: MinOrMax): nat
    requires t.Str? || t.WStr? || t.BoolVec? || t.Sequence?
  {
    if mm.Min? then 0 else t.bound
  }

  function EndU32(x: nat): nat {
    x + Pad(x, 4) + 4
  }

  function End(t: Type, x: nat, what: SampleOrKey, mm: MinOrMax, extra: nat): nat
    decreases t, 1, 0
  {
    match t
    case Prim(k) => x + Pad(x, k.CdrSizeOf()) + k.CdrSizeOf()
    case Str(_, _) => EndU32(x) + LengthBound(t, mm) + 1
    case WStr(_, _) => EndU32(x) + 2 * LengthBound(t, mm)
    case BoolVec(_, _) => EndU32(x) + LengthBound(t, mm)
    case Struct(ms, _) => EndMembers(t, |ms|, x, what, mm, extra)
    case Array(e, n) => EndMany(e, n, x, what, mm, extra)
    case Sequence(e, _, _) => EndMany(e, LengthBound(t, mm), EndU32(x), what, mm, extra)
  }

  function EndMembers(t: Type, n: nat, x: nat, what: SampleOrKey, mm: MinOrMax, extra: nat): nat
    requires t.Struct? && n <= |t.members|
    decreases t, 0, n
  {
    if n == 0 then x
    else
      var y := EndMembers(t, n - 1, x, what, mm, extra);
      if Selected(t, n - 1, what) then End(t.members[n - 1].ty, y, what, mm, extra) else y
  }

  function EndMany(e: Type, n: nat, x: nat, what: SampleOrKey, mm: MinOrMax, extra: nat): nat
    decreases e, 2, 0
  {
    if n == 0 then x
    else
      var one := End(e, x, what, mm, extra);
      if n == 1 then one
      else
        var two := End(e, one, what, mm, extra);
        two + Strides(n - 2 + extra, if one <= two then two - one else 0)
  }

  /** Where the stream stands after `n` elements, each of them walked. */
  function Iterated(e: Type, n: nat, x: nat, what: SampleOrKey, mm: MinOrMax, extra: nat): nat {
    if n == 0 then x else End(e, Iterated(e, n - 1, x, what, mm, extra), what, mm, extra)
  }

  /** The largest alignment met by the walk. */
  function AlignOf(t: Type, what: SampleOrKey, mm: MinOrMax): (w: nat)
    ensures IsAlign(w)
    decreases t, 1, 0
  {
    match t
    case Prim(k) => k.CdrSizeOf()
    case Struct(ms, _) => AlignMembers(t, |ms|, what, mm)
    case Array(e, n) => if n == 0 then 1 else AlignOf(e, what, mm)
    case Sequence(e, _, _) =>
      MaxAlign(4, AlignOf(e, what, mm));
      if LengthBound(t, mm) == 0 then 4 else Larger(4, AlignOf(e, what, mm))
    case _ => 4
  }

  function AlignMembers(t: Type, n: nat, what: SampleOrKey, mm: MinOrMax): (w: nat)
    requires t.Struct? && n <= |t.members|
    ensures IsAlign(w)
    decreases t, 0, n
  {
    if n == 0 then 1
    else
      MaxAlign(AlignMembers(t, n - 1, what, mm), AlignOf(t.members[n - 1].ty, what, mm));
      if Selected(t, n - 1, what)
      then Larger(AlignMembers(t, n - 1, what, mm), AlignOf(t.members[n - 1].ty, what, mm))
      else AlignMembers(t, n - 1, what, mm)
  }

  // ---------------------------------------------------------------- the walk moves forward, in order

  lemma {:induction false} EndGrows(t: Type, x: nat, what: SampleOrKey, mm: MinOrMax, extra: nat)
    ensures End(t, x, what, mm, extra) >= x
    ensures WellFormed(t) ==> End(t, x, what, mm, extra) > x
    decreases t, 1, 0
  {
    match t
    case Struct(ms, _) => EndMembersGrow(t, |ms|, x, what, mm, extra); SomeSelected(t, what);
    case Array(e, n) => EndManyGrows(e, n, x, what, mm, extra);
    case Sequence(e, _, _) => EndManyGrows(e, LengthBound(t, mm), EndU32(x), what, mm, extra);
    case _ =>
  }

  lemma SomeSelected(t: Type, what: SampleOrKey)
    requires t.Struct?
    ensures |t.members| > 0 ==> exists i :: 0 <= i < |t.members| && Selected(t, i, what)
  {
    if |t.members| > 0 {
      if what.Key? && HasKeys(t) {
        var i :| 0 <= i < |t.members| && t.members[i].isKey;
        assert Selected(t, i, what);
      } else {
        assert Selected(t, 0, what);
      }
    }
  }

  lemma {:induction false} EndMembersGrow(t: Type, n: nat, x: nat, what: SampleOrKey, mm: MinOrMax, extra: nat)
    requires t.Struct? && n <= |t.members|
    ensures EndMembers(t, n, x, what, mm, extra) >= x
    ensures WellFormed(t) && (exists i :: 0 <= i < n && Selected(t, i, what)) ==>
              EndMembers(t, n, x, what, mm, extra) > x
    decreases t, 0, n
  {
    hide End, Selected;
    if n > 0 {
      EndMembersGrow(t, n - 1, x, what, mm, extra);
      EndGrows(t.members[n - 1].ty, EndMembers(t, n - 1, x, what, mm, extra), what, mm, extra);
    }
  }

  lemma {:induction false} EndManyGrows(e: Type, n: nat, x: nat, what: SampleOrKey, mm: MinOrMax, extra: nat)
    ensures EndMany(e, n, x, what, mm, extra) >= x
    ensures WellFormed(e) && n > 0 ==> EndMany(e, n, x, what, mm, extra) > x
    decreases e, 2, 0
  {
    hide End, WellFormed, Strides;
    EndGrows(e, x, what, mm, extra);
    EndGrows(e, End(e, x, what, mm, extra), what, mm, extra);
  }

  // ---------------------------------------------------------------- constant stride

  /**
   The end offset is fixed modulo the largest alignment, whatever offset the walk started from,
   and starting points that differ by a multiple of that alignment give end points that differ by as much.
   */
  ghost predicate Periodic(x: nat, y: nat, endX: nat, endY: nat, w: nat)
    requires IsAlign(w)
  {
    && Divides(w, endY - endX)
    && (Divides(w, y - x) ==> endY - endX == y - x)
  }

  lemma {:induction false} EndPeriodic(t: Type, x: nat, y: nat, what: SampleOrKey, mm: MinOrMax, extra: nat)
    ensures Periodic(x, y, End(t, x, what, mm, extra), End(t, y, what, mm, extra), AlignOf(t, what, mm))
    decreases t, 1, 0
  {
    hide Periodic, EndMembers, EndMany, EndU32, AlignMembers, Larger;
    match t
    case Prim(k) => AlignedPeriodic(x, y, k.CdrSizeOf(), k.CdrSizeOf());
    case Str(_, _) => U32Periodic(x, y, LengthBound(t, mm) + 1);
    case WStr(_, _) => U32Periodic(x, y, 2 * LengthBound(t, mm));
    case BoolVec(_, _) => U32Periodic(x, y, LengthBound(t, mm));
    case Struct(ms, _) => EndMembersPeriodic(t, |ms|, x, y, what, mm, extra);
    case Array(e, n) => EndManyPeriodic(e, n, x, y, what, mm, extra);
    case Sequence(e, _, _) => EndSequencePeriodic(t, x, y, what, mm, extra);
  }

  lemma AlignedPeriodic(x: nat, y: nat, w: nat, n: nat)
    requires IsAlign(w)
    ensures Periodic(x, y, x + Pad(x, w) + n, y + Pad(y, w) + n, w)
  {
    PadAligns(x, w);
    PadAligns(y, w);
    SameResidue(x + Pad(x, w), y + Pad(y, w), w);
    SameResidue(x, y, w);
    assert (y + Pad(y, w) + n) - (x + Pad(x, w) + n) == (y + Pad(y, w)) - (x + Pad(x, w));
  }

  lemma U32Periodic(x: nat, y: nat, n: nat)
    ensures Periodic(x, y, EndU32(x) + n, EndU32(y) + n, 4)
  {
    AlignedPeriodic(x, y, 4, 4 + n);
  }

  /** One walk after another: the larger of the two periods is a period of both together. */
  lemma PeriodicThen(x: nat, y: nat, x1: nat, y1: nat, x2: nat, y2: nat, w: nat, w': nat)
    requires IsAlign(w) && IsAlign(w')
    requires Periodic(x, y, x1, y1, w) && Periodic(x1, y1, x2, y2, w')
    ensures IsAlign(Larger(w, w')) && Periodic(x, y, x2, y2, Larger(w, w'))
  {
    hide Divides;
    MultipleOfMax(y - x, w, w');
    MultipleOfMax(y1 - x1, w, w');
    MultipleOfMax(y2 - x2, w, w');
    DividesSmaller(y1 - x1, w, w');
  }

  lemma DividesSmaller(d: int, w: nat, w': nat)
    requires IsAlign(w) && IsAlign(w') && Divides(w, d)
    ensures w' <= w ==> Divides(w', d)
    ensures w <= w' ==> Larger(w, w') == w'
    ensures w' <= w ==> Larger(w, w') == w
  {
    Chain(d);
    if w == 1 {} else if w == 2 {} else if w == 4 {} else {}
  }

  lemma {:induction false} EndMembersPeriodic(
    t: Type, n: nat, x: nat, y: nat, what: SampleOrKey, mm: MinOrMax, extra: nat)
    requires t.Struct? && n <= |t.members|
    ensures Periodic(x, y, EndMembers(t, n, x, what, mm, extra), EndMembers(t, n, y, what, mm, extra),
                     AlignMembers(t, n, what, mm))
    decreases t, 0, n
  {
    hide Periodic, End, AlignOf, Larger, Selected;
    if n == 0 {
      NothingPeriodic(x, y);
    } else {
      EndMembersPeriodic(t, n - 1, x, y, what, mm, extra);
      var ty := t.members[n - 1].ty;
      var x1, y1 := EndMembers(t, n - 1, x, what, mm, extra), EndMembers(t, n - 1, y, what, mm, extra);
      EndPeriodic(ty, x1, y1, what, mm, extra);
      PeriodicThen(x, y, x1, y1, End(ty, x1, what, mm, extra), End(ty, y1, what, mm, extra),
        AlignMembers(t, n - 1, what, mm), AlignOf(ty, what, mm));
    }
  }

  lemma NothingPeriodic(x: nat, y: nat)
    ensures Periodic(x, y, x, y, 1)
  {
  }

  lemma {:induction false} EndManyPeriodic(
    e: Type, n: nat, x: nat, y: nat, what: SampleOrKey, mm: MinOrMax, extra: nat)
    ensures Periodic(x, y, EndMany(e, n, x, what, mm, extra), EndMany(e, n, y, what, mm, extra),
                     if n == 0 then 1 else AlignOf(e, what, mm))
    decreases e, 2, 0
  {
    hide End, AlignOf, Strides, Divides;
    if n == 0 {
      NothingPeriodic(x, y);
    } else {
      var x1, y1 := End(e, x, what, mm, extra), End(e, y, what, mm, extra);
      EndPeriodic(e, x, y, what, mm, extra);
      SameStride(e, x1, y1, x, y, what, mm, extra);
    }
  }

  /** After a first element, the next one takes the same number of bytes wherever the first one started. */
  lemma {:induction false} SameStride(
    e: Type, x1: nat, y1: nat, x: nat, y: nat, what: SampleOrKey, mm: MinOrMax, extra: nat)
    requires x1 == End(e, x, what, mm, extra) && y1 == End(e, y, what, mm, extra)
    ensures End(e, x1, what, mm, extra) - x1 == End(e, y1, what, mm, extra) - y1 >= 0
    ensures Divides(AlignOf(e, what, mm), End(e, x1, what, mm, extra) - x1)
    decreases e, 1, 1
  {
    hide End, AlignOf, Divides;
    EndPeriodic(e, x, y, what, mm, extra);
    EndPeriodic(e, x1, y1, what, mm, extra);
    EndPeriodic(e, x, x1, what, mm, extra);
    EndGrows(e, x1, what, mm, extra);
  }

  lemma {:induction false} EndSequencePeriodic(
    t: Type, x: nat, y: nat, what: SampleOrKey, mm: MinOrMax, extra: nat)
    requires t.Sequence?
    ensures Periodic(x, y, End(t, x, what, mm, extra), End(t, y, what, mm, extra), AlignOf(t, what, mm))
    decreases t, 0, 0
  {
    hide Periodic, EndU32, EndMany;
    var e, n := t.elem, LengthBound(t, mm);
    U32Periodic(x, y, 0);
    EndManyPeriodic(e, n, EndU32(x), EndU32(y), what, mm, extra);
    PeriodicThen(x, y, EndU32(x), EndU32(y), EndMany(e, n, EndU32(x), what, mm, extra),
      EndMany(e, n, EndU32(y), what, mm, extra), 4, if n == 0 then 1 else AlignOf(e, what, mm));
    assert Larger(4, 1) == 4;
  }

  /**
   One measured element stands for all: multiplying the stride of the second element by the number of
   elements that are left gives the offset that walking every element would give.
   */
  lemma {:induction false} StrideStandsForAll(
    e: Type, n: nat, x: nat, what: SampleOrKey, mm: MinOrMax, inner: nat)
    ensures n >= 2 ==>
              var one := End(e, x, what, mm, inner);
              var two := End(e, one, what, mm, inner);
              one <= two && Iterated(e, n, x, what, mm, inner) == two + Strides(n - 2, two - one)
              && (forall y: nat ::
                    End(e, End(e, y, what, mm, inner), what, mm, inner) - End(e, y, what, mm, inner) == two - one)
              && Divides(AlignOf(e, what, mm), two - one)
    decreases n
  {
    hide End, AlignOf, Strides, Divides;
    if n >= 2 {
      var one := End(e, x, what, mm, inner);
      var two := End(e, one, what, mm, inner);
      SameStride(e, one, one, x, x, what, mm, inner);
      forall y: nat
        ensures End(e, End(e, y, what, mm, inner), what, mm, inner) - End(e, y, what, mm, inner) == two - one
      {
        SameStride(e, one, End(e, y, what, mm, inner), x, y, what, mm, inner);
      }
      assert Iterated(e, 1, x, what, mm, inner) == one by { assert Iterated(e, 0, x, what, mm, inner) == x; }
      StridesStep(n - 2, two - one);
      if n > 2 {
        StrideStandsForAll(e, n - 1, x, what, mm, inner);
        StridesStep(n - 3, two - one);
        assert Iterated(e, n - 1, x, what, mm, inner)
               == End(e, Iterated(e, n - 2, x, what, mm, inner), what, mm, inner);
      }
    }
  }

  /** The walk with the exact repeat count ends where walking every element ends; overcounting only adds. */
  lemma ManyIsIterated(e: Type, n: nat, x: nat, what: SampleOrKey, mm: MinOrMax, extra: nat)
    ensures Iterated(e, n, x, what, mm, extra) <= EndMany(e, n, x, what, mm, extra)
    ensures extra == 0 ==> EndMany(e, n, x, what, mm, extra) == Iterated(e, n, x, what, mm, extra)
  {
    hide End, AlignOf, Strides, Divides;
    assert n > 0 ==> Iterated(e, 1, x, what, mm, extra) == End(e, x, what, mm, extra) by {
      assert Iterated(e, 0, x, what, mm, extra) == x;
    }
    if n >= 2 {
      StrideStandsForAll(e, n, x, what, mm, extra);
      var one := End(e, x, what, mm, extra);
      StridesMonotone(n - 2, n - 2 + extra, End(e, one, what, mm, extra) - one);
    }
  }
}
