/** The CDR writer: size bounds fixed at construction, serialized size, and serialization with its headers. */
module CdrWriter {
  import opened Bytes
  import opened Types
  import opened TrivCache
  import opened Cdr
  import opened NativeMemory
  import opened Reach
  import opened WriterPaths
  import opened Writer
  import opened SizeWalk
  import opened SizeBounds

  datatype SampleOrRequest = Plain | Request

  /** No repeat count on the walk is so large that the walk gives up on it. */
  predicate Countable(t: Type, what: SampleOrKey, mm: MinOrMax)
    decreases t, 0
  {
    match t
    case Struct(ms, _) => forall i :: 0 <= i < |ms| && Selected(t, i, what) ==> Countable(ms[i].ty, what, mm)
    case Array(e, n) => CountableMany(e, n, what, mm)
    case Sequence(e, _, _) => CountableMany(e, LengthBound(t, mm), what, mm)
    case _ => true
  }

  predicate CountableMany(e: Type, n: nat, what: SampleOrKey, mm: MinOrMax)
    decreases e, 1
  {
    n == 0 || (n < UINT32_MAX && Countable(e, what, mm))
  }

  lemma {:induction false} IteratedGrows(e: Type, n: nat, x: nat, what: SampleOrKey, mm: MinOrMax)
    requires WellFormed(e)
    ensures Iterated(e, n, x, what, mm, 0) >= x + n
  {
    hide End, WellFormed;
    if n > 0 {
      IteratedGrows(e, n - 1, x, what, mm);
      EndGrows(e, Iterated(e, n - 1, x, what, mm, 0), what, mm, 0);
    }
  }

  /** No count is too large when the exact walk stays below 4 GiB. */
  lemma {:induction false} SmallIsCountable(t: Type, x: nat, what: SampleOrKey, mm: MinOrMax)
    requires WellFormed(t) && End(t, x, what, mm, 0) < UINT32_MAX
    ensures Countable(t, what, mm)
    decreases t, 0
  {
    hide EndMembers, EndMany, WellFormed, Selected;
    WellFormedBelow(t);
    match t
    case Struct(ms, _) =>
      forall i | 0 <= i < |ms| && Selected(t, i, what)
        ensures Countable(ms[i].ty, what, mm)
      {
        EndMembersPrefix(t, i + 1, |ms|, x, what, mm, 0);
        MemberEnd(t, i, x, what, mm);
        SmallIsCountable(ms[i].ty, EndMembers(t, i, x, what, mm, 0), what, mm);
      }
    case Array(e, n) => SmallManyIsCountable(e, n, x, what, mm);
    case Sequence(e, _, _) => SmallManyIsCountable(e, LengthBound(t, mm), EndU32(x), what, mm);
    case _ =>
  }

  lemma MemberEnd(t: Type, i: nat, x: nat, what: SampleOrKey, mm: MinOrMax)
    requires t.Struct? && i < |t.members| && Selected(t, i, what)
    ensures EndMembers(t, i + 1, x, what, mm, 0) == End(t.members[i].ty, EndMembers(t, i, x, what, mm, 0), what, mm, 0)
  {
    hide End, Selected;
  }

  lemma {:induction false} SmallManyIsCountable(e: Type, n: nat, x: nat, what: SampleOrKey, mm: MinOrMax)
    requires WellFormed(e) && EndMany(e, n, x, what, mm, 0) < UINT32_MAX
    ensures CountableMany(e, n, what, mm)
    decreases e, 1
  {
    hide End, WellFormed, Countable, Strides;
    if n > 0 {
      IteratedGrows(e, n, x, what, mm);
      ManyIsIterated(e, n, x, what, mm, 0);
      EndGrows(e, End(e, x, what, mm, 0), what, mm, 0);
      SmallIsCountable(e, x, what, mm);
    }
  }

  // ---------------------------------------------------------------- the checked walk

  /** `Unbounded` is the walk giving up, `Overflow` the exception of the cursor. */
  datatype Walked = Fixed | Unbounded | Overflow

  class CheckingSizeCursor {
    var offset: nat

    constructor ()
      ensures offset == 0
    {
      offset := 0;
    }

    method Advance(n: nat) returns (r: Walked)
      requires offset <= UINT32_MAX
      modifies this
      ensures offset <= UINT32_MAX
      ensures r == if old(offset) + n <= UINT32_MAX then Fixed else Overflow
      ensures r.Fixed? ==> offset == old(offset) + n
    {
      if UINT32_MAX - offset < n {
        offset := UINT32_MAX;
        return Overflow;
      }
      offset := offset + n;
      return Fixed;
    }

    /** Aligns to `w`, then takes `n` bytes. */
    method AlignAdvance(w: nat, n: nat) returns (r: Walked)
      requires IsAlign(w) && offset <= UINT32_MAX
      modifies this
      ensures offset <= UINT32_MAX
      ensures r == if old(offset) + Pad(old(offset), w) + n <= UINT32_MAX then Fixed else Overflow
      ensures r.Fixed? ==> offset == old(offset) + Pad(old(offset), w) + n
    {
      if w != 1 && offset % w != 0 {
        r := Advance(w - offset % w);
        if !r.Fixed? {
          return;
        }
      }
      r := Advance(n);
    }

    /** A 32-bit length, then the bytes it counts. */
    method Counted(n: nat) returns (r: Walked)
      requires offset <= UINT32_MAX
      modifies this
      ensures offset <= UINT32_MAX
      ensures r == if EndU32(old(offset)) + n <= UINT32_MAX then Fixed else Overflow
      ensures r.Fixed? ==> offset == EndU32(old(offset)) + n
    {
      r := AlignAdvance(4, 4);
      if r.Fixed? {
        r := Advance(n);
      }
    }
  }

  lemma {:induction false} EndMembersPrefix(
    t: Type, i: nat, n: nat, x: nat, what: SampleOrKey, mm: MinOrMax, extra: nat)
    requires t.Struct? && i <= n <= |t.members|
    ensures EndMembers(t, i, x, what, mm, extra) <= EndMembers(t, n, x, what, mm, extra)
    decreases n
  {
    hide End, Selected;
    if i < n {
      EndMembersPrefix(t, i, n - 1, x, what, mm, extra);
      EndGrows(t.members[n - 1].ty, EndMembers(t, n - 1, x, what, mm, extra), what, mm, extra);
    }
  }

  method BoundWalk(c: CheckingSizeCursor, t: Type, what: SampleOrKey, mm: MinOrMax) returns (r: Walked)
    requires WellFormed(t) && c.offset <= UINT32_MAX
    modifies c
    ensures c.offset <= UINT32_MAX
    ensures r.Fixed? <==> Countable(t, what, mm) && End(t, old(c.offset), what, mm, OVERCOUNT) <= UINT32_MAX
    ensures r.Fixed? ==> c.offset == End(t, old(c.offset), what, mm, OVERCOUNT)
    decreases t, 1
  {
    hide EndMembers, EndMany;
    match t {
      case Prim(k) => r := c.AlignAdvance(k.CdrSizeOf(), k.CdrSizeOf());
      case Str(_, _) => r := c.Counted(LengthBound(t, mm) + 1);
      case WStr(_, _) => r := c.Counted(2 * LengthBound(t, mm));
      case BoolVec(_, _) => r := c.Counted(LengthBound(t, mm));
      case Struct(_, _) => r := BoundWalkMembers(c, t, what, mm);
      case Array(e, n) => r := BoundWalkMany(c, n, e, what, mm);
      case Sequence(e, _, _) =>
        ghost var x := c.offset;
        EndManyGrows(e, LengthBound(t, mm), EndU32(x), what, mm, OVERCOUNT);
        r := c.Counted(0);
        if r.Fixed? {
          r := BoundWalkMany(c, LengthBound(t, mm), e, what, mm);
        }
    }
  }

  method BoundWalkMembers(c: CheckingSizeCursor, t: Type, what: SampleOrKey, mm: MinOrMax) returns (r: Walked)
    requires t.Struct? && WellFormed(t) && c.offset <= UINT32_MAX
    modifies c
    ensures c.offset <= UINT32_MAX
    ensures r.Fixed? <==> Countable(t, what, mm)
                          && EndMembers(t, |t.members|, old(c.offset), what, mm, OVERCOUNT) <= UINT32_MAX
    ensures r.Fixed? ==> c.offset == EndMembers(t, |t.members|, old(c.offset), what, mm, OVERCOUNT)
    decreases t, 0
  {
    hide End, Selected, WellFormed;
    WellFormedBelow(t);
    ghost var x := c.offset;
    var allFields := what.Sample? || !HasKeys(t);
    var i := 0;
    while i < |t.members|
      invariant 0 <= i <= |t.members| && c.offset <= UINT32_MAX
      invariant forall j :: 0 <= j < i && Selected(t, j, what) ==> Countable(t.members[j].ty, what, mm)
      invariant c.offset == EndMembers(t, i, x, what, mm, OVERCOUNT)
    {
      SelectedMeans(t, i, what);
      if allFields || t.members[i].isKey {
        EndMembersPrefix(t, i + 1, |t.members|, x, what, mm, OVERCOUNT);
        r := BoundWalk(c, t.members[i].ty, what, mm);
        if !r.Fixed? {
          return;
        }
      }
      i := i + 1;
    }
    r := Fixed;
  }

  method BoundWalkMany(c: CheckingSizeCursor, count: nat, e: Type, what: SampleOrKey, mm: MinOrMax)
    returns (r: Walked)
    requires WellFormed(e) && c.offset <= UINT32_MAX
    modifies c
    ensures c.offset <= UINT32_MAX
    ensures r.Fixed? <==> CountableMany(e, count, what, mm)
                          && EndMany(e, count, old(c.offset), what, mm, OVERCOUNT) <= UINT32_MAX
    ensures r.Fixed? ==> c.offset == EndMany(e, count, old(c.offset), what, mm, OVERCOUNT)
    decreases e, 2
  {
    hide End, Countable, WellFormed, Strides;
    if count == 0 {
      return Fixed;
    }
    if count >= UINT32_MAX {
      return Unbounded;
    }
    ghost var x := c.offset;
    EndGrows(e, x, what, mm, OVERCOUNT);
    EndGrows(e, End(e, x, what, mm, OVERCOUNT), what, mm, OVERCOUNT);
    r := BoundWalk(c, e, what, mm);
    if !r.Fixed? || count == 1 {
      return;
    }
    var offset := c.offset;
    r := BoundWalk(c, e, what, mm);
    if !r.Fixed? {
      return;
    }
    r := BoundRepeat(c, count, c.offset - offset);
  }

  /** Adds `count` strides, unless the product does not fit 64 bits. */
  method BoundRepeat(c: CheckingSizeCursor, count: nat, eltSize: nat) returns (r: Walked)
    requires eltSize > 0 && c.offset <= UINT32_MAX
    modifies c
    ensures c.offset <= UINT32_MAX
    ensures r.Fixed? <==> old(c.offset) + Strides(count, eltSize) <= UINT32_MAX
    ensures r.Fixed? ==> c.offset == old(c.offset) + Strides(count, eltSize)
  {
    var maxCount := SIZE_MAX / eltSize;
    if count > maxCount {
      TooMany(count, eltSize);
      return Unbounded;
    }
    r := c.Advance(count * eltSize);
  }

  /** Giving up on a product beyond 64 bits never hides one that fits 32 bits. */
  lemma TooMany(n: nat, s: nat)
    requires s > 0 && n > SIZE_MAX / s
    ensures n * s > UINT32_MAX
  {
    var q := SIZE_MAX / s;
    assert q * s + s > SIZE_MAX;
    assert n * s >= (q + 1) * s;
    assert (q + 1) * s == q * s + s;
  }

  // ---------------------------------------------------------------- whole streams

  /** Is anything written after the headers? */
  predicate HasBody(root: Type, what: SampleOrKey)
    requires root.Struct?
  {
    what.Sample? || HasKeys(root)
  }

  /** Bytes between the encoding header and the body. */
  function RequestHeaderSize(variant: SampleOrRequest, what: SampleOrKey): nat {
    if what.Sample? && variant.Request? then 16 else 0
  }

  function BodyEnd(root: Type, variant: SampleOrRequest, what: SampleOrKey, mm: MinOrMax, extra: nat): nat
    requires root.Struct?
  {
    var x := RequestHeaderSize(variant, what);
    if HasBody(root, what) then End(root, x, what, mm, extra) else x
  }

  predicate BoundExists(root: Type, variant: SampleOrRequest, what: SampleOrKey, mm: MinOrMax)
    requires root.Struct?
  {
    && (HasBody(root, what) ==> Countable(root, what, mm))
    && BodyEnd(root, variant, what, mm, OVERCOUNT) <= UINT32_MAX
  }

  /** The bound the writer stores, with the 4 bytes of encoding header. */
  function SizeBound(root: Type, variant: SampleOrRequest, what: SampleOrKey, mm: MinOrMax): nat
    requires root.Struct?
  {
    if BoundExists(root, variant, what, mm) then BodyEnd(root, variant, what, mm, OVERCOUNT) + 4 else SIZE_MAX
  }

  /** What is handed to the writer; the request header is used for requests only. */
  datatype Source = Source(guid: seq<Byte>, seqno: seq<Byte>, mem: Mem, addr: int)

  predicate ValidSource(s: Source) {
    |s.guid| == 8 && |s.seqno| == 8
  }

  function EncodingHeader(e: Endian): (r: seq<Byte>)
    ensures |r| == 4
  {
    [0, if e.Little? then 1 else 0, 0, 0]
  }

  function RequestHeader(s: Source, variant: SampleOrRequest, what: SampleOrKey): (r: seq<Byte>)
    ensures ValidSource(s) ==> |r| == RequestHeaderSize(variant, what)
  {
    if what.Sample? && variant.Request? then s.guid + s.seqno else []
  }

  function Body(root: Type, s: Source, off: nat, native: Endian, what: SampleOrKey): seq<Byte>
    requires root.Struct?
  {
    if HasBody(root, what) then Coded(root, s.mem, s.addr, off, native, what) else []
  }

  function Stream(root: Type, variant: SampleOrRequest, s: Source, native: Endian, what: SampleOrKey): seq<Byte>
    requires root.Struct?
  {
    EncodingHeader(native) + RequestHeader(s, variant, what)
    + Body(root, s, RequestHeaderSize(variant, what), native, what)
  }

  class CDRWriter {
    const root: Type
    const tsc: Cache
    const variant: SampleOrRequest
    const native: Endian
    const minData: nat
    const minKey: nat
    const maxData: nat
    const maxKey: nat

    ghost predicate Valid() {
      && root.Struct? && WellFormed(root) && Filled(tsc, root)
      && minData == SizeBound(root, variant, Sample, Min) && minKey == SizeBound(root, variant, Key, Min)
      && maxData == SizeBound(root, variant, Sample, MinOrMax.Max)
      && maxKey == SizeBound(root, variant, Key, MinOrMax.Max)
    }

    constructor (root: Type, variant: SampleOrRequest, native: Endian)
      requires root.Struct? && WellFormed(root)
      ensures Valid() && this.root == root && this.variant == variant && this.native == native
    {
      var c := new TriviallySerializedCache(root);
      this.root, this.variant, this.native, this.tsc := root, variant, native, c.cache;
      var lo := ComputeBound(root, variant, Sample, Min);
      var loKey := ComputeBound(root, variant, Key, Min);
      var hi := ComputeBound(root, variant, Sample, MinOrMax.Max);
      var hiKey := ComputeBound(root, variant, Key, MinOrMax.Max);
      minData, minKey, maxData, maxKey := lo, loKey, hi, hiKey;
    }

    static method ComputeBound(root: Type, variant: SampleOrRequest, what: SampleOrKey, mm: MinOrMax)
      returns (n: nat)
      requires root.Struct? && WellFormed(root)
      ensures n == SizeBound(root, variant, what, mm)
    {
      hide End, Countable;
      var c := new CheckingSizeCursor();
      var r := c.Advance(4);
      c.offset := c.offset - 4;
      if what.Sample? && variant.Request? {
        r := c.Advance(8);
        r := c.Advance(8);
      }
      assert c.offset == RequestHeaderSize(variant, what);
      if what.Sample? || HasKeys(root) {
        r := BoundWalk(c, root, what, mm);
        if !r.Fixed? {
          return SIZE_MAX;
        }
      }
      c.offset := c.offset + 4;
      return c.offset;
    }

    function GetMin(what: SampleOrKey): nat {
      if what.Sample? then minData else minKey
    }

    function GetMax(what: SampleOrKey): nat {
      if what.Sample? then maxData else maxKey
    }

    method SerializeTopLevel(dst: WriteCursor, s: Source, what: SampleOrKey)
      requires Valid() && ValidSource(s)
      requires dst.Valid() && dst.position == 0
      modifies dst, dst.buffer
      ensures dst.Valid() && dst.origin == 0
      ensures dst.emitted == Stream(root, variant, s, native, what)
    {
      hide Coded, Filled, WellFormed, SizeBound;
      dst.PutBytes(EncodingHeader(native));
      dst.Rebase(4);
      if what.Sample? && variant.Request? {
        dst.PutBytes(s.guid);
        dst.PutBytes(s.seqno);
      }
      if what.Sample? || HasKeys(root) {
        var ser := new Serializer(tsc, native);
        ser.Any(dst, s.mem, s.addr, root, what);
      }
      dst.Rebase(-4);
    }

    /** Trusts the bounds when they agree, and otherwise lets the writer run over a counting cursor. */
    method GetSerializedSize(s: Source, what: SampleOrKey) returns (n: nat)
      requires Valid() && ValidSource(s)
      ensures n == ReportedSize(root, variant, s, native, what)
    {
      if GetMin(what) == GetMax(what) {
        return GetMax(what);
      }
      var cursor := new WriteCursor(null);
      SerializeTopLevel(cursor, s, what);
      n := cursor.Offset();
    }

    method GetSerializedSizeEstimate(s: Source, what: SampleOrKey) returns (n: nat)
      requires Valid() && ValidSource(s)
      ensures n == EstimatedSize(root, variant, s, native, what)
    {
      hide SizeBound, Stream, Filled, WellFormed;
      var min, max := GetMin(what), GetMax(what);
      if max <= 1024 || (min > 0 && max / min == 1) {
        return max;
      }
      var cursor := new WriteCursor(null);
      SerializeTopLevel(cursor, s, what);
      n := cursor.Offset();
    }

    /** Writes to the front of `dst`; what does not fit goes beyond its end. */
    method Serialize(dst: array<Byte>, s: Source, what: SampleOrKey) returns (overrun: nat)
      requires Valid() && ValidSource(s)
      modifies dst
      ensures var b := Stream(root, variant, s, native, what);
              && dst[..] == Overlaid(old(dst[..]), b)
              && overrun == if |b| > dst.Length then |b| - dst.Length else 0
    {
      hide Stream;
      var cursor := new WriteCursor(dst);
      SerializeTopLevel(cursor, s, what);
      overrun := cursor.Overrun();
    }
  }

  // ---------------------------------------------------------------- sizes and bounds

  function ReportedSize(root: Type, variant: SampleOrRequest, s: Source, native: Endian, what: SampleOrKey): nat
    requires root.Struct?
  {
    if SizeBound(root, variant, what, Min) == SizeBound(root, variant, what, MinOrMax.Max)
    then SizeBound(root, variant, what, MinOrMax.Max)
    else |Stream(root, variant, s, native, what)|
  }

  function EstimatedSize(root: Type, variant: SampleOrRequest, s: Source, native: Endian, what: SampleOrKey): nat
    requires root.Struct?
  {
    var min, max := SizeBound(root, variant, what, Min), SizeBound(root, variant, what, MinOrMax.Max);
    if max <= 1024 || (min > 0 && max / min == 1) then max else |Stream(root, variant, s, native, what)|
  }

  predicate SourceInBounds(root: Type, s: Source, native: Endian, what: SampleOrKey)
    requires root.Struct?
  {
    ValidSource(s) && InBounds(ValueOf(root, s.mem, s.addr, native, what), root, what)
  }

  /** The length of a stream whose value is within its bounds lies between the exact minimum and any maximum. */
  lemma StreamBetween(root: Type, variant: SampleOrRequest, s: Source, native: Endian, what: SampleOrKey, extra: nat)
    requires root.Struct? && Safe(root, 0, what) && SourceInBounds(root, s, native, what)
    ensures BodyEnd(root, variant, what, Min, 0) + 4 <= |Stream(root, variant, s, native, what)|
    ensures |Stream(root, variant, s, native, what)| <= BodyEnd(root, variant, what, MinOrMax.Max, extra) + 4
  {
    hide Coded, Enc, End, InBounds, KeySafe, ValueOf;
    var x := RequestHeaderSize(variant, what);
    var v := ValueOf(root, s.mem, s.addr, native, what);
    CodedIsPlain(root, s.mem, s.addr, x, native, what);
    LowerBound(root, v, x, x, Both(native), what);
    UpperBound(root, v, x, x, Both(native), what, extra);
  }

  /** The stored maximum covers every value within its bounds. */
  lemma MaximumCovers(root: Type, variant: SampleOrRequest, s: Source, native: Endian, what: SampleOrKey)
    requires root.Struct? && Safe(root, 0, what) && SourceInBounds(root, s, native, what)
    requires BoundExists(root, variant, what, MinOrMax.Max)
    ensures |Stream(root, variant, s, native, what)| <= SizeBound(root, variant, what, MinOrMax.Max) <= UINT32_MAX + 4
  {
    hide BodyEnd, Stream, SourceInBounds;
    StreamBetween(root, variant, s, native, what, OVERCOUNT);
  }

  /** The estimate is enough for every value within its bounds; it is exact, small, or less than twice the minimum. */
  lemma EstimateIsClose(root: Type, variant: SampleOrRequest, s: Source, native: Endian, what: SampleOrKey)
    requires root.Struct? && Safe(root, 0, what) && SourceInBounds(root, s, native, what)
    requires BoundExists(root, variant, what, MinOrMax.Max)
    ensures var n := EstimatedSize(root, variant, s, native, what);
            && |Stream(root, variant, s, native, what)| <= n
            && (n == |Stream(root, variant, s, native, what)| || n <= 1024
                || n < 2 * SizeBound(root, variant, what, Min))
  {
    hide BoundExists, SizeBound, Stream, SourceInBounds, Safe;
    MaximumCovers(root, variant, s, native, what);
    LessThanTwice(SizeBound(root, variant, what, MinOrMax.Max), SizeBound(root, variant, what, Min));
  }

  lemma LessThanTwice(max: nat, min: nat)
    ensures min > 0 && max / min == 1 ==> max < 2 * min
  {
    if min > 0 && max / min == 1 {
      assert max == 1 * min + max % min;
    }
  }

  ghost predicate SizeIsFixed(
    root: Type, variant: SampleOrRequest, s: Source, native: Endian, what: SampleOrKey)
    requires root.Struct?
  {
    |Stream(root, variant, s, native, what)| == BodyEnd(root, variant, what, Min, 0) + 4
  }

  /** With the exact repeat count, equal bounds fix the size of every value, and only equal bounds do. */
  lemma ExactBoundsFixSize(root: Type, variant: SampleOrRequest, native: Endian, what: SampleOrKey)
    requires root.Struct? && WellFormed(root) && Safe(root, 0, what)
    ensures (forall s: Source | SourceInBounds(root, s, native, what) :: SizeIsFixed(root, variant, s, native, what))
            <==> BodyEnd(root, variant, what, Min, 0) == BodyEnd(root, variant, what, MinOrMax.Max, 0)
  {
    hide BodyEnd, Stream, SourceInBounds, Safe, WellFormed;
    if BodyEnd(root, variant, what, Min, 0) == BodyEnd(root, variant, what, MinOrMax.Max, 0) {
      forall s: Source | SourceInBounds(root, s, native, what)
        ensures SizeIsFixed(root, variant, s, native, what)
      {
        StreamBetween(root, variant, s, native, what, 0);
      }
    } else {
      var s := FullSource(root, variant, native, what);
      assert !SizeIsFixed(root, variant, s, native, what);
    }
  }

  /** The exact maximum is attained. */
  lemma FullSource(root: Type, variant: SampleOrRequest, native: Endian, what: SampleOrKey) returns (s: Source)
    requires root.Struct? && WellFormed(root) && Safe(root, 0, what)
    ensures SourceInBounds(root, s, native, what)
    ensures |Stream(root, variant, s, native, what)| == BodyEnd(root, variant, what, MinOrMax.Max, 0) + 4
  {
    hide Coded, Enc, End, InBounds, IsFull, KeySafe, ValueOf, WellFormed;
    var m := FullMemory(root, native, what);
    s := Source(Zeros(8), Zeros(8), m, 0);
    var x := RequestHeaderSize(variant, what);
    FullAttainsMaximum(root, ValueOf(root, m, 0, native, what), x, Both(native), what);
    CodedIsPlain(root, m, 0, x, native, what);
  }

  ghost predicate SizeIsRight(root: Type, variant: SampleOrRequest, s: Source, native: Endian, what: SampleOrKey)
    requires root.Struct?
  {
    ReportedSize(root, variant, s, native, what) == |Stream(root, variant, s, native, what)|
  }

  /**
   The reported size is right for every value within its bounds if and only if the bounds differ, or the
   extra strides in the walk are absorbed, so that it agrees with the walk that repeats the right number of times.
   The size that marks missing bounds can be right only for a type all of whose values have that size.
   */
  lemma ReportedSizeExact(root: Type, variant: SampleOrRequest, native: Endian, what: SampleOrKey)
    requires root.Struct? && WellFormed(root) && Safe(root, 0, what)
    ensures (forall s: Source | SourceInBounds(root, s, native, what) :: SizeIsRight(root, variant, s, native, what))
            <==> (SizeBound(root, variant, what, Min) == SizeBound(root, variant, what, MinOrMax.Max) ==>
                    && SizeBound(root, variant, what, MinOrMax.Max) == BodyEnd(root, variant, what, Min, 0) + 4
                    && (BoundExists(root, variant, what, Min)
                        || BodyEnd(root, variant, what, Min, 0) == BodyEnd(root, variant, what, MinOrMax.Max, 0)))
  {
    hide Stream, BodyEnd, SourceInBounds, Safe, WellFormed, Countable;
    var lo, hi := SizeBound(root, variant, what, Min), SizeBound(root, variant, what, MinOrMax.Max);
    if lo == hi {
      if !BoundExists(root, variant, what, Min) {
        SizeMarksMissing(root, variant, native, what);
      } else if hi == BodyEnd(root, variant, what, Min, 0) + 4 {
        forall s: Source | SourceInBounds(root, s, native, what)
          ensures SizeIsRight(root, variant, s, native, what)
        {
          StreamBetween(root, variant, s, native, what, OVERCOUNT);
        }
      } else {
        var s := Source(Zeros(8), Zeros(8), EMPTY_MEM, 0);
        EmptySource(root, variant, s, native, what);
        assert !SizeIsRight(root, variant, s, native, what);
      }
    } else {
      assert forall s: Source :: SizeIsRight(root, variant, s, native, what);
    }
  }

  lemma SizeMarksMissing(root: Type, variant: SampleOrRequest, native: Endian, what: SampleOrKey)
    requires root.Struct? && WellFormed(root) && Safe(root, 0, what)
    requires !BoundExists(root, variant, what, Min)
    requires SizeBound(root, variant, what, Min) == SizeBound(root, variant, what, MinOrMax.Max)
    ensures (forall s: Source | SourceInBounds(root, s, native, what) :: SizeIsRight(root, variant, s, native, what))
            <==> BodyEnd(root, variant, what, Min, 0) + 4 == SIZE_MAX
                 && BodyEnd(root, variant, what, Min, 0) == BodyEnd(root, variant, what, MinOrMax.Max, 0)
  {
    hide Stream, BodyEnd, SourceInBounds, Safe, WellFormed, Countable;
    var empty := Source(Zeros(8), Zeros(8), EMPTY_MEM, 0);
    var full := FullSource(root, variant, native, what);
    EmptySource(root, variant, empty, native, what);
    assert SizeIsRight(root, variant, empty, native, what) <==> BodyEnd(root, variant, what, Min, 0) + 4 == SIZE_MAX;
    assert SizeIsRight(root, variant, full, native, what)
           <==> BodyEnd(root, variant, what, MinOrMax.Max, 0) + 4 == SIZE_MAX;
    if BodyEnd(root, variant, what, Min, 0) == BodyEnd(root, variant, what, MinOrMax.Max, 0) {
      forall s: Source | SourceInBounds(root, s, native, what)
        ensures |Stream(root, variant, s, native, what)| == BodyEnd(root, variant, what, Min, 0) + 4
      {
        StreamBetween(root, variant, s, native, what, 0);
      }
    }
  }

  lemma EmptySource(root: Type, variant: SampleOrRequest, s: Source, native: Endian, what: SampleOrKey)
    requires root.Struct? && Safe(root, 0, what) && ValidSource(s) && s.mem == EMPTY_MEM
    ensures SourceInBounds(root, s, native, what)
    ensures |Stream(root, variant, s, native, what)| == BodyEnd(root, variant, what, Min, 0) + 4
  {
    hide Coded, Enc, End, InBounds, KeySafe, ValueOf;
    var x := RequestHeaderSize(variant, what);
    EmptyAttainsMinimum(root, s.addr, x, native, what);
    CodedIsPlain(root, s.mem, s.addr, x, native, what);
  }

  /** A message of four octets in an array. */
  const FOUR_OCTETS: Type := Struct([Member(Array(Prim(Octet), 4), 0, false)], 4)

  lemma FourOctetsEnd(mm: MinOrMax, extra: nat)
    ensures End(FOUR_OCTETS, 0, Sample, mm, extra) == 4 + extra
    ensures Countable(FOUR_OCTETS, Sample, mm)
  {
    var a := Array(Prim(Octet), 4);
    assert EndMembers(FOUR_OCTETS, 0, 0, Sample, mm, extra) == 0;
    assert EndMembers(FOUR_OCTETS, 1, 0, Sample, mm, extra) == End(a, 0, Sample, mm, extra);
    assert End(Prim(Octet), 0, Sample, mm, extra) == 1 && End(Prim(Octet), 1, Sample, mm, extra) == 2;
    assert Strides(2 + extra, 1) == 2 + extra;
    assert Countable(a, Sample, mm);
  }

  lemma FourOctetsTriv()
    ensures Triv(FOUR_OCTETS, 0)
  {
    var t, a := FOUR_OCTETS, Array(Prim(Octet), 4);
    assert Triv(Prim(Octet), 0) && Triv(Prim(Octet), 1);
    assert Triv(a, 0);
    assert Packed(t, 0) == 0 && TrivMembers(t, 0, 0);
    assert Packed(t, 1) == 4 && TrivMembers(t, 0, 1);
  }

  /** For four octets ten bytes are reported, eight are written. */
  lemma FixedArrayOverstated(s: Source, native: Endian)
    requires ValidSource(s)
    ensures Built(FOUR_OCTETS)
    ensures ReportedSize(FOUR_OCTETS, Plain, s, native, Sample) == 10
    ensures |Stream(FOUR_OCTETS, Plain, s, native, Sample)| == 8
  {
    hide End, Countable, Triv;
    FourOctetsEnd(Min, OVERCOUNT);
    FourOctetsEnd(MinOrMax.Max, OVERCOUNT);
    FourOctetsTriv();
    assert |Body(FOUR_OCTETS, s, 0, native, Sample)| == 4;
  }
}
