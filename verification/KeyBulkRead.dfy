/**
 The bulk copy of elements 2..n ignores key mode in the reader and in key extraction as well. This module settles
 exactly when reading then changes members outside the key, or extraction emits something else than the key.
 */
module KeyBulkRead {
  import opened Bytes
  import opened Types
  import opened TrivCache
  import opened Cdr
  import opened NativeMemory
  import opened Reach
  import opened SizeWalk
  import opened SizeBounds
  import opened KeyBulk
  import RP = ReaderPaths
  import KP = KeyPaths

  // ---------------------------------------------------------------- an input that begins with a good element

  /** A stream with an element at offset `off` and `b` behind it. */
  function Input(e: Type, off: nat, o: Orders, what: SampleOrKey, b: seq<Byte>): seq<Byte> {
    Zeros(off) + Enc(e, ValueOf(e, EMPTY_MEM, 0, Little, what), off, o, what) + b
  }

  lemma InputDecodes(e: Type, off: nat, o: Orders, what: SampleOrKey, b: seq<Byte>)
    requires TakesBulk(e, off, what)
    ensures var s := Input(e, off, o, what, b);
            && |s| == AfterFirst(e, off, what) + |b| && off <= AfterFirst(e, off, what)
            && Slice(s, AfterFirst(e, off, what), |b|) == b
            && var r := Dec(e, s, off, o, what); r.Good? && r.end == AfterFirst(e, off, what)
  {
    hide Enc, Dec, End, ValueOf, HasType, Triv, Cut;
    var z := AfterFirst(e, off, what) % MAX_ALIGN;
    var v := ValueOf(e, EMPTY_MEM, 0, Little, what);
    FlatTyped(e, z, EMPTY_MEM, 0, Little, what);
    FlatEnd(e, z, v, off, o, what);
    var s := Input(e, off, o, what, b);
    RoundTrip(e, v, s, off, o, what);
  }

  /** What was decoded as a first element ends where the type says, if the bulk copy is taken behind it. */
  lemma EndsAfterFirst(e: Type, s: seq<Byte>, off: nat, o: Orders, what: SampleOrKey)
    requires off <= |s| && Dec(e, s, off, o, what).Good? && ManyTriv(e, Dec(e, s, off, o, what).end)
    ensures Dec(e, s, off, o, what).end == AfterFirst(e, off, what)
  {
    hide Enc, Dec, End, HasType, Triv;
    DecConsumesSize(e, s, off, o, what, o);
    var r := Dec(e, s, off, o, what);
    FlatEnd(e, r.end % MAX_ALIGN, r.v, off, o, what);
  }

  // ---------------------------------------------------------------- reading

  ghost predicate LoadsPlainly(
    e: Type, n: nat, s: seq<Byte>, off: nat, native: Endian, swap: bool, m: Mem, a: int)
    requires off <= |s|
  {
    RP.LoadMany(e, n, s, off, m, a, native, swap, Key)
    == RP.PlainlyElems(e, n, s, off, m, a, native, RP.StreamOrder(native, swap), Key)
  }

  /**
   `n` keyed elements are read from offset `off` as decoding and storing their keys would read them, from every
   input into every memory, if and only if the bytes are swapped, or the bulk copy is not taken after the first
   one, or it leaves no member out.
   */
  lemma BulkLoadExact(e: Type, n: nat, off: nat, native: Endian, swap: bool)
    requires WellFormed(e) && StartsSafe(e, n, off % MAX_ALIGN, Key) && n >= 2
    ensures (forall s: seq<Byte>, m: Mem, a: int | off <= |s| :: LoadsPlainly(e, n, s, off, native, swap, m, a))
            <==> swap || (TakesBulk(e, off, Key) ==> Whole(e))
  {
    hide TakesBulk, Whole, WellFormed, KeySafe, StartsSafe, LoadsPlainly;
    if swap || (TakesBulk(e, off, Key) ==> Whole(e)) {
      forall s: seq<Byte>, m: Mem, a: int | off <= |s|
        ensures LoadsPlainly(e, n, s, off, native, swap, m, a)
      {
        HarmlessLoad(e, n, s, off, native, swap, m, a);
      }
    } else {
      var s, m := LoadOverwrites(e, n, off, native);
      assert !LoadsPlainly(e, n, s, off, native, swap, m, 0);
    }
  }

  lemma HarmlessLoad(e: Type, n: nat, s: seq<Byte>, off: nat, native: Endian, swap: bool, m: Mem, a: int)
    requires off <= |s| && StartsSafe(e, n, off % MAX_ALIGN, Key) && n >= 2
    requires swap || (TakesBulk(e, off, Key) ==> Whole(e))
    ensures LoadsPlainly(e, n, s, off, native, swap, m, a)
  {
    hide RP.Load, RP.LoadMany, RP.PlainlyElems, Dec, Store, Whole, KeySafe, StartsSafe, Triv, AfterFirst;
    if Whole(e) {
      RP.LoadManyPlain(e, n, s, off, m, a, native, swap, Key);
    } else {
      FirstSafe(e, n, off % MAX_ALIGN, Key);
      RP.LoadIsPlain(e, s, off, m, a, native, swap, Key);
      var first := RP.Load(e, s, off, m, a, native, swap, Key);
      if first.Loaded? && !swap && ManyTriv(e, first.end) {
        EndsAfterFirst(e, s, off, Both(native), Key);
      }
      RP.LoadOneByOne(e, n, s, off, m, a, native, swap, Key);
    }
  }

  /** Otherwise some input overwrites a byte that is not part of any key. */
  lemma LoadOverwrites(e: Type, n: nat, off: nat, native: Endian) returns (s: seq<Byte>, m: Mem)
    requires WellFormed(e) && StartsSafe(e, n, off % MAX_ALIGN, Key) && n >= 2 && TakesBulk(e, off, Key) && !Whole(e)
    ensures off <= |s| && !LoadsPlainly(e, n, s, off, native, false, m, 0)
  {
    hide RP.Load, Dec, Store, Whole, KeySafe, StartsSafe, WellFormed, Triv, AfterFirst, Touches, Extent, Write,
      StoreElems, DecElems, RP.LoadElems, Input;
    var size, len := SizeOf(e), Extent(e, n - 1);
    var x := SomethingUntouched(e, AfterFirst(e, off, Key) % MAX_ALIGN, size);
    m := Write(EMPTY_MEM, x, [1]);
    s := Input(e, off, Both(native), Key, Zeros(len));
    InputDecodes(e, off, Both(native), Key, Zeros(len));
    FirstSafe(e, n, off % MAX_ALIGN, Key);
    RP.LoadIsPlain(e, s, off, m, 0, native, false, Key);
    var first := RP.Load(e, s, off, m, 0, native, false, Key);
    assert RP.LoadMany(e, n, s, off, m, 0, native, false, Key)
           == RP.Loaded(Write(first.mem, size, Zeros(len)), first.end + len);
    ExtentZero(e);
    ExtentMonotone(e, 1, n - 1);
    WriteAt(first.mem, size, Zeros(len), x);
    WriteAt(EMPTY_MEM, x, [1], x);
    OnlyElement(e, n, 1, 0, x, Key);
    var r := DecElems(e, n, s, off, Both(native), Key);
    if r.GoodSeq? {
      StoreElemsFrame(e, m, 0, r.vs, n, n, native, Key, x);
    }
  }

  /** Reading the keys of two pairs overwrites the second octet of the second pair, which is not part of a key. */
  lemma SecondPairOverwritten(s: seq<Byte>, m: Mem, native: Endian)
    requires |s| == 3
    ensures var pairs := Array(KEYED_PAIR, 2);
            var r := RP.Load(pairs, s, 0, m, 0, native, false, Key);
            && Built(pairs) && r.Loaded? && ByteAt(r.mem, 3) == s[2]
            && !Touches(pairs, 0, 3, Key)
  {
    hide Triv, Write, Touches, RP.LoadElems;
    var e := KEYED_PAIR;
    PairLoaded(s, m, native);
    PairTriv(1);
    PairTriv(3);
    var first := RP.Load(e, s, 0, m, 0, native, false, Key);
    assert Extent(e, 1) == 2 && Slice(s, 1, 2) == s[1..3];
    assert RP.LoadMany(e, 2, s, 0, m, 0, native, false, Key) == RP.Loaded(Write(first.mem, 2, Slice(s, 1, 2)), 3);
    WriteAt(first.mem, 2, Slice(s, 1, 2), 3);
    PairsUntouched();
  }

  lemma PairLoaded(s: seq<Byte>, m: Mem, native: Endian)
    requires |s| == 3
    ensures var r := RP.Load(KEYED_PAIR, s, 0, m, 0, native, false, Key); r.Loaded? && r.end == 1
  {
    hide RP.LoadMany, Triv, Write, DecU32;
    var e := KEYED_PAIR;
    assert e.members[0].isKey;
    assert Selected(e, 0, Key) && !Selected(e, 1, Key);
    assert RP.LoadMembers(e, 0, s, 0, m, 0, native, false, Key) == RP.Loaded(m, 0);
    var one := RP.LoadMembers(e, 1, s, 0, m, 0, native, false, Key);
    assert one == RP.Load(Prim(Octet), s, 0, m, 0, native, false, Key);
    assert one.Loaded? && one.end == 1;
  }

  lemma PairsUntouched()
    ensures !Touches(Array(KEYED_PAIR, 2), 0, 3, Key)
  {
    var e := KEYED_PAIR;
    assert e.members[0].isKey;
    forall i: nat | i < 2
      ensures !Touches(e, 0 + Extent(e, i), 3, Key)
    {
      assert !Selected(e, 1, Key);
      assert Extent(e, i) == 2 * i;
    }
  }

  // ---------------------------------------------------------------- how much of a key encoding is not padding

  function Nonzero(s: seq<Byte>): nat {
    if s == [] then 0 else Nonzero(s[..|s| - 1]) + if s[|s| - 1] != 0 then 1 else 0
  }

  lemma {:induction false} NonzeroConcat(s: seq<Byte>, u: seq<Byte>)
    ensures Nonzero(s + u) == Nonzero(s) + Nonzero(u)
    decreases |u|
  {
    if u == [] {
      assert s + u == s;
    } else {
      assert (s + u)[..|s + u| - 1] == s + u[..|u| - 1];
      NonzeroConcat(s, u[..|u| - 1]);
    }
  }

  lemma {:induction false} NonzeroAtMost(s: seq<Byte>)
    ensures Nonzero(s) <= |s|
    ensures (forall i :: 0 <= i < |s| ==> s[i] == 0) ==> Nonzero(s) == 0
    ensures (forall i :: 0 <= i < |s| ==> s[i] != 0) ==> Nonzero(s) == |s|
    decreases |s|
  {
    if s != [] {
      NonzeroAtMost(s[..|s| - 1]);
    }
  }

  /** The bytes of the primitives that a key walk visits. */
  function Content(t: Type): nat
    decreases t, 1, 0
  {
    match t
    case Prim(k) => k.SizeOf()
    case Struct(ms, _) => ContentOfMembers(t, |ms|)
    case Array(e, n) => n * Content(e)
    case _ => 0
  }

  function ContentOfMembers(t: Type, n: nat): nat
    requires t.Struct? && n <= |t.members|
    decreases t, 0, n
  {
    if n == 0 then 0
    else ContentOfMembers(t, n - 1) + if Selected(t, n - 1, Key) then Content(t.members[n - 1].ty) else 0
  }

  /** A key walk that leaves something out visits fewer bytes than the type has. */
  lemma {:induction false} ContentSmaller(t: Type, z: nat)
    requires WellFormed(t) && Triv(t, z)
    ensures Content(t) <= SizeOf(t)
    ensures !Whole(t) ==> Content(t) < SizeOf(t)
    decreases t, 1, 0
  {
    hide WellFormed, TrivMembers, ContentOfMembers;
    WellFormedBelow(t);
    match t
    case Struct(ms, _) => ContentOfMembersSmaller(t, z, |ms|);
    case Array(e, n) =>
      ContentSmaller(e, z % MAX_ALIGN);
      ContentTimes(t);
    case _ =>
  }

  lemma ContentTimes(t: Type)
    requires t.Array? && WellFormed(t) && Content(t.elem) <= SizeOf(t.elem)
    ensures Content(t) <= SizeOf(t)
    ensures Content(t.elem) < SizeOf(t.elem) ==> Content(t) < SizeOf(t)
  {
    hide WellFormed;
    assert t.count >= 1 by { WellFormedCount(t); }
    var d := SizeOf(t.elem) - Content(t.elem);
    assert SizeOf(t) - Content(t) == t.count * d;
  }

  lemma WellFormedCount(t: Type)
    requires t.Array? && WellFormed(t)
    ensures t.count >= 1
  {
  }

  lemma {:induction false} ContentOfMembersSmaller(t: Type, z: nat, n: nat)
    requires t.Struct? && WellFormed(t) && n <= |t.members| && TrivMembers(t, z % MAX_ALIGN, |t.members|)
    ensures ContentOfMembers(t, n) <= Packed(t, n)
    ensures (exists i :: 0 <= i < n && !(Selected(t, i, Key) && Whole(t.members[i].ty))) ==>
              ContentOfMembers(t, n) < Packed(t, n)
    decreases t, 0, n
  {
    hide WellFormed, Whole, Selected, Triv, Content, SizeOf;
    if n > 0 {
      WellFormedBelow(t);
      ContentOfMembersSmaller(t, z, n - 1);
      TrivMember(t, z % MAX_ALIGN, n - 1, |t.members|);
      ContentSmaller(t.members[n - 1].ty, (z % MAX_ALIGN + Packed(t, n - 1)) % MAX_ALIGN);
      SizePositive(t.members[n - 1].ty);
    }
  }

  /** No more bytes of a key encoding differ from zero than the primitives of the key have. */
  lemma {:induction false} ContentBounds(t: Type, z: nat, v: Value, off: nat, o: Orders, what: SampleOrKey)
    requires Triv(t, z) && HasType(v, t, what)
    ensures Nonzero(Enc(t, v, off, o, Key)) <= Content(t)
    decreases t, 1, 0
  {
    hide EncMembers, EncElems, TrivMembers, Pad, InOrder;
    match t
    case Prim(k) =>
      var p, b := Zeros(Pad(off, k.CdrSizeOf())), InOrder(v.raw, o.num);
      NonzeroConcat(p, b);
      NonzeroAtMost(p);
      NonzeroAtMost(b);
    case Struct(ms, _) => ContentOfMembersBounds(t, z, v.fields, |ms|, off, o, what);
    case Array(e, n) => ContentOfElemsBounds(e, z % MAX_ALIGN, v.elems, n, off, o, what);
    case _ =>
  }

  lemma {:induction false} ContentOfMembersBounds(
    t: Type, z: nat, vs: seq<Value>, n: nat, off: nat, o: Orders, what: SampleOrKey)
    requires t.Struct? && n <= |t.members| && n <= |vs| && TrivMembers(t, z % MAX_ALIGN, |t.members|)
    requires forall i :: 0 <= i < |t.members| && Selected(t, i, what) && i < |vs| ==>
               HasType(vs[i], t.members[i].ty, what)
    ensures Nonzero(EncMembers(t, vs, n, off, o, Key)) <= ContentOfMembers(t, n)
    decreases t, 0, n
  {
    hide Enc, HasType, Triv, Content;
    if n > 0 {
      ContentOfMembersBounds(t, z, vs, n - 1, off, o, what);
      if Selected(t, n - 1, Key) {
        var p := EncMembers(t, vs, n - 1, off, o, Key);
        TrivMember(t, z % MAX_ALIGN, n - 1, |t.members|);
        var y := (z % MAX_ALIGN + Packed(t, n - 1)) % MAX_ALIGN;
        ContentBounds(t.members[n - 1].ty, y, vs[n - 1], off + |p|, o, what);
        NonzeroConcat(p, Enc(t.members[n - 1].ty, vs[n - 1], off + |p|, o, Key));
      }
    }
  }

  lemma {:induction false} ContentOfElemsBounds(
    e: Type, z: nat, vs: seq<Value>, n: nat, off: nat, o: Orders, what: SampleOrKey)
    requires Triv(e, z) && n <= |vs| && forall i :: 0 <= i < |vs| ==> HasType(vs[i], e, what)
    ensures Nonzero(EncElems(e, vs, n, off, o, Key)) <= n * Content(e)
    decreases e, 2, n
  {
    hide Enc, HasType, Triv, Content;
    if n > 0 {
      ContentOfElemsBounds(e, z, vs, n - 1, off, o, what);
      var p := EncElems(e, vs, n - 1, off, o, Key);
      ContentBounds(e, z, vs[n - 1], off + |p|, o, what);
      NonzeroConcat(p, Enc(e, vs[n - 1], off + |p|, o, Key));
      assert n * Content(e) == (n - 1) * Content(e) + Content(e);
    }
  }

  // ---------------------------------------------------------------- extracting

  ghost predicate ExtractsPlainly(
    e: Type, n: nat, s: seq<Byte>, off: nat, dst: nat, x: KP.Orientation, mode: KP.ExtractKeyMode)
    requires off <= |s|
  {
    KP.ExtractMany(e, n, s, off, dst, x, mode) == KP.PlainlyElems(e, n, s, off, dst, x, mode)
  }

  /**
   From `n` keyed elements at offset `off` of a sample or of a key, extraction emits the plain encoding of their keys,
   for every input and wherever the output stands, if and only if input or output is swapped, or the bulk copy is
   not taken after the first element, or it leaves no member out.
   */
  lemma BulkExtractExact(e: Type, n: nat, off: nat, x: KP.Orientation, mode: KP.ExtractKeyMode)
    requires WellFormed(e) && StartsSafe(e, n, off % MAX_ALIGN, KP.SrcMode(mode)) && n >= 2 && !mode.Skip?
    ensures (forall s: seq<Byte>, dst: nat | off <= |s| :: ExtractsPlainly(e, n, s, off, dst, x, mode))
            <==> x.swapSrc || x.swapDst || (TakesBulk(e, off, KP.SrcMode(mode)) ==> Whole(e))
  {
    hide TakesBulk, Whole, WellFormed, KeySafe, StartsSafe, ExtractsPlainly;
    if x.swapSrc || x.swapDst || (TakesBulk(e, off, KP.SrcMode(mode)) ==> Whole(e)) {
      forall s: seq<Byte>, dst: nat | off <= |s|
        ensures ExtractsPlainly(e, n, s, off, dst, x, mode)
      {
        HarmlessExtract(e, n, s, off, dst, x, mode);
      }
    } else {
      var s := ExtractLeaks(e, n, off, x, mode);
      assert !ExtractsPlainly(e, n, s, off, 0, x, mode);
    }
  }

  lemma HarmlessExtract(
    e: Type, n: nat, s: seq<Byte>, off: nat, dst: nat, x: KP.Orientation, mode: KP.ExtractKeyMode)
    requires off <= |s| && WellFormed(e) && StartsSafe(e, n, off % MAX_ALIGN, KP.SrcMode(mode)) && n >= 2
    requires x.swapSrc || x.swapDst || (TakesBulk(e, off, KP.SrcMode(mode)) ==> Whole(e))
    ensures ExtractsPlainly(e, n, s, off, dst, x, mode)
  {
    hide KP.Extract, KP.ExtractMany, KP.PlainlyElems, Dec, Enc, Whole, KeySafe, StartsSafe, WellFormed, Triv,
      AfterFirst;
    if Whole(e) {
      KP.ExtractManyPlain(e, n, s, off, dst, x, mode);
    } else {
      FirstSafe(e, n, off % MAX_ALIGN, KP.SrcMode(mode));
      KP.ExtractIsPlain(e, s, off, dst, x, mode);
      var first := KP.Extract(e, s, off, dst, x, mode);
      if first.Extracted? && !x.swapSrc && !x.swapDst && ManyTriv(e, first.end) {
        EndsAfterFirst(e, s, off, Both(x.Src()), KP.SrcMode(mode));
      }
      KP.ExtractOneByOne(e, n, s, off, dst, x, mode);
    }
  }

  /** One element extracted plainly emits at most its content that is not zero. */
  lemma ElementContent(
    e: Type, z: nat, s: seq<Byte>, off: nat, dst: nat, x: KP.Orientation, mode: KP.ExtractKeyMode)
    requires off <= |s| && Triv(e, z) && !mode.Skip?
    ensures var r := KP.Plainly(e, s, off, dst, x, mode); r.Extracted? ==> Nonzero(r.out) <= Content(e)
  {
    hide Dec, Enc, HasType, Triv, Content;
    var o, what := Both(x.Src()), KP.SrcMode(mode);
    var d := Dec(e, s, off, o, what);
    if d.Good? {
      DecConsumesSize(e, s, off, o, what, o);
      ContentBounds(e, z, d.v, dst, x.Out(), what);
    }
  }

  /** So do the second and later elements. */
  lemma {:induction false} PlainContent(
    e: Type, z: nat, n: nat, s: seq<Byte>, off: nat, dst: nat, x: KP.Orientation, mode: KP.ExtractKeyMode)
    requires off <= |s| && Triv(e, z) && n >= 1 && !mode.Skip?
    ensures var first, r := KP.Plainly(e, s, off, dst, x, mode), KP.PlainlyElems(e, n, s, off, dst, x, mode);
            r.Extracted? ==> first.Extracted? && Nonzero(r.out) <= Nonzero(first.out) + Strides(n - 1, Content(e))
    decreases n
  {
    hide Triv, Content, Nonzero, Strides, KP.Plainly, KP.PlainlyElems;
    KP.PlainElemsStep(e, n, s, off, dst, x, mode);
    StridesStep(n - 1, Content(e));
    if n == 1 {
      KP.NoPlainElems(e, s, off, dst, x, mode);
      var first := KP.Plainly(e, s, off, dst, x, mode);
      assert first.Extracted? ==> [] + first.out == first.out;
    } else {
      PlainContent(e, z, n - 1, s, off, dst, x, mode);
      StridesStep(n - 2, Content(e));
      var p := KP.PlainlyElems(e, n - 1, s, off, dst, x, mode);
      if p.Extracted? {
        var r := KP.Plainly(e, s, p.end, dst + |p.out|, x, mode);
        if r.Extracted? {
          ElementContent(e, z, s, p.end, dst + |p.out|, x, mode);
          NonzeroConcat(p.out, r.out);
        }
      }
    }
  }

  /** Otherwise an input without zeros behind its first element makes extraction emit more than the key has. */
  lemma ExtractLeaks(e: Type, n: nat, off: nat, x: KP.Orientation, mode: KP.ExtractKeyMode) returns (s: seq<Byte>)
    requires WellFormed(e) && StartsSafe(e, n, off % MAX_ALIGN, KP.SrcMode(mode)) && n >= 2
    requires !mode.Skip? && !x.swapSrc && !x.swapDst
    requires TakesBulk(e, off, KP.SrcMode(mode)) && !Whole(e)
    ensures off <= |s| && !ExtractsPlainly(e, n, s, off, 0, x, mode)
  {
    hide KP.Extract, KP.PlainlyElems, KP.ExtractElems, Dec, Enc, Whole, KeySafe, StartsSafe, WellFormed, Triv,
      AfterFirst, Extent, Content, Nonzero, Input;
    var what, z := KP.SrcMode(mode), AfterFirst(e, off, KP.SrcMode(mode)) % MAX_ALIGN;
    var b := Ones(Extent(e, n - 1));
    s := Input(e, off, Both(x.Src()), what, b);
    InputDecodes(e, off, Both(x.Src()), what, b);
    FirstSafe(e, n, off % MAX_ALIGN, KP.SrcMode(mode));
    KP.ExtractIsPlain(e, s, off, 0, x, mode);
    var first := KP.Extract(e, s, off, 0, x, mode);
    assert KP.ExtractMany(e, n, s, off, 0, x, mode) == KP.Extracted(first.out + b, first.end + |b|);
    NonzeroConcat(first.out, b);
    NonzeroAtMost(b);
    PlainContent(e, z, n, s, off, 0, x, mode);
    ContentSmaller(e, z);
    FewerBytes(n - 1, Content(e), e);
  }

  lemma FewerBytes(k: nat, c: nat, e: Type)
    requires k > 0 && c < SizeOf(e)
    ensures Strides(k, c) < Extent(e, k)
  {
    Product(k, c, SizeOf(e));
  }

  lemma Product(k: nat, c: nat, d: nat)
    requires k > 0 && c < d
    ensures k * c < k * d
  {
  }

  // ---------------------------------------------------------------- the bound on extracted elements

  /** The keys of the elements in the input are within their bounds, as far as it has them. */
  ghost predicate InputInBounds(
    e: Type, n: nat, s: seq<Byte>, off: nat, x: KP.Orientation, mode: KP.ExtractKeyMode)
    requires off <= |s|
  {
    var r := DecElems(e, n, s, off, Both(x.Src()), KP.SrcMode(mode));
    r.GoodSeq? ==> forall i :: 0 <= i < n ==> InBounds(r.vs[i], e, Key)
  }

  ghost predicate ExtractFits(
    e: Type, n: nat, s: seq<Byte>, off: nat, dst: nat, x: KP.Orientation, mode: KP.ExtractKeyMode, extra: nat)
    requires off <= |s|
  {
    var r := KP.ExtractMany(e, n, s, off, dst, x, mode);
    r.Extracted? ==> dst + |r.out| <= EndMany(e, n, dst, Key, Max, extra)
  }

  /**
   What is extracted from `n` keyed elements within their bounds stays within the walk for the maximum, whatever the
   input, if and only if input or output is swapped, or the bulk copy is not taken after the first element, or what
   it copies is not more than that walk adds.
   */
  lemma BulkExtractBoundExact(
    e: Type, n: nat, off: nat, dst: nat, x: KP.Orientation, mode: KP.ExtractKeyMode, extra: nat)
    requires WellFormed(e) && StartsSafe(e, n, off % MAX_ALIGN, KP.SrcMode(mode)) && n >= 2 && !mode.Skip?
    ensures (forall s: seq<Byte> | off <= |s| && InputInBounds(e, n, s, off, x, mode) ::
               ExtractFits(e, n, s, off, dst, x, mode, extra))
            <==> x.swapSrc || x.swapDst
                 || (TakesBulk(e, off, KP.SrcMode(mode)) ==>
                       AfterFirst(e, dst, Key) + Extent(e, n - 1) <= EndMany(e, n, dst, Key, Max, extra))
  {
    hide ManyTriv, AfterFirst, WellFormed, KeySafe, StartsSafe, EndMany, Extent, InputInBounds, ExtractFits;
    var bulk := !x.swapSrc && !x.swapDst && TakesBulk(e, off, KP.SrcMode(mode));
    var fits := AfterFirst(e, dst, Key) + Extent(e, n - 1) <= EndMany(e, n, dst, Key, Max, extra);
    if bulk && !fits {
      var s := ExtractOverruns(e, n, off, dst, x, mode, extra);
      assert !ExtractFits(e, n, s, off, dst, x, mode, extra);
    } else {
      forall s: seq<Byte> | off <= |s| && InputInBounds(e, n, s, off, x, mode)
        ensures ExtractFits(e, n, s, off, dst, x, mode, extra)
      {
        if bulk {
          BulkFits(e, n, s, off, dst, x, mode, extra);
        } else {
          OneByOneFits(e, n, s, off, dst, x, mode, extra);
        }
      }
    }
  }

  lemma OneByOneFits(
    e: Type, n: nat, s: seq<Byte>, off: nat, dst: nat, x: KP.Orientation, mode: KP.ExtractKeyMode, extra: nat)
    requires WellFormed(e) && StartsSafe(e, n, off % MAX_ALIGN, KP.SrcMode(mode)) && n >= 2
    requires !mode.Skip? && off <= |s| && InputInBounds(e, n, s, off, x, mode)
    requires x.swapSrc || x.swapDst || !TakesBulk(e, off, KP.SrcMode(mode))
    ensures ExtractFits(e, n, s, off, dst, x, mode, extra)
  {
    hide KP.ExtractMany, Enc, EncElems, DecElems, EndMany, WellFormed, KeySafe, StartsSafe, TakesBulk, InBounds,
      Whole;
    HarmlessExtract(e, n, s, off, dst, x, mode);
    var r := DecElems(e, n, s, off, Both(x.Src()), KP.SrcMode(mode));
    if r.GoodSeq? {
      UpperBoundElems(e, r.vs, n, n, dst, dst, x.Out(), Key, extra);
    }
  }

  lemma BulkFits(
    e: Type, n: nat, s: seq<Byte>, off: nat, dst: nat, x: KP.Orientation, mode: KP.ExtractKeyMode, extra: nat)
    requires WellFormed(e) && StartsSafe(e, n, off % MAX_ALIGN, KP.SrcMode(mode)) && n >= 2 && !mode.Skip? && off <= |s|
    requires !x.swapSrc && !x.swapDst && TakesBulk(e, off, KP.SrcMode(mode))
    requires AfterFirst(e, dst, Key) + Extent(e, n - 1) <= EndMany(e, n, dst, Key, Max, extra)
    ensures ExtractFits(e, n, s, off, dst, x, mode, extra)
  {
    hide KP.ExtractMany, WellFormed, KeySafe, StartsSafe, Extent, EndMany, AfterFirst, TakesBulk;
    BulkExtractLength(e, n, s, off, dst, x, mode);
  }

  /** How long the output of the bulk copy is. */
  lemma BulkExtractLength(
    e: Type, n: nat, s: seq<Byte>, off: nat, dst: nat, x: KP.Orientation, mode: KP.ExtractKeyMode)
    requires WellFormed(e) && StartsSafe(e, n, off % MAX_ALIGN, KP.SrcMode(mode)) && n >= 2 && !mode.Skip? && off <= |s|
    requires !x.swapSrc && !x.swapDst && TakesBulk(e, off, KP.SrcMode(mode))
    ensures var r := KP.ExtractMany(e, n, s, off, dst, x, mode);
            r.Extracted? ==> dst + |r.out| == AfterFirst(e, dst, Key) + Extent(e, n - 1)
  {
    hide KP.Extract, Enc, Dec, HasType, WellFormed, KeySafe, StartsSafe, Extent, KP.ExtractElems, End, Triv;
    FirstSafe(e, n, off % MAX_ALIGN, KP.SrcMode(mode));
    KP.ExtractIsPlain(e, s, off, dst, x, mode);
    var first := KP.Extract(e, s, off, dst, x, mode);
    if first.Extracted? {
      var o, what := Both(x.Src()), KP.SrcMode(mode);
      var z := AfterFirst(e, off, what) % MAX_ALIGN;
      var v := Dec(e, s, off, o, what).v;
      DecConsumesSize(e, s, off, o, what, o);
      FlatEnd(e, z, v, off, o, what);
      FlatTypedKey(e, z, v, what);
      FlatEnd(e, z, v, dst, x.Out(), Key);
    }
  }

  lemma {:induction false} FlatTypedKey(t: Type, z: nat, v: Value, what: SampleOrKey)
    requires Triv(t, z) && HasType(v, t, what)
    ensures HasType(v, t, Key) && InBounds(v, t, Key)
    decreases t
  {
    match t
    case Struct(ms, _) =>
      forall i | 0 <= i < |ms| && Selected(t, i, Key)
        ensures HasType(v.fields[i], ms[i].ty, Key) && InBounds(v.fields[i], ms[i].ty, Key)
      {
        assert Selected(t, i, what);
        TrivMember(t, z % MAX_ALIGN, i, |ms|);
        FlatTypedKey(ms[i].ty, (z % MAX_ALIGN + Packed(t, i)) % MAX_ALIGN, v.fields[i], what);
      }
    case Array(e, n) =>
      forall i | 0 <= i < n
        ensures HasType(v.elems[i], e, Key) && InBounds(v.elems[i], e, Key)
      {
        FlatTypedKey(e, z % MAX_ALIGN, v.elems[i], what);
      }
    case _ =>
  }

  /** An input within its bounds whose extracted elements exceed the walk. */
  lemma ExtractOverruns(
    e: Type, n: nat, off: nat, dst: nat, x: KP.Orientation, mode: KP.ExtractKeyMode, extra: nat)
    returns (s: seq<Byte>)
    requires WellFormed(e) && StartsSafe(e, n, off % MAX_ALIGN, KP.SrcMode(mode)) && n >= 2
    requires !mode.Skip? && !x.swapSrc && !x.swapDst
    requires TakesBulk(e, off, KP.SrcMode(mode))
    requires AfterFirst(e, dst, Key) + Extent(e, n - 1) > EndMany(e, n, dst, Key, Max, extra)
    ensures off <= |s| && InputInBounds(e, n, s, off, x, mode) && !ExtractFits(e, n, s, off, dst, x, mode, extra)
  {
    hide KP.Extract, Dec, Enc, WellFormed, KeySafe, StartsSafe, Triv, End, EndMany, Extent, Input, KP.ExtractElems,
      InBounds, HasType, DecElems;
    var o, what, z := Both(x.Src()), KP.SrcMode(mode), AfterFirst(e, off, KP.SrcMode(mode)) % MAX_ALIGN;
    s := Input(e, off, o, what, Zeros(Extent(e, n - 1)));
    InputDecodes(e, off, o, what, Zeros(Extent(e, n - 1)));
    FirstSafe(e, n, off % MAX_ALIGN, KP.SrcMode(mode));
    KP.ExtractIsPlain(e, s, off, dst, x, mode);
    BulkExtractLength(e, n, s, off, dst, x, mode);
    var r := DecElems(e, n, s, off, o, what);
    if r.GoodSeq? {
      assert r.vs[..n] == r.vs;
      DecElemsConsume(e, n, r.vs, s, off, o, what, o);
      forall i | 0 <= i < n ensures InBounds(r.vs[i], e, Key) { FlatTypedKey(e, z, r.vs[i], what); }
    }
  }

  // ---------------------------------------------------------------- pairs

  /** From a sample of two pairs three bytes are extracted, of which the last is not part of a key. */
  lemma SecondPairExtracted(s: seq<Byte>, native: Endian)
    requires |s| == 4
    ensures Built(Array(KEYED_PAIR, 2))
    ensures KP.Extract(Array(KEYED_PAIR, 2), s, 0, 0, KP.Orientation(native, false, false), KP.FromSample)
            == KP.Extracted([s[0], s[2], s[3]], 4)
  {
    hide KP.Extract;
    PairsExtracted(2, s, native, KP.FromSample);
    assert Slice(s, 2, 2) == [s[2], s[3]];
  }

  /** Of `n` pairs, in a sample or in what the writer makes of their key, all but the first come out whole. */
  lemma PairsExtracted(n: nat, s: seq<Byte>, native: Endian, mode: KP.ExtractKeyMode)
    requires n >= 2 && !mode.Skip? && |s| >= 2 * n - if mode.FromKey? then 1 else 0
    ensures var w := if mode.FromKey? then 1 else 2;
            KP.Extract(Array(KEYED_PAIR, n), s, 0, 0, KP.Orientation(native, false, false), mode)
            == KP.Extracted([s[0]] + Slice(s, w, 2 * n - 2), w + 2 * n - 2)
  {
    hide Triv, KP.ExtractElems, KP.Extract;
    var e, x, w := KEYED_PAIR, KP.Orientation(native, false, false), if mode.FromKey? then 1 else 2;
    PairExtracted(s, native, mode);
    PairTriv(w);
    PairTriv(w + 2);
    assert Extent(e, n - 1) == 2 * n - 2;
    assert KP.ExtractMany(e, n, s, 0, 0, x, mode)
           == KP.Extracted([s[0]] + Slice(s, w, 2 * n - 2), w + 2 * n - 2);
    ExtractArray(e, n, s, x, mode);
  }

  lemma ExtractArray(e: Type, n: nat, s: seq<Byte>, x: KP.Orientation, mode: KP.ExtractKeyMode)
    requires !mode.Skip?
    ensures KP.Extract(Array(e, n), s, 0, 0, x, mode) == KP.ExtractMany(e, n, s, 0, 0, x, mode)
  {
    hide KP.ExtractMany;
  }

  lemma PairExtracted(s: seq<Byte>, native: Endian, mode: KP.ExtractKeyMode)
    requires |s| >= 2 && !mode.Skip?
    ensures KP.Extract(KEYED_PAIR, s, 0, 0, KP.Orientation(native, false, false), mode)
            == KP.Extracted([s[0]], if mode.FromKey? then 1 else 2)
  {
    hide KP.ExtractMany, DecU32, EncU32, WideBytes, EncMembers, EncElems;
    var e, x := KEYED_PAIR, KP.Orientation(native, false, false);
    assert e.members[0].isKey;
    assert Selected(e, 0, Key) && !Selected(e, 1, Key);
    OctetExtracted(s, native, mode);
    OctetSkipped(s, native);
    assert KP.ExtractMembers(e, 0, s, 0, 0, x, mode) == KP.Extracted([], 0);
    assert KP.ExtractMembers(e, 1, s, 0, 0, x, mode) == KP.Extracted([] + [s[0]], 1);
    assert mode.FromSample? ==> KP.ExtractMembers(e, 2, s, 0, 0, x, mode) == KP.Extracted([s[0]] + [], 2);
  }

  lemma OctetExtracted(s: seq<Byte>, native: Endian, mode: KP.ExtractKeyMode)
    requires |s| >= 2 && !mode.Skip?
    ensures KP.Extract(Prim(Octet), s, 0, 0, KP.Orientation(native, false, false), mode) == KP.Extracted([s[0]], 1)
  {
    hide KP.ExtractMany, KP.ExtractMembers, DecU32, EncU32, WideBytes, EncMembers, EncElems, InOrder, Triv;
    InOrderTwice(Slice(s, 0, 1), native);
    assert Zeros(0) == [] && Slice(s, 0, 1) == [s[0]];
    var r := DecLeaf(Prim(Octet), s, 0, Both(native));
    assert r == Good(VPrim(InOrder([s[0]], native)), 1);
  }

  lemma OctetSkipped(s: seq<Byte>, native: Endian)
    requires |s| >= 2
    ensures KP.Extract(Prim(Octet), s, 1, 1, KP.Orientation(native, false, false), KP.Skip) == KP.Extracted([], 2)
  {
    hide KP.ExtractMany, KP.ExtractMembers, DecLeaf, Enc;
    assert Triv(Prim(Octet), 1);
  }
}
