/** The growing output of key extraction and the extracting half of the CDR reader. */
module KeyReader {
  import opened Bytes
  import opened Types
  import opened TrivCache
  import opened Cdr
  import opened ReaderPaths
  import opened Reader
  import opened CdrWriter
  import opened CdrReader
  import KP = KeyPaths

  /** A cursor that appends to a byte vector; `pos` is the offset that alignment is computed from. */
  class ByteVectorCursor {
    var pos: nat
    var data: seq<Byte>

    constructor ()
      ensures pos == 0 && data == []
    {
      pos, data := 0, [];
    }

    method PutBytes(b: seq<Byte>)
      modifies this
      ensures data == old(data) + b && pos == old(pos) + |b|
    {
      if |b| > 0 {
        data := data + b;
        pos := pos + |b|;
      }
    }

    method Align(w: nat)
      requires IsAlign(w)
      modifies this
      ensures data == old(data) + Zeros(Pad(old(pos), w)) && pos == old(pos) + Pad(old(pos), w)
    {
      if w == 1 || pos % w == 0 {
        assert Zeros(Pad(pos, w)) == [];
        return;
      }
      PutBytes(Zeros(w - pos % w));
    }

    method Rebase(d: int)
      requires d <= pos
      modifies this`pos
      ensures pos == old(pos) - d
    {
      pos := pos - d;
    }

    /** A number given in native order, byte-swapped in place if `swap`. */
    method PutU32(n: nat, native: Endian, swap: bool)
      modifies this
      ensures data == old(data) + EncU32(n, old(pos), StreamOrder(native, swap))
      ensures pos == old(pos) + Pad(old(pos), 4) + 4
    {
      Align(4);
      var b := U32(n, native);
      InOrderOther(Numeral32(n), native);
      PutBytes(if swap then Reverse(b) else b);
    }

    method PutCounted(n: nat, b: seq<Byte>, native: Endian, swap: bool)
      modifies this
      ensures var r := EncU32(n, old(pos), StreamOrder(native, swap)) + b;
              data == old(data) + r && pos == old(pos) + |r|
    {
      hide EncU32;
      PutU32(n, native, swap);
      PutBytes(b);
    }
  }

  // ---------------------------------------------------------------- counted leaves

  /** Bytes that are in source order end up in destination order by at most one swap. */
  lemma Reordered(b: seq<Byte>, x: KP.Orientation)
    ensures InOrder(InOrder(b, x.Src()), x.Dst()) == if x.swapSrc != x.swapDst then Reverse(b) else b
  {
    ReverseTwice(b);
  }

  /** What extraction of a primitive yields. */
  lemma ExtractPrim(t: Type, s: seq<Byte>, off: nat, dst: nat, x: KP.Orientation, mode: KP.ExtractKeyMode)
    requires t.Prim? && off <= |s| && !(mode.Skip? && Triv(t, off))
    ensures var w := t.kind.CdrSizeOf();
            KP.Extract(t, s, off, dst, x, mode)
            == if !CanFetch(s, off, w) then KP.Refused
               else
                 var b := Slice(s, off + Pad(off, w), w);
                 KP.Extracted(
                   KP.Emit(mode, Zeros(Pad(dst, w)) + InOrder(InOrder(b, x.Src()), x.Dst())), off + Pad(off, w) + w)
  {
    hide KP.ExtractMembers, KP.ExtractMany, EncMembers, EncElems, EncU32, DecLeaf, Slice, Pad, Triv, Zeros,
      InOrder, KP.Orientation.Src, KP.Orientation.Dst;
    PrimDecoded(t, s, off, x.Src());
  }

  lemma PrimDecoded(t: Type, s: seq<Byte>, off: nat, e: Endian)
    requires t.Prim? && off <= |s|
    ensures var w := t.kind.CdrSizeOf();
            DecLeaf(t, s, off, Both(e))
            == if CanFetch(s, off, w)
               then Good(VPrim(InOrder(Slice(s, off + Pad(off, w), w), e)), off + Pad(off, w) + w)
               else Bad
  {
    hide Slice, Pad, InOrder;
  }

  /** What extraction of a string yields. */
  lemma ExtractStr(t: Type, s: seq<Byte>, off: nat, dst: nat, x: KP.Orientation, mode: KP.ExtractKeyMode)
    requires t.Str? && off <= |s|
    ensures var c := DecU32(s, off, x.Src());
            KP.Extract(t, s, off, dst, x, mode)
            == if c.BadWord? || c.n == 0 || c.end + c.n > |s| || Slice(s, c.end, c.n)[c.n - 1] != 0 then KP.Refused
               else KP.Extracted(KP.Emit(mode, EncU32(c.n, dst, x.Dst()) + Slice(s, c.end, c.n)), c.end + c.n)
  {
    hide DecU32, EncU32, Slice;
    var c := DecU32(s, off, x.Src());
    if c.GoodWord? && c.n > 0 && c.end + c.n <= |s| {
      var b := Slice(s, c.end, c.n);
      if b[c.n - 1] == 0 {
        assert b == b[..c.n - 1] + [0];
        assert EncU32(c.n, dst, x.Dst()) + b[..c.n - 1] + [0] == EncU32(c.n, dst, x.Dst()) + b;
      }
    }
  }

  /** What extraction of a wide string yields: the characters come out native whatever the output order. */
  lemma ExtractWide(t: Type, s: seq<Byte>, off: nat, dst: nat, x: KP.Orientation, mode: KP.ExtractKeyMode)
    requires t.WStr? && off <= |s|
    ensures var c := DecU32(s, off, x.Src());
            KP.Extract(t, s, off, dst, x, mode)
            == if c.BadWord? || c.n % 2 != 0 || c.end + c.n > |s| then KP.Refused
               else
                 var chars := WideBytes(UnitsOf(Slice(s, c.end, c.n), x.Src()), x.native);
                 KP.Extracted(KP.Emit(mode, EncU32(c.n, dst, x.Dst()) + chars), c.end + c.n)
  {
    hide DecU32, EncU32, Slice, WideBytes, UnitsOf;
  }

  lemma ExtractBools(t: Type, s: seq<Byte>, off: nat, dst: nat, x: KP.Orientation, mode: KP.ExtractKeyMode)
    requires t.BoolVec? && off <= |s|
    ensures var c := DecU32(s, off, x.Src());
            KP.Extract(t, s, off, dst, x, mode)
            == if c.BadWord? || c.end + c.n > |s| then KP.Refused
               else KP.Extracted(KP.Emit(mode, EncU32(c.n, dst, x.Dst()) + Slice(s, c.end, c.n)), c.end + c.n)
  {
    hide DecU32, EncU32, Slice;
  }

  /** `ok` and the state of both cursors are what `r` says. */
  ghost predicate Yields(
    ok: bool, src: DeserializeCursor, dst: ByteVectorCursor, data: seq<Byte>, pos: nat, r: KP.Extraction)
    requires src.Valid()
    reads src, dst
  {
    ok == r.Extracted?
    && (ok ==> dst.data == data + r.out && dst.pos == pos + |r.out| && src.Offset() == r.end)
  }

  lemma {:induction false} MembersRefuse(
    t: Type, i: nat, n: nat, s: seq<Byte>, off: nat, dst: nat, x: KP.Orientation, mode: KP.ExtractKeyMode)
    requires t.Struct? && i <= n <= |t.members| && off <= |s|
    ensures KP.ExtractMembers(t, i, s, off, dst, x, mode).Refused? ==>
              KP.ExtractMembers(t, n, s, off, dst, x, mode).Refused?
    decreases n
  {
    hide KP.Extract, KP.MemberMode;
    if i < n {
      MembersRefuse(t, i, n - 1, s, off, dst, x, mode);
    }
  }

  lemma {:induction false} ElemsRefuse(
    e: Type, i: nat, n: nat, s: seq<Byte>, off: nat, dst: nat, x: KP.Orientation, mode: KP.ExtractKeyMode)
    requires i <= n && off <= |s|
    ensures KP.ExtractElems(e, i, s, off, dst, x, mode).Refused? ==>
              KP.ExtractElems(e, n, s, off, dst, x, mode).Refused?
    decreases n
  {
    hide KP.Extract;
    if i < n {
      ElemsRefuse(e, i, n - 1, s, off, dst, x, mode);
    }
  }

  class KeyExtractor {
    const tsc: Cache
    const x: KP.Orientation

    constructor (tsc: Cache, x: KP.Orientation)
      ensures this.tsc == tsc && this.x == x
    {
      this.tsc, this.x := tsc, x;
    }

    /** False stands for an exception. */
    method Any(src: DeserializeCursor, dst: ByteVectorCursor, t: Type, mode: KP.ExtractKeyMode) returns (ok: bool)
      requires Filled(tsc, t) && src.Valid()
      modifies src`position, dst
      ensures src.Valid()
      ensures Yields(ok, src, dst, old(dst.data), old(dst.pos),
                KP.Extract(t, src.Payload(), old(src.Offset()), old(dst.pos), x, mode))
      decreases t, 2
    {
      hide KP.ExtractMembers, KP.ExtractMany, Triv, DecLeaf, Enc, Slice, DecU32;
      if mode.Skip? && LookupTriv(tsc, src.Offset(), t) {
        var b := src.Take(SizeOf(t));
        ok := b.Some?;
      } else {
        match t {
          case Struct(_, _) => ok := Members(src, dst, t, mode);
          case Array(e, n) => ok := Many(src, dst, n, e, mode);
          case Sequence(_, _, _) => ok := Elements(src, dst, t, mode);
          case Prim(_) => ok := Primitive(src, dst, t, mode);
          case Str(_, _) => ok := String(src, dst, t, mode);
          case WStr(_, _) => ok := WideString(src, dst, t, mode);
          case BoolVec(_, _) => ok := BoolVector(src, dst, t, mode);
        }
      }
    }

    method Primitive(src: DeserializeCursor, dst: ByteVectorCursor, t: Type, mode: KP.ExtractKeyMode)
      returns (ok: bool)
      requires t.Prim? && src.Valid() && !(mode.Skip? && Triv(t, src.Offset()))
      modifies src`position, dst
      ensures src.Valid()
      ensures Yields(ok, src, dst, old(dst.data), old(dst.pos),
                KP.Extract(t, src.Payload(), old(src.Offset()), old(dst.pos), x, mode))
    {
      hide Triv, Slice, Pad, KP.Extract, Zeros, InOrder, KP.Orientation.Src, KP.Orientation.Dst;
      var w := t.kind.CdrSizeOf();
      ExtractPrim(t, src.Payload(), src.Offset(), dst.pos, x, mode);
      var b := src.TakeAligned(w, w);
      if b.None? {
        return false;
      }
      if !mode.Skip? {
        Reordered(b.value, x);
        dst.Align(w);
        dst.PutBytes(if x.swapSrc != x.swapDst then Reverse(b.value) else b.value);
      }
      ok := true;
    }

    method String(src: DeserializeCursor, dst: ByteVectorCursor, t: Type, mode: KP.ExtractKeyMode)
      returns (ok: bool)
      requires t.Str? && src.Valid()
      modifies src`position, dst
      ensures src.Valid()
      ensures Yields(ok, src, dst, old(dst.data), old(dst.pos),
                KP.Extract(t, src.Payload(), old(src.Offset()), old(dst.pos), x, mode))
    {
      hide KP.Extract, DecU32, Slice, EncU32, WideBytes, UnitsOf;
      ExtractStr(t, src.Payload(), src.Offset(), dst.pos, x, mode);
      var size := src.TakeU32(x.native, x.swapSrc);
      if size.None? || size.value == 0 {
        return false;
      }
      var b := src.Take(size.value);
      if b.None? || b.value[size.value - 1] != 0 {
        return false;
      }
      if !mode.Skip? {
        dst.PutCounted(size.value, b.value, x.native, x.swapDst);
      }
      ok := true;
    }

    method WideString(src: DeserializeCursor, dst: ByteVectorCursor, t: Type, mode: KP.ExtractKeyMode)
      returns (ok: bool)
      requires t.WStr? && src.Valid()
      modifies src`position, dst
      ensures src.Valid()
      ensures Yields(ok, src, dst, old(dst.data), old(dst.pos),
                KP.Extract(t, src.Payload(), old(src.Offset()), old(dst.pos), x, mode))
    {
      hide KP.Extract, DecU32, Slice, EncU32, WideBytes, UnitsOf;
      ExtractWide(t, src.Payload(), src.Offset(), dst.pos, x, mode);
      var size := src.TakeU32(x.native, x.swapSrc);
      if size.None? || size.value % 2 != 0 {
        return false;
      }
      var b := src.Take(size.value);
      if b.None? {
        return false;
      }
      if !mode.Skip? {
        var chars := b.value;
        if x.swapSrc {
          chars := SwapPairs(chars);
        }
        CharactersGoNative(b.value, chars, x);
        dst.PutCounted(size.value, chars, x.native, x.swapDst);
      }
      ok := true;
    }

    method SwapPairs(b: seq<Byte>) returns (r: seq<Byte>)
      requires |b| % 2 == 0
      ensures |r| == |b|
      ensures forall i :: 0 <= i < |b| / 2 ==> r[2 * i] == b[2 * i + 1] && r[2 * i + 1] == b[2 * i]
    {
      r := b;
      var i := 0;
      while i < |b| / 2
        invariant 0 <= i <= |b| / 2 && |r| == |b|
        invariant forall j :: 0 <= j < i ==> r[2 * j] == b[2 * j + 1] && r[2 * j + 1] == b[2 * j]
        invariant forall j :: 2 * i <= j < |b| ==> r[j] == b[j]
      {
        r := r[2 * i := b[2 * i + 1]][2 * i + 1 := b[2 * i]];
        i := i + 1;
      }
    }

    method BoolVector(src: DeserializeCursor, dst: ByteVectorCursor, t: Type, mode: KP.ExtractKeyMode)
      returns (ok: bool)
      requires t.BoolVec? && src.Valid()
      modifies src`position, dst
      ensures src.Valid()
      ensures Yields(ok, src, dst, old(dst.data), old(dst.pos),
                KP.Extract(t, src.Payload(), old(src.Offset()), old(dst.pos), x, mode))
    {
      hide KP.Extract, DecU32, Slice, EncU32, WideBytes, UnitsOf;
      ExtractBools(t, src.Payload(), src.Offset(), dst.pos, x, mode);
      var count := src.TakeU32(x.native, x.swapSrc);
      if count.None? {
        return false;
      }
      var b := src.Take(count.value);
      if b.None? {
        return false;
      }
      if !mode.Skip? {
        dst.PutCounted(count.value, b.value, x.native, x.swapDst);
      }
      ok := true;
    }

    method Members(src: DeserializeCursor, dst: ByteVectorCursor, t: Type, mode: KP.ExtractKeyMode)
      returns (ok: bool)
      requires t.Struct? && Filled(tsc, t) && src.Valid()
      modifies src`position, dst
      ensures src.Valid()
      ensures Yields(ok, src, dst, old(dst.data), old(dst.pos),
                KP.ExtractMembers(t, |t.members|, src.Payload(), old(src.Offset()), old(dst.pos), x, mode))
      decreases t, 1
    {
      hide KP.Extract, Selected;
      ghost var s, off, data, pos := src.Payload(), src.Offset(), dst.data, dst.pos;
      var allFieldsAreKey := !HasKeys(t);
      var i := 0;
      while i < |t.members|
        invariant 0 <= i <= |t.members| && src.Valid()
        invariant Yields(true, src, dst, data, pos, KP.ExtractMembers(t, i, s, off, pos, x, mode))
      {
        SelectedMeans(t, i, Key);
        ok := Field(src, dst, t, i, allFieldsAreKey, mode, s, off, data, pos);
        if !ok {
          MembersRefuse(t, i + 1, |t.members|, s, off, pos, x, mode);
          return;
        }
        i := i + 1;
      }
      ok := true;
    }

    /** Member `i`, when the members before it are done. */
    method Field(
      src: DeserializeCursor, dst: ByteVectorCursor, t: Type, i: nat, allFieldsAreKey: bool, mode: KP.ExtractKeyMode,
      ghost s: seq<Byte>, ghost off: nat, ghost data: seq<Byte>, ghost pos: nat)
      returns (ok: bool)
      requires t.Struct? && Filled(tsc, t) && src.Valid() && i < |t.members|
      requires (t.members[i].isKey || allFieldsAreKey) == Selected(t, i, Key)
      requires s == src.Payload() && off <= |s|
      requires Yields(true, src, dst, data, pos, KP.ExtractMembers(t, i, s, off, pos, x, mode))
      modifies src`position, dst
      ensures src.Valid()
      ensures Yields(ok, src, dst, data, pos, KP.ExtractMembers(t, i + 1, s, off, pos, x, mode))
      decreases t, 0
    {
      hide KP.Extract, Selected;
      var inKey := t.members[i].isKey || allFieldsAreKey;
      ok := true;
      match mode {
        case Skip => ok := Any(src, dst, t.members[i].ty, mode);
        case FromKey =>
          if inKey {
            ok := Any(src, dst, t.members[i].ty, mode);
          }
        case FromSample =>
          ok := Any(src, dst, t.members[i].ty, if inKey then mode else KP.Skip);
      }
    }

    method Elements(src: DeserializeCursor, dst: ByteVectorCursor, t: Type, mode: KP.ExtractKeyMode)
      returns (ok: bool)
      requires t.Sequence? && Filled(tsc, t) && src.Valid()
      modifies src`position, dst
      ensures src.Valid()
      ensures Yields(ok, src, dst, old(dst.data), old(dst.pos),
                KP.Extract(t, src.Payload(), old(src.Offset()), old(dst.pos), x, mode))
      decreases t, 1
    {
      hide KP.ExtractMany, DecU32, EncU32;
      var count := src.TakeU32(x.native, x.swapSrc);
      if count.None? {
        return false;
      }
      ghost var data, pos := dst.data, dst.pos;
      ghost var head := KP.Emit(mode, EncU32(count.value, pos, x.Dst()));
      if !mode.Skip? {
        dst.PutU32(count.value, x.native, x.swapDst);
      }
      assert dst.data == data + head && dst.pos == pos + |head|;
      ok := Many(src, dst, count.value, t.elem, mode);
    }

    method Many(src: DeserializeCursor, dst: ByteVectorCursor, n: nat, e: Type, mode: KP.ExtractKeyMode)
      returns (ok: bool)
      requires Filled(tsc, e) && src.Valid()
      modifies src`position, dst
      ensures src.Valid()
      ensures Yields(ok, src, dst, old(dst.data), old(dst.pos),
                KP.ExtractMany(e, n, src.Payload(), old(src.Offset()), old(dst.pos), x, mode))
      decreases e, 5
    {
      hide KP.Extract, KP.ExtractElems, ManyTriv, Extent, Slice, SizeOf, Filled;
      if n == 0 {
        return true;
      }
      ghost var s, off, data, pos := src.Payload(), src.Offset(), dst.data, dst.pos;
      ok := Any(src, dst, e, mode);
      if !ok || n == 1 {
        return;
      }
      if !(x.swapSrc || x.swapDst) && LookupManyTriv(tsc, src.Offset(), e) {
        var b := src.Take(Extent(e, n - 1));
        if b.Some? && !mode.Skip? {
          dst.PutBytes(b.value);
        }
        ok := b.Some?;
      } else {
        KP.ExtractElemsFirst(e, 1, s, off, pos, x, mode);
        ok := Rest(src, dst, n, e, mode, s, off, data, pos);
      }
    }

    /** The second and later elements, one by one. */
    method Rest(
      src: DeserializeCursor, dst: ByteVectorCursor, n: nat, e: Type, mode: KP.ExtractKeyMode,
      ghost s: seq<Byte>, ghost off: nat, ghost data: seq<Byte>, ghost pos: nat)
      returns (ok: bool)
      requires Filled(tsc, e) && src.Valid() && n > 1 && s == src.Payload() && off <= |s|
      requires Yields(true, src, dst, data, pos, KP.ExtractElems(e, 1, s, off, pos, x, mode))
      modifies src`position, dst
      ensures src.Valid()
      ensures Yields(ok, src, dst, data, pos, KP.ExtractElems(e, n, s, off, pos, x, mode))
      decreases e, 4
    {
      hide KP.Extract;
      var i := 1;
      while i < n
        invariant 1 <= i <= n && src.Valid()
        invariant Yields(true, src, dst, data, pos, KP.ExtractElems(e, i, s, off, pos, x, mode))
      {
        ok := Next(src, dst, i, e, mode, s, off, data, pos);
        if !ok {
          ElemsRefuse(e, i + 1, n, s, off, pos, x, mode);
          return;
        }
        i := i + 1;
      }
      ok := true;
    }

    /** Element `i`, when the elements before it are done. */
    method Next(
      src: DeserializeCursor, dst: ByteVectorCursor, i: nat, e: Type, mode: KP.ExtractKeyMode,
      ghost s: seq<Byte>, ghost off: nat, ghost data: seq<Byte>, ghost pos: nat)
      returns (ok: bool)
      requires Filled(tsc, e) && src.Valid() && s == src.Payload() && off <= |s|
      requires Yields(true, src, dst, data, pos, KP.ExtractElems(e, i, s, off, pos, x, mode))
      modifies src`position, dst
      ensures src.Valid()
      ensures Yields(ok, src, dst, data, pos, KP.ExtractElems(e, i + 1, s, off, pos, x, mode))
      decreases e, 3
    {
      hide KP.Extract;
      ok := Any(src, dst, e, mode);
    }
  }

  lemma CharactersGoNative(b: seq<Byte>, chars: seq<Byte>, x: KP.Orientation)
    requires |b| % 2 == 0 && |chars| == |b|
    requires !x.swapSrc ==> chars == b
    requires x.swapSrc ==>
               forall i :: 0 <= i < |b| / 2 ==> chars[2 * i] == b[2 * i + 1] && chars[2 * i + 1] == b[2 * i]
    ensures WideBytes(UnitsOf(b, x.Src()), x.native) == chars
  {
    var units := UnitsOf(b, x.Src());
    if x.swapSrc {
      var r := WideBytes(units, x.native);
      forall j | 0 <= j < |b|
        ensures r[j] == chars[j]
      {
        var i := j / 2;
        assert j == 2 * i || j == 2 * i + 1;
      }
    } else {
      UnitsRoundTrip(b, x.native);
    }
  }

  // ---------------------------------------------------------------- whole streams

  /** What is skipped between the encoding header and the body of a request: half of the request header. */
  function SkippedHeader(variant: SampleOrRequest, what: SampleOrKey): nat {
    if what.Sample? && variant.Request? then 8 else 0
  }

  /**
   The serialized key extracted from `cdr`, `None` for an exception. Without key members nothing is emitted.
   `swapDst` asks for output in the other byte order.
   */
  function ExtractStream(
    root: Type, variant: SampleOrRequest, cdr: seq<Byte>, native: Endian, swapDst: bool, what: SampleOrKey)
    : Option<seq<Byte>>
    requires root.Struct?
  {
    if !HasKeys(root) then Some([])
    else if |cdr| < 4 || !HeaderKnown(cdr[..4]) then None
    else
      var s := cdr[4..];
      var x := KP.Orientation(native, HeaderSwap(cdr[..4], native), swapDst);
      var skipped := SkippedHeader(variant, what);
      if |s| < skipped then None
      else
        var r := KP.Extract(root, s, skipped, 0, x, if what.Key? then KP.FromKey else KP.FromSample);
        if r.Refused? then None else Some(EncodingHeader(x.Dst()) + r.out)
  }

  class KeyCDRReader {
    const root: Type
    const tsc: Cache
    const variant: SampleOrRequest
    const native: Endian

    ghost predicate Valid() {
      root.Struct? && Filled(tsc, root)
    }

    constructor (root: Type, variant: SampleOrRequest, native: Endian)
      requires root.Struct?
      ensures Valid() && this.root == root && this.variant == variant && this.native == native
    {
      var c := new TriviallySerializedCache(root);
      this.root, this.variant, this.native, this.tsc := root, variant, native, c.cache;
    }

    method ExtractKey(cdr: seq<Byte>, what: SampleOrKey) returns (r: Option<seq<Byte>>)
      requires Valid()
      ensures r == ExtractStream(root, variant, cdr, native, false, what)
    {
      r := TopLevel(cdr, what, false);
    }

    method ExtractKeyBigEndian(cdr: seq<Byte>, what: SampleOrKey) returns (r: Option<seq<Byte>>)
      requires Valid()
      ensures r == ExtractStream(root, variant, cdr, native, !native.Big?, what)
    {
      r := TopLevel(cdr, what, !native.Big?);
    }

    method TopLevel(cdr: seq<Byte>, what: SampleOrKey, swapDst: bool) returns (r: Option<seq<Byte>>)
      requires Valid()
      ensures r == ExtractStream(root, variant, cdr, native, swapDst, what)
    {
      hide KP.Extract, Filled, HasKeys;
      if !HasKeys(root) {
        return Some([]);
      }
      var src := new DeserializeCursor(cdr);
      var dst := new ByteVectorCursor();
      var header := src.Take(4);
      if header.None? {
        return None;
      }
      src.Rebase(4);
      assert header.value == cdr[..4];
      if header.value[0] != 0 || header.value[1] > 1 {
        return None;
      }
      var swapSrc := (header.value[1] == 0) == native.Little?;
      var x := KP.Orientation(native, swapSrc, swapDst);
      PutHeader(dst, x);
      var ok := FromBody(src, dst, x, what);
      r := if ok then Some(dst.data) else None;
    }

    method PutHeader(dst: ByteVectorCursor, x: KP.Orientation)
      requires dst.pos == 0 && dst.data == []
      modifies dst
      ensures dst.pos == 0 && dst.data == EncodingHeader(x.Dst())
    {
      dst.PutBytes([0, if x.native == (if x.swapDst then Big else Little) then 1 else 0, 0, 0]);
      dst.Rebase(4);
    }

    /** What follows the encoding header. */
    method FromBody(src: DeserializeCursor, dst: ByteVectorCursor, x: KP.Orientation, what: SampleOrKey)
      returns (ok: bool)
      requires Valid() && src.Valid() && src.Offset() == 0 && dst.pos == 0
      modifies src`position, dst
      ensures src.Valid()
      ensures var s := src.Payload();
              var skipped := SkippedHeader(variant, what);
              if |s| < skipped then !ok
              else
                var r := KP.Extract(root, s, skipped, 0, x, if what.Key? then KP.FromKey else KP.FromSample);
                ok == r.Extracted? && (ok ==> dst.data == old(dst.data) + r.out)
    {
      hide KP.Extract, Filled, HasKeys;
      if what.Sample? && variant.Request? {
        var skipped := src.Take(8);
        if skipped.None? {
          return false;
        }
      }
      var ex := new KeyExtractor(tsc, x);
      ok := ex.Any(src, dst, root, if what.Key? then KP.FromKey else KP.FromSample);
    }
  }
}
