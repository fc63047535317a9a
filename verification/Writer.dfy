/** The write cursor and the serializing half of the CDR writer. */
module Writer {
  import opened Bytes
  import opened Types
  import opened TrivCache
  import opened Cdr
  import opened NativeMemory
  import opened WriterPaths

  /** What a buffer that held `before` holds after `emitted` was written from its start, as far as it reaches. */
  function Overlaid(before: seq<Byte>, emitted: seq<Byte>): (r: seq<Byte>)
    ensures |r| == |before|
    ensures forall i :: 0 <= i < |before| ==> r[i] == if i < |emitted| then emitted[i] else before[i]
  {
    if |emitted| <= |before| then emitted + before[|emitted|..] else emitted[..|before|]
  }

  /**
   A cursor over a fixed buffer, or, without a buffer, one that only counts.
   Offsets are relative to `origin`, which alignment is computed from. Nothing checks the end of the buffer:
   what lies beyond it is only counted here.
   */
  class WriteCursor {
    const buffer: array?<Byte>
    var position: nat
    var origin: nat
    ghost var emitted: seq<Byte>
    ghost const before: seq<Byte>

    ghost predicate Valid()
      reads this, buffer
    {
      && origin <= position == |emitted|
      && (buffer != null ==> buffer.Length == |before| && buffer[..] == Overlaid(before, emitted))
    }

    constructor (buffer: array?<Byte>)
      ensures Valid() && this.buffer == buffer && position == 0 && origin == 0
      ensures buffer != null ==> before == buffer[..]
    {
      this.buffer := buffer;
      before := if buffer == null then [] else buffer[..];
      position, origin := 0, 0;
      emitted := [];
    }

    function Offset(): (r: nat)
      requires origin <= position
      reads this
    {
      position - origin
    }

    /** How many bytes were written beyond the end of the buffer. */
    function Overrun(): nat
      reads this
    {
      if buffer != null && position > buffer.Length then position - buffer.Length else 0
    }

    method PutBytes(b: seq<Byte>)
      requires Valid()
      modifies this, buffer
      ensures Valid() && origin == old(origin)
      ensures emitted == old(emitted) + b
    {
      if buffer != null {
        forall i | 0 <= i < |b| && position + i < buffer.Length {
          buffer[position + i] := b[i];
        }
      }
      position := position + |b|;
      emitted := emitted + b;
    }

    method Advance(n: nat)
      requires Valid()
      modifies this, buffer
      ensures Valid() && origin == old(origin)
      ensures emitted == old(emitted) + Zeros(n)
    {
      PutBytes(Zeros(n));
    }

    method Align(w: nat)
      requires IsAlign(w) && Valid()
      modifies this, buffer
      ensures Valid() && origin == old(origin)
      ensures emitted == old(emitted) + Zeros(old(Pad(Offset(), w)))
    {
      var startOffset := Offset();
      if w == 1 || startOffset % w == 0 {
        assert Zeros(Pad(startOffset, w)) == [];
        return;
      }
      Advance(w - startOffset % w);
    }

    /** Moves the origin that offsets are counted from. */
    method Rebase(d: int)
      requires Valid() && 0 <= origin + d <= position
      modifies this`origin
      ensures Valid() && origin == old(origin) + d
    {
      origin := origin + d;
    }

    method PutU32(value: nat, native: Endian)
      requires Valid()
      modifies this, buffer
      ensures Valid() && origin == old(origin)
      ensures emitted == old(emitted) + EncU32(value, old(Offset()), native)
    {
      Align(4);
      PutBytes(U32(value, native));
    }
  }

  /** The overloads of the serializing walk. `tsc` answers which values may be copied. */
  class Serializer {
    const tsc: Cache
    const native: Endian

    constructor (tsc: Cache, native: Endian)
      ensures this.tsc == tsc && this.native == native
    {
      this.tsc, this.native := tsc, native;
    }

    method Any(dst: WriteCursor, m: Mem, a: int, t: Type, what: SampleOrKey)
      requires Filled(tsc, t) && dst.Valid()
      modifies dst, dst.buffer
      ensures dst.Valid() && dst.origin == old(dst.origin)
      ensures dst.emitted == old(dst.emitted) + Coded(t, m, a, old(dst.Offset()), native, what)
      decreases t, 2
    {
      hide CodedMembers, CodedMany, Triv;
      if what.Sample? && LookupTriv(tsc, dst.Offset(), t) {
        dst.PutBytes(Read(m, a, SizeOf(t)));
      } else {
        match t {
          case Struct(ms, _) => Members(dst, m, a, t, what);
          case Array(e, n) => Many(dst, m, a, n, e, what);
          case Sequence(e, _, _) => Elements(dst, m, a, t, what);
          case Prim(_) => Primitive(dst, m, a, t, what);
          case Str(_, _) => String(dst, m, a, t, what);
          case WStr(_, _) => WideString(dst, m, a, t, what);
          case BoolVec(_, _) => BoolVector(dst, m, a, t, what);
        }
      }
    }

    method Primitive(dst: WriteCursor, m: Mem, a: int, t: Type, what: SampleOrKey)
      requires t.Prim? && dst.Valid() && !(what.Sample? && Triv(t, dst.Offset()))
      modifies dst, dst.buffer
      ensures dst.Valid() && dst.origin == old(dst.origin)
      ensures dst.emitted == old(dst.emitted) + Coded(t, m, a, old(dst.Offset()), native, what)
    {
      hide Triv, WideBytes, FlagBytes;
      var w := t.kind.CdrSizeOf();
      dst.Align(w);
      dst.PutBytes(Read(m, a, w));
    }

    method String(dst: WriteCursor, m: Mem, a: int, t: Type, what: SampleOrKey)
      requires t.Str? && dst.Valid() && !(what.Sample? && Triv(t, dst.Offset()))
      modifies dst, dst.buffer
      ensures dst.Valid() && dst.origin == old(dst.origin)
      ensures dst.emitted == old(dst.emitted) + Coded(t, m, a, old(dst.Offset()), native, what)
    {
      hide Triv, WideBytes, FlagBytes;
      var str := TextAt(m, a);
      dst.PutU32(|str| + 1, native);
      dst.PutBytes(str);
      dst.PutBytes([0]);
    }

    method WideString(dst: WriteCursor, m: Mem, a: int, t: Type, what: SampleOrKey)
      requires t.WStr? && dst.Valid() && !(what.Sample? && Triv(t, dst.Offset()))
      modifies dst, dst.buffer
      ensures dst.Valid() && dst.origin == old(dst.origin)
      ensures dst.emitted == old(dst.emitted) + Coded(t, m, a, old(dst.Offset()), native, what)
    {
      hide Triv, WideBytes, FlagBytes;
      var str := WideAt(m, a);
      dst.PutU32(2 * |str|, native);
      dst.PutBytes(WideBytes(str, native));
    }

    method BoolVector(dst: WriteCursor, m: Mem, a: int, t: Type, what: SampleOrKey)
      requires t.BoolVec? && dst.Valid() && !(what.Sample? && Triv(t, dst.Offset()))
      modifies dst, dst.buffer
      ensures dst.Valid() && dst.origin == old(dst.origin)
      ensures dst.emitted == old(dst.emitted) + Coded(t, m, a, old(dst.Offset()), native, what)
    {
      hide Triv, WideBytes, FlagBytes;
      var flags := BitsAt(m, a);
      dst.PutU32(|flags|, native);
      PutFlags(dst, flags);
    }

    method PutFlags(dst: WriteCursor, flags: seq<bool>)
      requires dst.Valid()
      modifies dst, dst.buffer
      ensures dst.Valid() && dst.origin == old(dst.origin)
      ensures dst.emitted == old(dst.emitted) + FlagBytes(flags)
    {
      var i := 0;
      assert FlagBytes(flags[..0]) == [];
      while i < |flags|
        invariant 0 <= i <= |flags|
        invariant dst.Valid() && dst.origin == old(dst.origin)
        invariant dst.emitted == old(dst.emitted) + FlagBytes(flags[..i])
      {
        dst.PutBytes([if flags[i] then 1 else 0]);
        assert FlagBytes(flags[..i + 1]) == FlagBytes(flags[..i]) + [if flags[i] then 1 else 0];
        i := i + 1;
      }
      assert flags[..i] == flags;
    }

    method Members(dst: WriteCursor, m: Mem, a: int, t: Type, what: SampleOrKey)
      requires t.Struct? && Filled(tsc, t) && dst.Valid()
      modifies dst, dst.buffer
      ensures dst.Valid() && dst.origin == old(dst.origin)
      ensures dst.emitted == old(dst.emitted) + CodedMembers(t, m, a, |t.members|, old(dst.Offset()), native, what)
      decreases t, 1
    {
      hide Coded, Selected;
      ghost var off := dst.Offset();
      var allFields := what.Sample? || !HasKeys(t);
      var i := 0;
      while i < |t.members|
        invariant 0 <= i <= |t.members|
        invariant dst.Valid() && dst.origin == old(dst.origin)
        invariant dst.emitted == old(dst.emitted) + CodedMembers(t, m, a, i, off, native, what)
      {
        var member := t.members[i];
        assert Selected(t, i, what) <==> allFields || member.isKey by { SelectedMeans(t, i, what); }
        if allFields || member.isKey {
          Any(dst, m, a + member.offset, member.ty, what);
        }
        i := i + 1;
      }
    }

    method Elements(dst: WriteCursor, m: Mem, a: int, t: Type, what: SampleOrKey)
      requires t.Sequence? && Filled(tsc, t) && dst.Valid()
      modifies dst, dst.buffer
      ensures dst.Valid() && dst.origin == old(dst.origin)
      ensures dst.emitted == old(dst.emitted) + Coded(t, m, a, old(dst.Offset()), native, what)
      decreases t, 1
    {
      hide CodedMany;
      var (count, block) := BlockAt(m, a);
      dst.PutU32(count, native);
      Many(dst, block, 0, count, t.elem, what);
    }

    method Many(dst: WriteCursor, m: Mem, a: int, n: nat, e: Type, what: SampleOrKey)
      requires Filled(tsc, e) && dst.Valid()
      modifies dst, dst.buffer
      ensures dst.Valid() && dst.origin == old(dst.origin)
      ensures dst.emitted == old(dst.emitted) + CodedMany(e, m, a, n, old(dst.Offset()), native, what)
      decreases e, 4
    {
      hide Coded, ManyTriv, Extent;
      if n == 0 {
        return;
      }
      ghost var off, base := dst.Offset(), dst.emitted;
      OneElement(e, m, a, off, native, what);
      Any(dst, m, a, e, what);
      if n == 1 {
        return;
      }
      if LookupManyTriv(tsc, dst.Offset(), e) {
        dst.PutBytes(Read(m, a + SizeOf(e), Extent(e, n - 1)));
      } else {
        Rest(dst, m, a, n, e, what, off, base);
      }
    }

    /** The second and later of `n` elements, the first of which went out at offset `off` after `base`. */
    method Rest(
      dst: WriteCursor, m: Mem, a: int, n: nat, e: Type, what: SampleOrKey, ghost off: nat, ghost base: seq<Byte>)
      requires Filled(tsc, e) && dst.Valid() && n > 1
      requires dst.emitted == base + CodedElems(e, m, a, 1, off, native, what)
      requires off == |base| - dst.origin
      modifies dst, dst.buffer
      ensures dst.Valid() && dst.origin == old(dst.origin)
      ensures dst.emitted == base + CodedElems(e, m, a, n, off, native, what)
      decreases e, 3
    {
      hide Coded, Extent;
      var i := 1;
      while i < n
        invariant 1 <= i <= n
        invariant dst.Valid() && dst.origin == old(dst.origin)
        invariant dst.emitted == base + CodedElems(e, m, a, i, off, native, what)
      {
        Any(dst, m, a + Extent(e, i), e, what);
        i := i + 1;
      }
    }
  }
}
