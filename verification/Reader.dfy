/** The read cursor and the deserializing half of the CDR reader. */
module Reader {
  import opened Bytes
  import opened Types
  import opened TrivCache
  import opened Cdr
  import opened NativeMemory
  import opened ReaderPaths

  class DeserializeCursor {
    const data: seq<Byte>
    var position: nat
    var origin: nat

    ghost predicate Valid()
      reads this
    {
      origin <= position <= |data|
    }

    constructor (data: seq<Byte>)
      ensures Valid() && this.data == data && position == 0 && origin == 0
    {
      this.data := data;
      position, origin := 0, 0;
    }

    function Offset(): nat
      requires Valid()
      reads this
    {
      position - origin
    }

    /** The input as offsets see it. */
    ghost function Payload(): (s: seq<Byte>)
      requires Valid()
      reads this
      ensures |s| == |data| - origin && Offset() <= |s|
    {
      data[origin..]
    }

    /** Takes the next `n` bytes; `None` is the exception for truncated input. */
    method Take(n: nat) returns (r: Option<seq<Byte>>)
      requires Valid()
      modifies this`position
      ensures Valid()
      ensures r.Some? <==> old(Offset()) + n <= |Payload()|
      ensures r.Some? ==> r.value == Slice(Payload(), old(Offset()), n) && Offset() == old(Offset()) + n
      ensures r.None? ==> position == old(position)
    {
      if |data| - position < n {
        return None;
      }
      r := Some(data[position..position + n]);
      assert data[position..position + n] == Slice(Payload(), Offset(), n);
      position := position + n;
    }

    /** Aligns to `w`, then takes `n` bytes. */
    method TakeAligned(w: nat, n: nat) returns (r: Option<seq<Byte>>)
      requires IsAlign(w) && Valid()
      modifies this`position
      ensures Valid()
      ensures r.Some? <==> old(Offset()) + Pad(old(Offset()), w) + n <= |Payload()|
      ensures r.Some? ==> r.value == Slice(Payload(), old(Offset()) + Pad(old(Offset()), w), n)
                          && Offset() == old(Offset()) + Pad(old(Offset()), w) + n
    {
      var startOffset := Offset();
      if w != 1 && startOffset % w != 0 {
        var skipped := Take(w - startOffset % w);
        if skipped.None? {
          return None;
        }
      }
      r := Take(n);
    }

    method Rebase(d: int)
      requires Valid() && 0 <= origin + d <= position
      modifies this`origin
      ensures Valid() && origin == old(origin) + d
    {
      origin := origin + d;
    }

    /** A 32-bit word, byte-swapped if `swap`. */
    method TakeU32(native: Endian, swap: bool) returns (r: Option<nat>)
      requires Valid()
      modifies this`position
      ensures Valid()
      ensures var c := DecU32(Payload(), old(Offset()), StreamOrder(native, swap));
              r.Some? == c.GoodWord? && (r.Some? ==> r.value == c.n && Offset() == c.end)
    {
      hide U32Of;
      var b := TakeAligned(4, 4);
      if b.None? {
        return None;
      }
      SwappedWord(b.value, native);
      r := Some(U32Of(if swap then Reverse(b.value) else b.value, native));
    }
  }

  lemma SwappedWord(b: seq<Byte>, native: Endian)
    requires |b| == 4
    ensures U32Of(Reverse(b), native) == U32Of(b, native.Other())
  {
    ReverseTwice(b);
  }

  lemma SwappedNumber(b: seq<Byte>, native: Endian)
    ensures InOrder(InOrder(b, native), native) == b
    ensures InOrder(InOrder(b, native.Other()), native) == Reverse(b)
  {
    ReverseTwice(b);
  }

  /** Destination memory, written in place. */
  class Memory {
    var mem: Mem

    constructor (mem: Mem)
      ensures this.mem == mem
    {
      this.mem := mem;
    }

    method Put(a: int, b: seq<Byte>)
      modifies this
      ensures mem == Write(old(mem), a, b)
    {
      mem := Write(mem, a, b);
    }

    method Assign(a: int, o: Owned)
      modifies this
      ensures mem == Own(old(mem), a, o)
    {
      mem := Own(mem, a, o);
    }
  }

  // ---------------------------------------------------------------- a failing prefix fails the whole

  lemma {:induction false} MembersThrow(
    t: Type, i: nat, n: nat, s: seq<Byte>, off: nat, m: Mem, a: int, native: Endian, swap: bool, what: SampleOrKey)
    requires t.Struct? && i <= n <= |t.members| && off <= |s|
    ensures LoadMembers(t, i, s, off, m, a, native, swap, what).Thrown? ==>
              LoadMembers(t, n, s, off, m, a, native, swap, what).Thrown?
    decreases n
  {
    hide Load, Selected;
    if i < n {
      MembersThrow(t, i, n - 1, s, off, m, a, native, swap, what);
    }
  }

  lemma {:induction false} ElemsThrow(
    e: Type, i: nat, n: nat, s: seq<Byte>, off: nat, m: Mem, a: int, native: Endian, swap: bool, what: SampleOrKey)
    requires i <= n && off <= |s|
    ensures LoadElems(e, i, s, off, m, a, native, swap, what).Thrown? ==>
              LoadElems(e, n, s, off, m, a, native, swap, what).Thrown?
    decreases n
  {
    hide Load, Extent;
    if i < n {
      ElemsThrow(e, i, n - 1, s, off, m, a, native, swap, what);
    }
  }

  /** `ok` and the state of cursor and memory are what `r` says. */
  ghost predicate Matches(ok: bool, src: DeserializeCursor, dst: Memory, r: Loading)
    requires src.Valid()
    reads src, dst
  {
    ok == r.Loaded? && (ok ==> dst.mem == r.mem && src.Offset() == r.end)
  }

  class Deserializer {
    const tsc: Cache
    const native: Endian

    constructor (tsc: Cache, native: Endian)
      ensures this.tsc == tsc && this.native == native
    {
      this.tsc, this.native := tsc, native;
    }

    /** False stands for an exception. */
    method Any(src: DeserializeCursor, dst: Memory, a: int, t: Type, swap: bool, what: SampleOrKey)
      returns (ok: bool)
      requires Filled(tsc, t) && src.Valid()
      modifies src`position, dst
      ensures src.Valid()
      ensures Matches(ok, src, dst, Load(t, src.Payload(), old(src.Offset()), old(dst.mem), a, native, swap, what))
      decreases t, 2
    {
      hide LoadMembers, LoadMany, Triv, DecLeaf, Store, Write, Slice;
      if !swap && what.Sample? && LookupTriv(tsc, src.Offset(), t) {
        ok := Copy(src, dst, a, SizeOf(t));
      } else {
        match t {
          case Struct(_, _) => ok := Members(src, dst, a, t, swap, what);
          case Array(e, n) => ok := Many(src, dst, a, n, e, swap, what);
          case Sequence(_, _, _) => ok := Elements(src, dst, a, t, swap, what);
          case Prim(_) => ok := Primitive(src, dst, a, t, swap, what);
          case Str(_, _) => ok := String(src, dst, a, t, swap, what);
          case WStr(_, _) => ok := WideString(src, dst, a, t, swap, what);
          case BoolVec(_, _) => ok := BoolVector(src, dst, a, t, swap, what);
        }
      }
    }

    method Copy(src: DeserializeCursor, dst: Memory, a: int, n: nat) returns (ok: bool)
      requires src.Valid()
      modifies src`position, dst
      ensures src.Valid()
      ensures Matches(ok, src, dst, Copied(src.Payload(), old(src.Offset()), n, old(dst.mem), a))
    {
      hide Write, Slice;
      var b := src.Take(n);
      if b.Some? {
        dst.Put(a, b.value);
      }
      ok := b.Some?;
    }

    method Primitive(src: DeserializeCursor, dst: Memory, a: int, t: Type, swap: bool, what: SampleOrKey)
      returns (ok: bool)
      requires t.Prim? && src.Valid() && !(!swap && what.Sample? && Triv(t, src.Offset()))
      modifies src`position, dst
      ensures src.Valid()
      ensures Matches(ok, src, dst, Load(t, src.Payload(), old(src.Offset()), old(dst.mem), a, native, swap, what))
    {
      hide Triv, Slice, Write;
      var w := t.kind.CdrSizeOf();
      var b := src.TakeAligned(w, w);
      if b.None? {
        return false;
      }
      SwappedNumber(b.value, native);
      dst.Put(a, if swap then Reverse(b.value) else b.value);
      ok := true;
    }

    method String(src: DeserializeCursor, dst: Memory, a: int, t: Type, swap: bool, what: SampleOrKey)
      returns (ok: bool)
      requires t.Str? && src.Valid()
      modifies src`position, dst
      ensures src.Valid()
      ensures Matches(ok, src, dst, Load(t, src.Payload(), old(src.Offset()), old(dst.mem), a, native, swap, what))
    {
      hide DecU32, Slice;
      var size := src.TakeU32(native, swap);
      if size.None? || size.value == 0 {
        return false;
      }
      var b := src.Take(size.value);
      if b.None? || b.value[size.value - 1] != 0 {
        return false;
      }
      dst.Assign(a, Text(b.value[..size.value - 1]));
      ok := true;
    }

    method WideString(src: DeserializeCursor, dst: Memory, a: int, t: Type, swap: bool, what: SampleOrKey)
      returns (ok: bool)
      requires t.WStr? && src.Valid()
      modifies src`position, dst
      ensures src.Valid()
      ensures Matches(ok, src, dst, Load(t, src.Payload(), old(src.Offset()), old(dst.mem), a, native, swap, what))
    {
      hide DecU32, Slice;
      var size := src.TakeU32(native, swap);
      if size.None? || size.value % 2 != 0 {
        return false;
      }
      var b := src.Take(size.value);
      if b.None? {
        return false;
      }
      var units := UnitsOf(b.value, native);
      if swap {
        units := SwapUnits(units);
        assert units == UnitsOf(b.value, native.Other());
      }
      dst.Assign(a, Wide(units));
      ok := true;
    }

    method SwapUnits(units: seq<Unit16>) returns (r: seq<Unit16>)
      ensures |r| == |units|
      ensures forall i :: 0 <= i < |units| ==> r[i] == Unit16(units[i].hi, units[i].lo)
    {
      r := units;
      var i := 0;
      while i < |units|
        invariant 0 <= i <= |units| == |r|
        invariant forall j :: 0 <= j < i ==> r[j] == Unit16(units[j].hi, units[j].lo)
        invariant forall j :: i <= j < |units| ==> r[j] == units[j]
      {
        r := r[i := Unit16(r[i].hi, r[i].lo)];
        i := i + 1;
      }
    }

    method BoolVector(src: DeserializeCursor, dst: Memory, a: int, t: Type, swap: bool, what: SampleOrKey)
      returns (ok: bool)
      requires t.BoolVec? && src.Valid()
      modifies src`position, dst
      ensures src.Valid()
      ensures Matches(ok, src, dst, Load(t, src.Payload(), old(src.Offset()), old(dst.mem), a, native, swap, what))
    {
      hide DecU32, Slice;
      var count := src.TakeU32(native, swap);
      if count.None? {
        return false;
      }
      var b := src.Take(count.value);
      if b.None? {
        return false;
      }
      var flags := AssignFlags(b.value);
      dst.Assign(a, Bits(flags));
      ok := true;
    }

    method AssignFlags(b: seq<Byte>) returns (flags: seq<bool>)
      ensures flags == Flags(b)
    {
      flags := [];
      var i := 0;
      while i < |b|
        invariant 0 <= i <= |b| && |flags| == i
        invariant forall j :: 0 <= j < i ==> flags[j] == (b[j] != 0)
      {
        flags := flags + [b[i] != 0];
        i := i + 1;
      }
    }

    method Members(src: DeserializeCursor, dst: Memory, a: int, t: Type, swap: bool, what: SampleOrKey)
      returns (ok: bool)
      requires t.Struct? && Filled(tsc, t) && src.Valid()
      modifies src`position, dst
      ensures src.Valid()
      ensures Matches(ok, src, dst,
                LoadMembers(t, |t.members|, src.Payload(), old(src.Offset()), old(dst.mem), a, native, swap, what))
      decreases t, 1
    {
      hide Load, Selected;
      ghost var s, off, m := src.Payload(), src.Offset(), dst.mem;
      var allFields := what.Sample? || !HasKeys(t);
      var i := 0;
      while i < |t.members|
        invariant 0 <= i <= |t.members| && src.Valid()
        invariant LoadMembers(t, i, s, off, m, a, native, swap, what) == Loaded(dst.mem, src.Offset())
      {
        var member := t.members[i];
        SelectedMeans(t, i, what);
        if allFields || member.isKey {
          ok := Any(src, dst, a + member.offset, member.ty, swap, what);
          if !ok {
            MembersThrow(t, i + 1, |t.members|, s, off, m, a, native, swap, what);
            return;
          }
        }
        i := i + 1;
      }
      ok := true;
    }

    method Elements(src: DeserializeCursor, dst: Memory, a: int, t: Type, swap: bool, what: SampleOrKey)
      returns (ok: bool)
      requires t.Sequence? && Filled(tsc, t) && src.Valid()
      modifies src`position, dst
      ensures src.Valid()
      ensures Matches(ok, src, dst, Load(t, src.Payload(), old(src.Offset()), old(dst.mem), a, native, swap, what))
      decreases t, 1
    {
      hide LoadMany, DecU32;
      var count := src.TakeU32(native, swap);
      if count.None? {
        return false;
      }
      var block := new Memory(Resize(BlockAt(dst.mem, a).1, Extent(t.elem, count.value)));
      ok := Many(src, block, 0, count.value, t.elem, swap, what);
      if ok {
        dst.Assign(a, Block(count.value, block.mem));
      }
    }

    method Many(src: DeserializeCursor, dst: Memory, a: int, n: nat, e: Type, swap: bool, what: SampleOrKey)
      returns (ok: bool)
      requires Filled(tsc, e) && src.Valid()
      modifies src`position, dst
      ensures src.Valid()
      ensures Matches(ok, src, dst,
                LoadMany(e, n, src.Payload(), old(src.Offset()), old(dst.mem), a, native, swap, what))
      decreases e, 4
    {
      hide Load, LoadElems, ManyTriv, Extent, Copied;
      if n == 0 {
        return true;
      }
      ghost var s, off, m := src.Payload(), src.Offset(), dst.mem;
      ok := Any(src, dst, a, e, swap, what);
      if !ok || n == 1 {
        return;
      }
      if !swap && LookupManyTriv(tsc, src.Offset(), e) {
        ok := Copy(src, dst, a + SizeOf(e), Extent(e, n - 1));
      } else {
        LoadElemsFirst(e, 1, s, off, m, a, native, swap, what);
        ok := Rest(src, dst, a, n, e, swap, what, s, off, m);
      }
    }

    /** The second and later elements, one by one. */
    method Rest(
      src: DeserializeCursor, dst: Memory, a: int, n: nat, e: Type, swap: bool, what: SampleOrKey,
      ghost s: seq<Byte>, ghost off: nat, ghost m: Mem)
      returns (ok: bool)
      requires Filled(tsc, e) && src.Valid() && n > 1 && s == src.Payload() && off <= |s|
      requires LoadElems(e, 1, s, off, m, a, native, swap, what) == Loaded(dst.mem, src.Offset())
      modifies src`position, dst
      ensures src.Valid()
      ensures Matches(ok, src, dst, LoadElems(e, n, s, off, m, a, native, swap, what))
      decreases e, 3
    {
      hide Load, Extent;
      var i := 1;
      while i < n
        invariant 1 <= i <= n && src.Valid()
        invariant LoadElems(e, i, s, off, m, a, native, swap, what) == Loaded(dst.mem, src.Offset())
      {
        ok := Any(src, dst, a + Extent(e, i), e, swap, what);
        if !ok {
          ElemsThrow(e, i + 1, n, s, off, m, a, native, swap, what);
          return;
        }
        i := i + 1;
      }
      ok := true;
    }
  }
}
