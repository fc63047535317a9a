/**
 Values as they lie in memory: reading a value out of memory, storing one, and the fact that for a
 trivially serialized type the bytes in memory and the bytes on the wire are the same.
 */
module NativeMemory {
  import opened Bytes
  import opened Types
  import opened TrivCache
  import opened Cdr

  /** Bytes by address, and the heap content owned by the string or sequence object at an address. */
  datatype Mem = Mem(bytes: map<int, Byte>, owned: map<int, Owned>)

  datatype Owned =
    | Text(chars: seq<Byte>)
    | Wide(units: seq<Unit16>)
    | Bits(flags: seq<bool>)
    | Block(count: nat, elems: Mem)

  const EMPTY_MEM: Mem := Mem(map[], map[])

  function ByteAt(m: Mem, x: int): Byte {
    if x in m.bytes then m.bytes[x] else 0
  }

  function OwnedAt(m: Mem, x: int): Option<Owned> {
    if x in m.owned then Some(m.owned[x]) else None
  }

  function Read(m: Mem, a: int, n: nat): (r: seq<Byte>)
    ensures |r| == n
  {
    seq<Byte>(n, i requires 0 <= i < n => ByteAt(m, a + i))
  }

  function Write(m: Mem, a: int, b: seq<Byte>): Mem {
    m.(bytes := m.bytes + Patch(a, b))
  }

  function Patch(a: int, b: seq<Byte>): map<int, Byte> {
    map x | x in Span(a, |b|) :: b[x - a]
  }

  function Span(a: int, n: nat): (r: set<int>)
    ensures forall x :: x in r <==> a <= x < a + n
  {
    if n == 0 then {} else Span(a, n - 1) + {a + n - 1}
  }

  function Own(m: Mem, a: int, o: Owned): Mem {
    m.(owned := m.owned[a := o])
  }

  // Objects that were never written to are empty.

  function TextAt(m: Mem, a: int): seq<Byte> {
    if a in m.owned && m.owned[a].Text? then m.owned[a].chars else []
  }

  function WideAt(m: Mem, a: int): seq<Unit16> {
    if a in m.owned && m.owned[a].Wide? then m.owned[a].units else []
  }

  function BitsAt(m: Mem, a: int): seq<bool> {
    if a in m.owned && m.owned[a].Bits? then m.owned[a].flags else []
  }

  function BlockAt(m: Mem, a: int): (nat, Mem) {
    if a in m.owned && m.owned[a].Block? then (m.owned[a].count, m.owned[a].elems) else (0, EMPTY_MEM)
  }

  function FlagBytes(flags: seq<bool>): (r: seq<Byte>)
    ensures |r| == |flags|
  {
    seq(|flags|, i requires 0 <= i < |flags| => if flags[i] then 1 else 0)
  }

  function Flags(b: seq<Byte>): (r: seq<bool>)
    ensures |r| == |b|
  {
    seq(|b|, i requires 0 <= i < |b| => b[i] != 0)
  }

  /** What is left of a block of elements when it gets a new size: the bytes and objects below `size`. */
  function Resize(m: Mem, size: nat): Mem {
    Mem(map x | x in m.bytes && x < size :: m.bytes[x], map x | x in m.owned && x < size :: m.owned[x])
  }

  // ---------------------------------------------------------------- reading

  /** The value of type `t` at address `a` of a machine with byte order `nat`. */
  function ValueOf(t: Type, m: Mem, a: int, native: Endian, what: SampleOrKey): Value
    decreases t, 1, 0
  {
    match t
    case Prim(k) => VPrim(InOrder(Read(m, a, k.SizeOf()), native))
    case Str(_, _) => VStr(TextAt(m, a))
    case WStr(_, _) => VWStr(WideAt(m, a))
    case BoolVec(_, _) => VBools(FlagBytes(BitsAt(m, a)))
    case Struct(ms, _) => VStruct(ValueMembers(t, m, a, |ms|, native, what))
    case Array(e, n) => VList(ValueElems(e, m, a, n, native, what))
    case Sequence(e, _, _) => VList(ValueElems(e, BlockAt(m, a).1, 0, BlockAt(m, a).0, native, what))
  }

  function ValueMembers(t: Type, m: Mem, a: int, n: nat, native: Endian, what: SampleOrKey): (r: seq<Value>)
    requires t.Struct? && n <= |t.members|
    ensures |r| == n
    decreases t, 0, n
  {
    if n == 0 then []
    else
      ValueMembers(t, m, a, n - 1, native, what)
      + [if Selected(t, n - 1, what)
         then ValueOf(t.members[n - 1].ty, m, a + t.members[n - 1].offset, native, what)
         else VAbsent]
  }

  function ValueElems(e: Type, m: Mem, a: int, n: nat, native: Endian, what: SampleOrKey): (r: seq<Value>)
    ensures |r| == n
    decreases e, 2, n
  {
    if n == 0 then []
    else ValueElems(e, m, a, n - 1, native, what) + [ValueOf(e, m, a + Extent(e, n - 1), native, what)]
  }

  lemma {:induction false} ValueMemberAt(t: Type, m: Mem, a: int, n: nat, native: Endian, what: SampleOrKey, i: nat)
    requires t.Struct? && i < n <= |t.members|
    ensures ValueMembers(t, m, a, n, native, what)[i]
            == if Selected(t, i, what) then ValueOf(t.members[i].ty, m, a + t.members[i].offset, native, what)
               else VAbsent
  {
    hide ValueOf;
    if i < n - 1 {
      ValueMemberAt(t, m, a, n - 1, native, what, i);
    }
  }

  lemma {:induction false} ValueElemAt(e: Type, m: Mem, a: int, n: nat, native: Endian, what: SampleOrKey, i: nat)
    requires i < n
    ensures ValueElems(e, m, a, n, native, what)[i] == ValueOf(e, m, a + Extent(e, i), native, what)
  {
    hide ValueOf;
    if i < n - 1 {
      ValueElemAt(e, m, a, n - 1, native, what, i);
    }
  }

  // ---------------------------------------------------------------- the native image is the wire image

  lemma ReadSplit(m: Mem, a: int, x: nat, y: nat)
    ensures Read(m, a, x + y) == Read(m, a, x) + Read(m, a + x, y)
  {
  }

  lemma TrivSameResidue(t: Type, x: nat, y: nat)
    requires x % MAX_ALIGN == y % MAX_ALIGN
    ensures Triv(t, x) == Triv(t, y)
  {
  }

  /** A memcpy of a trivially serialized value is its encoding. */
  lemma {:induction false} TrivImage(t: Type, m: Mem, a: int, off: nat, native: Endian)
    requires Triv(t, off)
    ensures Enc(t, ValueOf(t, m, a, native, Sample), off, Both(native), Sample) == Read(m, a, SizeOf(t))
    decreases t, 1, 0
  {
    hide EncMembers, EncElems, ValueMembers, ValueElems;
    match t
    case Prim(k) =>
      InOrderTwice(Read(m, a, k.SizeOf()), native);
      ModEight(off, k.CdrSizeOf());
    case Struct(ms, _) => TrivImageMembers(t, m, a, |ms|, off, native);
    case Array(e, n) => TrivImageElems(e, m, a, n, n, off, native);
    case _ =>
  }

  lemma {:induction false} TrivImageMembers(t: Type, m: Mem, a: int, n: nat, off: nat, native: Endian)
    requires t.Struct? && n <= |t.members| && TrivMembers(t, off % MAX_ALIGN, n)
    ensures EncMembers(t, ValueMembers(t, m, a, |t.members|, native, Sample), n, off, Both(native), Sample)
            == Read(m, a, Packed(t, n))
    decreases t, 0, n
  {
    hide Enc, ValueOf, ValueMembers, Triv;
    if n > 0 {
      var p, x := Packed(t, n - 1), t.members[n - 1];
      TrivImageMembers(t, m, a, n - 1, off, native);
      assert (off % MAX_ALIGN + p) % MAX_ALIGN % MAX_ALIGN == (off + p) % MAX_ALIGN;
      TrivSameResidue(x.ty, (off % MAX_ALIGN + p) % MAX_ALIGN, off + p);
      TrivImage(x.ty, m, a + p, off + p, native);
      ValueMemberAt(t, m, a, |t.members|, native, Sample, n - 1);
      ReadSplit(m, a, p, SizeOf(x.ty));
    }
  }

  /** The same for the first `n` of `count` consecutive elements. */
  lemma {:induction false} TrivImageElems(e: Type, m: Mem, a: int, count: nat, n: nat, off: nat, native: Endian)
    requires ManyTriv(e, off) && n <= count
    ensures EncElems(e, ValueElems(e, m, a, count, native, Sample), n, off, Both(native), Sample)
            == Read(m, a, Extent(e, n))
    decreases e, 2, n
  {
    hide Enc, ValueOf, ValueElems, Triv, Extent;
    ExtentZero(e);
    if n > 0 {
      var p: nat := Extent(e, n - 1);
      TrivImageElems(e, m, a, count, n - 1, off, native);
      ManyTrivEverywhere(e, off, n - 1);
      TrivImage(e, m, a + p, off + p, native);
      ValueElemAt(e, m, a, count, native, Sample, n - 1);
      ReadSplit(m, a, p, SizeOf(e));
      ExtentStep(e, n);
    }
  }

  // ---------------------------------------------------------------- storing

  /** Memory after storing `v` at `a`; in key mode only the selected members are stored. */
  function Store(t: Type, m: Mem, a: int, v: Value, native: Endian, what: SampleOrKey): Mem
    decreases t, 1, 0
  {
    match t
    case Prim(k) => if v.VPrim? && |v.raw| == k.SizeOf() then Write(m, a, InOrder(v.raw, native)) else m
    case Str(_, _) => if v.VStr? then Own(m, a, Text(v.chars)) else m
    case WStr(_, _) => if v.VWStr? then Own(m, a, Wide(v.units)) else m
    case BoolVec(_, _) => if v.VBools? then Own(m, a, Bits(Flags(v.flags))) else m
    case Struct(ms, _) => StoreMembers(t, m, a, Fields(v), |ms|, native, what)
    case Array(e, n) => StoreElems(e, m, a, Elems(v), n, native, what)
    case Sequence(e, _, _) =>
      var n := |Elems(v)|;
      var block := Resize(BlockAt(m, a).1, Extent(e, n));
      Own(m, a, Block(n, StoreElems(e, block, 0, Elems(v), n, native, what)))
  }

  function StoreMembers(t: Type, m: Mem, a: int, vs: seq<Value>, n: nat, native: Endian, what: SampleOrKey): Mem
    requires t.Struct? && n <= |t.members|
    decreases t, 0, n
  {
    if n == 0 then m
    else
      var m' := StoreMembers(t, m, a, vs, n - 1, native, what);
      if Selected(t, n - 1, what)
      then Store(t.members[n - 1].ty, m', a + t.members[n - 1].offset, Get(vs, n - 1), native, what)
      else m'
  }

  function StoreElems(e: Type, m: Mem, a: int, vs: seq<Value>, n: nat, native: Endian, what: SampleOrKey): Mem
    decreases e, 2, n
  {
    if n == 0 then m
    else
      Store(e, StoreElems(e, m, a, vs, n - 1, native, what), a + Extent(e, n - 1), Get(vs, n - 1), native, what)
  }

  lemma WriteAt(m: Mem, a: int, b: seq<Byte>, x: int)
    ensures x in Write(m, a, b).bytes <==> x in m.bytes || a <= x < a + |b|
    ensures x in Write(m, a, b).bytes ==> Write(m, a, b).bytes[x] == if a <= x < a + |b| then b[x - a] else m.bytes[x]
  {
  }

  lemma WriteSplit(m: Mem, a: int, x: seq<Byte>, y: seq<Byte>)
    ensures Write(Write(m, a, x), a + |x|, y) == Write(m, a, x + y)
  {
    var m' := Write(m, a, x);
    var l, r := Write(m', a + |x|, y), Write(m, a, x + y);
    forall z: int
      ensures z in l.bytes <==> z in r.bytes
      ensures z in l.bytes ==> l.bytes[z] == r.bytes[z]
    {
      WriteAt(m, a, x, z);
      WriteAt(m', a + |x|, y, z);
      WriteAt(m, a, x + y, z);
    }
    assert l.bytes == r.bytes;
  }

  lemma WriteNothing(m: Mem, a: int, s: seq<Byte>, off: nat)
    requires off <= |s|
    ensures Write(m, a, Slice(s, off, 0)) == m
  {
    assert Slice(s, off, 0) == [];
    assert Write(m, a, []).bytes == m.bytes;
  }

  /**
   Where a type is trivially serialized, decoding fails just when fewer than `SizeOf` bytes are left
   and otherwise consumes `SizeOf` bytes, in either byte order.
   */
  lemma {:induction false} TrivDecEnd(t: Type, s: seq<Byte>, off: nat, o: Orders)
    requires off <= |s| && Triv(t, off)
    ensures var r := Dec(t, s, off, o, Sample);
            if off + SizeOf(t) <= |s| then r.Good? && r.end == off + SizeOf(t) else r.Bad?
    decreases t, 1, 0
  {
    hide DecMembers, DecElems, Slice;
    match t
    case Prim(k) => ModEight(off, k.CdrSizeOf());
    case Struct(ms, _) => TrivDecMembersEnd(t, |ms|, s, off, o);
    case Array(e, n) => TrivDecElemsEnd(e, n, s, off, o);
    case _ =>
  }

  lemma {:induction false} TrivDecMembersEnd(t: Type, n: nat, s: seq<Byte>, off: nat, o: Orders)
    requires t.Struct? && n <= |t.members| && off <= |s| && TrivMembers(t, off % MAX_ALIGN, n)
    ensures var r := DecMembers(t, n, s, off, o, Sample);
            if off + Packed(t, n) <= |s| then r.GoodSeq? && r.end == off + Packed(t, n) else r.BadSeq?
    decreases t, 0, n
  {
    hide Dec, Triv;
    if n > 0 {
      var p, x := Packed(t, n - 1), t.members[n - 1];
      TrivDecMembersEnd(t, n - 1, s, off, o);
      TrivMemberShift(t, off, n);
      if off + p <= |s| {
        TrivDecEnd(x.ty, s, off + p, o);
      }
    }
  }

  lemma TrivMemberShift(t: Type, off: nat, n: nat)
    requires t.Struct? && 0 < n <= |t.members| && TrivMembers(t, off % MAX_ALIGN, n)
    ensures Triv(t.members[n - 1].ty, off + Packed(t, n - 1))
  {
    hide Triv;
    var p := Packed(t, n - 1);
    assert (off % MAX_ALIGN + p) % MAX_ALIGN % MAX_ALIGN == (off + p) % MAX_ALIGN;
    TrivSameResidue(t.members[n - 1].ty, (off % MAX_ALIGN + p) % MAX_ALIGN, off + p);
  }

  lemma {:induction false} TrivDecElemsEnd(e: Type, n: nat, s: seq<Byte>, off: nat, o: Orders)
    requires off <= |s| && ManyTriv(e, off)
    ensures var r := DecElems(e, n, s, off, o, Sample);
            if off + Extent(e, n) <= |s| then r.GoodSeq? && r.end == off + Extent(e, n) else r.BadSeq?
    decreases e, 2, n
  {
    hide Dec, Triv, Extent;
    ExtentZero(e);
    if n > 0 {
      var p: nat := Extent(e, n - 1);
      ExtentStep(e, n);
      TrivDecElemsEnd(e, n - 1, s, off, o);
      ManyTrivEverywhere(e, off, n - 1);
      if off + p <= |s| {
        TrivDecEnd(e, s, off + p, o);
      }
    }
  }

  /** Storing the decoded value of a trivially serialized type in native order is a memcpy. */
  lemma {:induction false} TrivStore(t: Type, s: seq<Byte>, off: nat, o: Orders, m: Mem, a: int)
    requires off + SizeOf(t) <= |s| && Triv(t, off) && Dec(t, s, off, o, Sample).Good?
    ensures Store(t, m, a, Dec(t, s, off, o, Sample).v, o.num, Sample) == Write(m, a, Slice(s, off, SizeOf(t)))
    decreases t, 1, 0
  {
    hide DecMembers, StoreMembers, DecElems, StoreElems, Write, Slice;
    TrivDecEnd(t, s, off, o);
    var v := Dec(t, s, off, o, Sample).v;
    match t
    case Prim(k) =>
      ModEight(off, k.CdrSizeOf());
      InOrderTwice(Slice(s, off, k.CdrSizeOf()), o.num);
    case Struct(ms, _) =>
      assert v.fields[..|ms|] == v.fields;
      TrivStoreMembers(t, v.fields, |ms|, s, off, o, m, a);
    case Array(e, n) =>
      assert v.elems[..n] == v.elems;
      TrivStoreElems(e, v.elems, n, s, off, o, m, a);
    case _ =>
  }

  lemma {:induction false} TrivStoreMembers(
    t: Type, ws: seq<Value>, n: nat, s: seq<Byte>, off: nat, o: Orders, m: Mem, a: int)
    requires t.Struct? && n <= |t.members| && n <= |ws| && TrivMembers(t, off % MAX_ALIGN, n)
    requires off + Packed(t, n) <= |s| && DecMembers(t, n, s, off, o, Sample) == GoodSeq(ws[..n], off + Packed(t, n))
    ensures StoreMembers(t, m, a, ws, n, o.num, Sample) == Write(m, a, Slice(s, off, Packed(t, n)))
    decreases t, 0, n
  {
    hide Dec, Store, Write, Slice, Triv, DecMembers;
    if n == 0 {
      WriteNothing(m, a, s, off);
    } else {
      var p, x := Packed(t, n - 1), t.members[n - 1];
      DecMembersLast(t, ws, n, off + Packed(t, n), s, off, o, Sample);
      TrivDecMembersEnd(t, n - 1, s, off, o);
      TrivStoreMembers(t, ws, n - 1, s, off, o, m, a);
      TrivMemberShift(t, off, n);
      TrivStore(x.ty, s, off + p, o, Write(m, a, Slice(s, off, p)), a + p);
      WriteSlices(m, a, s, off, p, SizeOf(x.ty));
    }
  }

  lemma {:induction false} TrivStoreElems(
    e: Type, ws: seq<Value>, n: nat, s: seq<Byte>, off: nat, o: Orders, m: Mem, a: int)
    requires n <= |ws| && ManyTriv(e, off)
    requires off + Extent(e, n) <= |s| && DecElems(e, n, s, off, o, Sample) == GoodSeq(ws[..n], off + Extent(e, n))
    ensures StoreElems(e, m, a, ws, n, o.num, Sample) == Write(m, a, Slice(s, off, Extent(e, n)))
    decreases e, 2, n
  {
    hide Dec, Store, Write, Slice, Triv, Extent, DecElems, ManyTriv;
    ExtentZero(e);
    if n == 0 {
      WriteNothing(m, a, s, off);
    } else {
      var p: nat := Extent(e, n - 1);
      ExtentStep(e, n);
      DecElemsLast(e, ws, n, off + Extent(e, n), s, off, o, Sample);
      TrivDecElemsEnd(e, n - 1, s, off, o);
      TrivStoreElems(e, ws, n - 1, s, off, o, m, a);
      ManyTrivEverywhere(e, off, n - 1);
      TrivStore(e, s, off + p, o, Write(m, a, Slice(s, off, p)), a + p);
      WriteSlices(m, a, s, off, p, SizeOf(e));
    }
  }

  /** Two adjacent pieces of input, written one after the other. */
  lemma WriteSlices(m: Mem, a: int, s: seq<Byte>, off: nat, x: nat, y: nat)
    requires off + x + y <= |s|
    ensures Write(Write(m, a, Slice(s, off, x)), a + x, Slice(s, off + x, y)) == Write(m, a, Slice(s, off, x + y))
  {
    hide Write;
    assert Slice(s, off, x + y) == Slice(s, off, x) + Slice(s, off + x, y);
    WriteSplit(m, a, Slice(s, off, x), Slice(s, off + x, y));
  }

  // ---------------------------------------------------------------- what storing touches

  /** The memory at address `x` is part of what a walk in mode `what` over a `t` at `a` stores to. */
  ghost predicate Touches(t: Type, a: int, x: int, what: SampleOrKey)
    decreases t
  {
    match t
    case Prim(k) => a <= x < a + k.SizeOf()
    case Struct(ms, _) =>
      exists i :: 0 <= i < |ms| && Selected(t, i, what) && Touches(ms[i].ty, a + ms[i].offset, x, what)
    case Array(e, n) => exists i: nat :: i < n && Touches(e, a + Extent(e, i), x, what)
    case _ => x == a
  }

  lemma {:induction false} TouchesInside(t: Type, a: int, x: int, what: SampleOrKey)
    requires WellFormed(t) && Touches(t, a, x, what)
    ensures a <= x < a + SizeOf(t)
    decreases t
  {
    hide WellFormed, Selected, Extent;
    WellFormedBelow(t);
    match t
    case Struct(ms, _) =>
      var i :| 0 <= i < |ms| && Selected(t, i, what) && Touches(ms[i].ty, a + ms[i].offset, x, what);
      TouchesInside(ms[i].ty, a + ms[i].offset, x, what);
    case Array(e, n) =>
      ArrayExtent(t);
      var i: nat :| i < n && Touches(e, a + Extent(e, i), x, what);
      TouchesInside(e, a + Extent(e, i), x, what);
      ElementInside(e, i, n);
    case _ =>
  }

  lemma ArrayExtent(t: Type)
    requires t.Array?
    ensures SizeOf(t) == Extent(t.elem, t.count)
  {
  }

  lemma ElementInside(e: Type, i: nat, n: nat)
    requires i < n
    ensures Extent(e, i) + SizeOf(e) <= Extent(e, n)
  {
    hide Extent;
    ExtentStep(e, i + 1);
    ExtentMonotone(e, i + 1, n);
  }

  ghost predicate SameAt(m: Mem, m': Mem, x: int) {
    ByteAt(m, x) == ByteAt(m', x) && OwnedAt(m, x) == OwnedAt(m', x)
  }

  lemma WriteFrame(m: Mem, a: int, b: seq<Byte>, x: int)
    requires !(a <= x < a + |b|)
    ensures SameAt(m, Write(m, a, b), x)
  {
    WriteAt(m, a, b, x);
  }

  /** Storing changes nothing but what it touches. */
  lemma {:induction false} StoreFrame(t: Type, m: Mem, a: int, v: Value, native: Endian, what: SampleOrKey, x: int)
    requires !Touches(t, a, x, what)
    ensures SameAt(m, Store(t, m, a, v, native, what), x)
    decreases t, 1, 0
  {
    match t
    case Prim(k) =>
      if v.VPrim? && |v.raw| == k.SizeOf() {
        WriteFrame(m, a, InOrder(v.raw, native), x);
      }
    case Struct(ms, _) => StoreMembersFrame(t, m, a, Fields(v), |ms|, native, what, x);
    case Array(e, n) => StoreElemsFrame(e, m, a, Elems(v), n, n, native, what, x);
    case _ =>
  }

  lemma {:induction false} StoreMembersFrame(
    t: Type, m: Mem, a: int, vs: seq<Value>, n: nat, native: Endian, what: SampleOrKey, x: int)
    requires t.Struct? && n <= |t.members| && !Touches(t, a, x, what)
    ensures SameAt(m, StoreMembers(t, m, a, vs, n, native, what), x)
    decreases t, 0, n
  {
    hide Store;
    if n > 0 {
      StoreMembersFrame(t, m, a, vs, n - 1, native, what, x);
      if Selected(t, n - 1, what) {
        var m' := StoreMembers(t, m, a, vs, n - 1, native, what);
        StoreFrame(t.members[n - 1].ty, m', a + t.members[n - 1].offset, Get(vs, n - 1), native, what, x);
      }
    }
  }

  lemma {:induction false} StoreElemsFrame(
    e: Type, m: Mem, a: int, vs: seq<Value>, n: nat, count: nat, native: Endian, what: SampleOrKey, x: int)
    requires n <= count && forall i: nat | i < count :: !Touches(e, a + Extent(e, i), x, what)
    ensures SameAt(m, StoreElems(e, m, a, vs, n, native, what), x)
    decreases e, 2, n
  {
    hide Store, Touches;
    if n > 0 {
      StoreElemsFrame(e, m, a, vs, n - 1, count, native, what, x);
      var m' := StoreElems(e, m, a, vs, n - 1, native, what);
      StoreFrame(e, m', a + Extent(e, n - 1), Get(vs, n - 1), native, what, x);
    }
  }

  ghost predicate SameOn(m: Mem, m': Mem, lo: int, hi: int) {
    forall x :: lo <= x < hi ==> SameAt(m, m', x)
  }

  /** A value depends only on the memory of its own object. */
  lemma {:induction false} ValueOfFrame(t: Type, m: Mem, m': Mem, a: int, native: Endian, what: SampleOrKey)
    requires WellFormed(t) && SameOn(m, m', a, a + SizeOf(t))
    ensures ValueOf(t, m, a, native, what) == ValueOf(t, m', a, native, what)
    decreases t, 1, 0
  {
    match t
    case Prim(k) =>
      forall i | 0 <= i < k.SizeOf()
        ensures Read(m, a, k.SizeOf())[i] == Read(m', a, k.SizeOf())[i]
      {
        assert SameAt(m, m', a + i);
      }
      assert Read(m, a, k.SizeOf()) == Read(m', a, k.SizeOf());
    case Struct(ms, _) => ValueMembersFrame(t, m, m', a, |ms|, native, what);
    case Array(e, n) => ValueElemsFrame(e, m, m', a, n, native, what);
    case _ => assert SameAt(m, m', a);
  }

  lemma {:induction false} ValueMembersFrame(
    t: Type, m: Mem, m': Mem, a: int, n: nat, native: Endian, what: SampleOrKey)
    requires t.Struct? && WellFormed(t) && SameOn(m, m', a, a + SizeOf(t)) && n <= |t.members|
    ensures ValueMembers(t, m, a, n, native, what) == ValueMembers(t, m', a, n, native, what)
    decreases t, 0, n
  {
    hide ValueOf;
    if n > 0 {
      ValueMembersFrame(t, m, m', a, n - 1, native, what);
      ValueOfFrame(t.members[n - 1].ty, m, m', a + t.members[n - 1].offset, native, what);
    }
  }

  lemma {:induction false} ValueElemsFrame(e: Type, m: Mem, m': Mem, a: int, n: nat, native: Endian, what: SampleOrKey)
    requires WellFormed(e) && SameOn(m, m', a, a + Extent(e, n))
    ensures ValueElems(e, m, a, n, native, what) == ValueElems(e, m', a, n, native, what)
    decreases e, 2, n
  {
    hide ValueOf, Extent, WellFormed;
    if n > 0 {
      ExtentStep(e, n);
      ValueElemsFrame(e, m, m', a, n - 1, native, what);
      ValueOfFrame(e, m, m', a + Extent(e, n - 1), native, what);
    }
  }

  // ---------------------------------------------------------------- store, then read

  /**
   Reading back what was stored gives the value, cut down to the selected members.
   */
  lemma {:induction false} StoreValueOf(t: Type, m: Mem, a: int, v: Value, native: Endian, what: SampleOrKey)
    requires WellFormed(t) && HasType(v, t, what)
    ensures ValueOf(t, Store(t, m, a, v, native, what), a, native, what) == Cut(t, v, what, true)
    decreases t, 1, 0
  {
    hide StoreMembers, StoreElems, ValueMembers, ValueElems, CutMembers, CutElems, Write, Read;
    match t
    case Prim(k) => WriteRead(m, a, v.raw, native);
    case BoolVec(_, _) => assert FlagBytes(Flags(v.flags)) == AsBits(v.flags);
    case Struct(ms, _) => StoreMembersValueOf(t, m, a, v.fields, |ms|, native, what);
    case Array(e, n) => StoreElemsValueOf(e, m, a, v.elems, n, native, what);
    case Sequence(e, _, _) =>
      var n := |v.elems|;
      StoreElemsValueOf(e, Resize(BlockAt(m, a).1, Extent(e, n)), 0, v.elems, n, native, what);
    case _ =>
  }

  lemma WriteRead(m: Mem, a: int, raw: seq<Byte>, native: Endian)
    ensures InOrder(Read(Write(m, a, InOrder(raw, native)), a, |raw|), native) == raw
  {
    var b := InOrder(raw, native);
    var m' := Write(m, a, b);
    forall i | 0 <= i < |raw|
      ensures Read(m', a, |raw|)[i] == b[i]
    {
      WriteAt(m, a, b, a + i);
      assert ByteAt(m', a + i) == b[i];
    }
    assert Read(m', a, |raw|) == b;
    InOrderTwice(raw, native);
  }

  lemma {:induction false} StoreMembersValueOf(
    t: Type, m: Mem, a: int, vs: seq<Value>, n: nat, native: Endian, what: SampleOrKey)
    requires t.Struct? && WellFormed(t) && n <= |t.members| && n <= |vs|
    requires forall i :: 0 <= i < n && Selected(t, i, what) ==> HasType(vs[i], t.members[i].ty, what)
    ensures ValueMembers(t, StoreMembers(t, m, a, vs, n, native, what), a, n, native, what)
            == CutMembers(t, vs, n, what, true)
    decreases t, 0, n
  {
    hide Store, ValueOf, Cut, HasType;
    if n > 0 {
      StoreMembersValueOf(t, m, a, vs, n - 1, native, what);
      if Selected(t, n - 1, what) {
        var x := t.members[n - 1];
        var m' := StoreMembers(t, m, a, vs, n - 1, native, what);
        StoreValueOf(x.ty, m', a + x.offset, vs[n - 1], native, what);
        OtherMembersKept(t, m', a, vs[n - 1], n - 1, n - 1, native, what);
      }
    }
  }

  /** Storing member `k` leaves the values of the members before it alone. */
  lemma {:induction false} OtherMembersKept(
    t: Type, m: Mem, a: int, v: Value, k: nat, n: nat, native: Endian, what: SampleOrKey)
    requires t.Struct? && WellFormed(t) && n <= k < |t.members|
    ensures ValueMembers(t, m, a, n, native, what)
            == ValueMembers(t, Store(t.members[k].ty, m, a + t.members[k].offset, v, native, what), a, n, native, what)
  {
    hide Store, ValueOf;
    if n > 0 {
      OtherMembersKept(t, m, a, v, k, n - 1, native, what);
      OtherMemberKept(t, m, a, v, k, n - 1, native, what, what);
    }
  }

  lemma OtherMemberKept(
    t: Type, m: Mem, a: int, v: Value, k: nat, i: nat, native: Endian, what: SampleOrKey, what': SampleOrKey)
    requires t.Struct? && WellFormed(t) && i < |t.members| && k < |t.members| && i != k
    ensures var x, y := t.members[k], t.members[i];
            ValueOf(y.ty, Store(x.ty, m, a + x.offset, v, native, what), a + y.offset, native, what')
            == ValueOf(y.ty, m, a + y.offset, native, what')
  {
    hide Store, ValueOf, Touches;
    var x, y := t.members[k], t.members[i];
    MembersApart(t, i, k);
    var m' := Store(x.ty, m, a + x.offset, v, native, what);
    forall z | a + y.offset <= z < a + y.offset + SizeOf(y.ty)
      ensures SameAt(m, m', z)
    {
      if Touches(x.ty, a + x.offset, z, what) {
        TouchesInside(x.ty, a + x.offset, z, what);
      }
      StoreFrame(x.ty, m, a + x.offset, v, native, what, z);
    }
    ValueOfFrame(y.ty, m, m', a + y.offset, native, what');
  }

  lemma {:induction false} StoreElemsValueOf(
    e: Type, m: Mem, a: int, vs: seq<Value>, n: nat, native: Endian, what: SampleOrKey)
    requires WellFormed(e) && n <= |vs| && forall i :: 0 <= i < n ==> HasType(vs[i], e, what)
    ensures ValueElems(e, StoreElems(e, m, a, vs, n, native, what), a, n, native, what)
            == CutElems(e, vs, n, what, true)
    decreases e, 2, n
  {
    hide Store, ValueOf, Cut, HasType, Touches, Extent, WellFormed;
    if n > 0 {
      StoreElemsValueOf(e, m, a, vs, n - 1, native, what);
      var m' := StoreElems(e, m, a, vs, n - 1, native, what);
      var p := a + Extent(e, n - 1);
      StoreValueOf(e, m', p, vs[n - 1], native, what);
      var m'' := Store(e, m', p, vs[n - 1], native, what);
      forall z | a <= z < a + Extent(e, n - 1)
        ensures SameAt(m', m'', z)
      {
        if Touches(e, p, z, what) {
          TouchesInside(e, p, z, what);
        }
        StoreFrame(e, m', p, vs[n - 1], native, what, z);
      }
      ValueElemsFrame(e, m', m'', a, n - 1, native, what);
    }
  }
}
