/** The CDR reader with its headers, and what becomes of a value that is written, sent and read. */
module CdrReader {
  import opened Bytes
  import opened Types
  import opened TrivCache
  import opened Cdr
  import opened NativeMemory
  import opened Reach
  import opened WriterPaths
  import opened ReaderPaths
  import opened Reader
  import opened CdrWriter
  import SR = ServiceRouting

  /** The request header as the reader fills it in, and the message memory. */
  datatype Target = Target(guid: seq<Byte>, seqno: seq<Byte>, mem: Mem)

  datatype Outcome = Failed | Done(target: Target)

  /** Only plain CDR in either byte order is recognised; options are ignored. */
  predicate HeaderKnown(h: seq<Byte>)
    requires |h| == 4
  {
    h[0] == 0 && h[1] <= 1
  }

  function HeaderSwap(h: seq<Byte>, native: Endian): bool
    requires |h| == 4
  {
    (h[1] == 0) == native.Little?
  }

  /**
   The result of deserializing `cdr` at address `a`. The swap of the request's sequence number is the one
   of the generic template, which does nothing.
   */
  function LoadStream(
    root: Type, variant: SampleOrRequest, cdr: seq<Byte>, d: Target, a: int, native: Endian, what: SampleOrKey)
    : Outcome
    requires root.Struct?
  {
    if !HasBody(root, what) then Done(d)
    else if |cdr| < 4 || !HeaderKnown(cdr[..4]) then Failed
    else
      var s, swap, x := cdr[4..], HeaderSwap(cdr[..4], native), RequestHeaderSize(variant, what);
      if |s| < x then Failed
      else
        var r := Load(root, s, x, d.mem, a, native, swap, what);
        if r.Thrown? then Failed
        else if x == 0 then Done(d.(mem := r.mem))
        else Done(Target(if swap then Reverse(s[..8]) else s[..8], s[8..16], r.mem))
  }

  class Message {
    var guid: seq<Byte>
    var seqno: seq<Byte>
    const memory: Memory
    const addr: int

    constructor (memory: Memory, addr: int)
      ensures this.memory == memory && this.addr == addr
    {
      guid, seqno := Zeros(8), Zeros(8);
      this.memory, this.addr := memory, addr;
    }

    ghost function State(): Target
      reads this, memory
    {
      Target(guid, seqno, memory.mem)
    }
  }

  class CDRReader {
    const root: Type
    const tsc: Cache
    const variant: SampleOrRequest
    const native: Endian

    ghost predicate Valid() {
      root.Struct? && Filled(tsc, root)
    }

    constructor (root: Type, variant: SampleOrRequest, native: Endian)
      requires root.Struct?
      ensures Valid() && this.root == root && this.variant == variant && this.native == native
    {
      var c := new TriviallySerializedCache(root);
      this.root, this.variant, this.native, this.tsc := root, variant, native, c.cache;
    }

    /** False stands for an exception. */
    method Deserialize(dst: Message, cdr: seq<Byte>, what: SampleOrKey) returns (ok: bool)
      requires Valid()
      modifies dst, dst.memory
      ensures var r := LoadStream(root, variant, cdr, old(dst.State()), dst.addr, native, what);
              ok == r.Done? && (ok ==> dst.State() == r.target)
    {
      hide Load, Filled, Reverse, Zeros;
      if what.Key? && !HasKeys(root) {
        return true;
      }
      var src := new DeserializeCursor(cdr);
      var header := src.Take(4);
      if header.None? {
        return false;
      }
      src.Rebase(4);
      assert header.value == cdr[..4];
      if header.value[0] != 0 || header.value[1] > 1 {
        return false;
      }
      var swap := (header.value[1] == 0) == native.Little?;
      ok := Body(src, dst, swap, what);
      if ok {
        src.Rebase(-4);
      }
    }

    /** What follows the encoding header. */
    method Body(src: DeserializeCursor, dst: Message, swap: bool, what: SampleOrKey) returns (ok: bool)
      requires Valid() && src.Valid() && src.Offset() == 0
      modifies src`position, dst, dst.memory
      ensures src.Valid()
      ensures var s, x := src.Payload(), RequestHeaderSize(variant, what);
              if |s| < x then !ok
              else
                var r := Load(root, s, x, old(dst.memory.mem), dst.addr, native, swap, what);
                && ok == r.Loaded?
                && (ok ==> dst.State() == if x == 0 then old(dst.State()).(mem := r.mem)
                                          else Target(if swap then Reverse(s[..8]) else s[..8], s[8..16], r.mem))
    {
      hide Load, Filled, Reverse, Zeros;
      if what.Sample? && variant.Request? {
        ok := TakeRequestHeader(src, dst, swap);
        if !ok {
          return;
        }
      }
      var de := new Deserializer(tsc, native);
      ok := de.Any(src, dst.memory, dst.addr, root, swap, what);
    }

    method TakeRequestHeader(src: DeserializeCursor, dst: Message, swap: bool) returns (ok: bool)
      requires src.Valid() && src.Offset() == 0
      modifies src`position, dst
      ensures src.Valid() && ok == (|src.Payload()| >= 16)
      ensures ok ==> src.Offset() == 16 && dst.seqno == src.Payload()[8..16]
                     && dst.guid == if swap then Reverse(src.Payload()[..8]) else src.Payload()[..8]
    {
      var g := src.Take(8);
      if g.None? {
        return false;
      }
      var q := src.Take(8);
      if q.None? {
        return false;
      }
      dst.guid := if swap then Reverse(g.value) else g.value;
      dst.seqno := q.value;
      ok := true;
    }
  }

  // ---------------------------------------------------------------- values seen in memory are cut already

  lemma {:induction false} CutValueOf(t: Type, m: Mem, a: int, native: Endian, what: SampleOrKey, bits: bool)
    ensures var v := ValueOf(t, m, a, native, what); Cut(t, v, what, bits) == v
    decreases t, 1, 0
  {
    hide ValueMembers, ValueElems, CutMembers, CutElems, Read;
    match t
    case Struct(ms, _) =>
      CutValueMembers(t, m, a, |ms|, native, what, bits);
      var vs := ValueMembers(t, m, a, |ms|, native, what);
      assert vs[..|ms|] == vs;
    case Array(e, n) =>
      CutValueElems(e, m, a, n, n, native, what, bits);
      assert ValueElems(e, m, a, n, native, what)[..n] == ValueElems(e, m, a, n, native, what);
    case Sequence(e, _, _) =>
      var (n, block) := BlockAt(m, a);
      CutValueElems(e, block, 0, n, n, native, what, bits);
      assert ValueElems(e, block, 0, n, native, what)[..n] == ValueElems(e, block, 0, n, native, what);
    case BoolVec(_, _) => assert AsBits(FlagBytes(BitsAt(m, a))) == FlagBytes(BitsAt(m, a));
    case _ =>
  }

  lemma {:induction false} CutValueMembers(
    t: Type, m: Mem, a: int, n: nat, native: Endian, what: SampleOrKey, bits: bool)
    requires t.Struct? && n <= |t.members|
    ensures var vs := ValueMembers(t, m, a, |t.members|, native, what);
            CutMembers(t, vs, n, what, bits) == vs[..n]
    decreases t, 0, n
  {
    hide ValueOf, Cut, ValueMembers, Selected;
    var vs := ValueMembers(t, m, a, |t.members|, native, what);
    if n > 0 {
      CutValueMembers(t, m, a, n - 1, native, what, bits);
      ValueMemberAt(t, m, a, |t.members|, native, what, n - 1);
      CutValueOf(t.members[n - 1].ty, m, a + t.members[n - 1].offset, native, what, bits);
      assert vs[..n] == vs[..n - 1] + [vs[n - 1]];
    }
  }

  lemma {:induction false} CutValueElems(
    e: Type, m: Mem, a: int, count: nat, n: nat, native: Endian, what: SampleOrKey, bits: bool)
    requires n <= count
    ensures var vs := ValueElems(e, m, a, count, native, what);
            CutElems(e, vs, n, what, bits) == vs[..n]
    decreases e, 2, n
  {
    hide ValueOf, Cut, ValueElems, Extent;
    var vs := ValueElems(e, m, a, count, native, what);
    if n > 0 {
      CutValueElems(e, m, a, count, n - 1, native, what, bits);
      ValueElemAt(e, m, a, count, native, what, n - 1);
      CutValueOf(e, m, a + Extent(e, n - 1), native, what, bits);
      assert vs[..n] == vs[..n - 1] + [vs[n - 1]];
    }
  }

  // ---------------------------------------------------------------- round trip

  /**
   What one machine writes another one reads, whatever their byte orders: the reader accepts the stream,
   sees the same value of the message, in key mode the same key, and touches nothing else.
   */
  lemma MessageRoundTrip(
    root: Type, variant: SampleOrRequest, src: Source, writer: Endian, reader: Endian,
    d: Target, a: int, what: SampleOrKey)
    requires root.Struct? && WellFormed(root) && Safe(root, 0, what) && HasBody(root, what) && ValidSource(src)
    requires HasType(ValueOf(root, src.mem, src.addr, writer, what), root, what)
    ensures var r := LoadStream(root, variant, Stream(root, variant, src, writer, what), d, a, reader, what);
            && r.Done?
            && ValueOf(root, r.target.mem, a, reader, what) == ValueOf(root, src.mem, src.addr, writer, what)
            && forall x :: !Touches(root, a, x, what) ==> SameAt(d.mem, r.target.mem, x)
  {
    hide Load, Coded, ValueOf, HasType, WellFormed, KeySafe, Touches, Store, Dec, Cut, Enc;
    var v := ValueOf(root, src.mem, src.addr, writer, what);
    var x := RequestHeaderSize(variant, what);
    var cdr := Stream(root, variant, src, writer, what);
    var body := Body(root, src, x, writer, what);
    StreamParts(root, variant, src, writer, what);
    var s, swap := cdr[4..], HeaderSwap(cdr[..4], reader);
    assert StreamOrder(reader, swap) == writer;
    CodedIsPlain(root, src.mem, src.addr, x, writer, what);
    RoundTrip(root, v, s, x, Both(writer), what);
    CutValueOf(root, src.mem, src.addr, writer, what, false);
    LoadIsPlain(root, s, x, d.mem, a, reader, swap, what);
    StoreValueOf(root, d.mem, a, v, reader, what);
    CutValueOf(root, src.mem, src.addr, writer, what, true);
    forall y | !Touches(root, a, y, what)
      ensures SameAt(d.mem, Store(root, d.mem, a, v, reader, what), y)
    {
      StoreFrame(root, d.mem, a, v, reader, what, y);
    }
  }

  /** The parts of a stream, seen from the reader. */
  lemma StreamParts(root: Type, variant: SampleOrRequest, src: Source, writer: Endian, what: SampleOrKey)
    requires root.Struct? && ValidSource(src)
    ensures var cdr := Stream(root, variant, src, writer, what);
            var x := RequestHeaderSize(variant, what);
            && |cdr| >= 4 + x && cdr[..4] == EncodingHeader(writer)
            && At(cdr[4..], x, Body(root, src, x, writer, what))
            && (x == 16 ==> cdr[4..][..8] == src.guid && cdr[4..][8..16] == src.seqno)
  {
    hide Body;
    var x := RequestHeaderSize(variant, what);
    var h, b := RequestHeader(src, variant, what), Body(root, src, x, writer, what);
    var cdr := Stream(root, variant, src, writer, what);
    assert cdr == EncodingHeader(writer) + (h + b);
    assert cdr[4..] == h + b;
    assert forall i :: 0 <= i < |b| ==> b[i] == (h + b)[x + i];
  }

  /** Where the request header that was read comes from. */
  lemma LoadedHeader(root: Type, cdr: seq<Byte>, d: Target, a: int, reader: Endian)
    requires root.Struct? && LoadStream(root, Request, cdr, d, a, reader, Sample).Done?
    ensures |cdr| >= 20
    ensures var r := LoadStream(root, Request, cdr, d, a, reader, Sample).target;
            && r.guid == (if HeaderSwap(cdr[..4], reader) then Reverse(cdr[4..][..8]) else cdr[4..][..8])
            && r.seqno == cdr[4..][8..16]
  {
    hide Load, Reverse;
  }

  /**
   The request header survives the trip: the guid always, the sequence number if and only if the two
   machines agree on byte order or its bytes read the same both ways.
   */
  lemma RequestHeaderRoundTrip(
    root: Type, src: Source, writer: Endian, reader: Endian, d: Target, a: int)
    requires root.Struct? && WellFormed(root) && ValidSource(src)
    requires HasType(ValueOf(root, src.mem, src.addr, writer, Sample), root, Sample)
    ensures var r := LoadStream(root, Request, Stream(root, Request, src, writer, Sample), d, a, reader, Sample);
            && r.Done?
            && InOrder(r.target.guid, reader) == InOrder(src.guid, writer)
            && (InOrder(r.target.seqno, reader) == InOrder(src.seqno, writer)
                <==> writer == reader || Reverse(src.seqno) == src.seqno)
  {
    hide LoadStream, Stream, ValueOf, HasType, WellFormed, Touches, Reverse;
    MessageRoundTrip(root, Request, src, writer, reader, d, a, Sample);
    StreamParts(root, Request, src, writer, Sample);
    LoadedHeader(root, Stream(root, Request, src, writer, Sample), d, a, reader);
    ReverseTwice(src.guid);
    ReverseTwice(src.seqno);
  }

  /** The header of a request as its writer holds it in memory is what crosses over to the reader. */
  lemma HeaderCrosses(
    root: Type, h: SR.Header, src: Source, writer: Endian, reader: Endian, d: Target, a: int)
    requires root.Struct? && WellFormed(root) && ValidSource(src)
    requires HasType(ValueOf(root, src.mem, src.addr, writer, Sample), root, Sample)
    requires src.guid == InOrder(h.guid, writer) && src.seqno == InOrder(h.seqno, writer)
    ensures var r := LoadStream(root, Request, Stream(root, Request, src, writer, Sample), d, a, reader, Sample);
            var h' := SR.Crossed(h, writer, reader);
            r.Done? && r.target.guid == InOrder(h'.guid, reader) && r.target.seqno == InOrder(h'.seqno, reader)
  {
    hide LoadStream, Stream, ValueOf, HasType, WellFormed, Touches, Reverse;
    MessageRoundTrip(root, Request, src, writer, reader, d, a, Sample);
    StreamParts(root, Request, src, writer, Sample);
    LoadedHeader(root, Stream(root, Request, src, writer, Sample), d, a, reader);
    ReverseTwice(h.guid);
    ReverseTwice(h.seqno);
  }

  /** A sequence number of one, sent to a machine of the other byte order, arrives as another number. */
  lemma SequenceNumberGarbled(root: Type, src: Source, d: Target, a: int)
    requires root.Struct? && WellFormed(root) && ValidSource(src)
    requires HasType(ValueOf(root, src.mem, src.addr, Little, Sample), root, Sample)
    requires src.seqno == [1, 0, 0, 0, 0, 0, 0, 0]
    ensures var r := LoadStream(root, Request, Stream(root, Request, src, Little, Sample), d, a, Big, Sample);
            r.Done? && InOrder(r.target.seqno, Big) != InOrder(src.seqno, Little)
  {
    hide Load, Coded, ValueOf, HasType, WellFormed;
    RequestHeaderRoundTrip(root, src, Little, Big, d, a);
    assert Reverse(src.seqno)[0] == 0;
  }

  /**
   The header of a request that a service sends back with its response reaches the client as the client sent it,
   sequence number included, whatever the byte orders of the two: not swapping it is undone by not swapping it.
   */
  lemma HeaderComesBack(
    req: Type, resp: Type, src: Source, answer: Source, client: Endian, service: Endian,
    d: Target, a: int, d': Target, a': int)
    requires req.Struct? && WellFormed(req) && ValidSource(src)
    requires resp.Struct? && WellFormed(resp)
    requires HasType(ValueOf(req, src.mem, src.addr, client, Sample), req, Sample)
    requires HasType(ValueOf(resp, answer.mem, answer.addr, service, Sample), resp, Sample)
    requires var r := LoadStream(req, Request, Stream(req, Request, src, client, Sample), d, a, service, Sample);
             r.Done? ==> answer.guid == r.target.guid && answer.seqno == r.target.seqno
    ensures var r := LoadStream(resp, Request, Stream(resp, Request, answer, service, Sample), d', a', client, Sample);
            r.Done? && r.target.guid == src.guid && r.target.seqno == src.seqno
  {
    hide LoadStream, Stream, ValueOf, HasType, WellFormed, Touches, Reverse;
    MessageRoundTrip(req, Request, src, client, service, d, a, Sample);
    StreamParts(req, Request, src, client, Sample);
    LoadedHeader(req, Stream(req, Request, src, client, Sample), d, a, service);
    MessageRoundTrip(resp, Request, answer, service, client, d', a', Sample);
    StreamParts(resp, Request, answer, service, Sample);
    LoadedHeader(resp, Stream(resp, Request, answer, service, Sample), d', a', client);
    ReverseTwice(src.guid);
  }

  /**
   On any byte string at all the reader throws or decodes a well-typed value that lies inside the input
   and takes exactly the bytes that its encoding takes.
   */
  lemma AnyInput(t: Type, s: seq<Byte>, off: nat, m: Mem, a: int, native: Endian, swap: bool)
    requires off <= |s|
    ensures var r := Load(t, s, off, m, a, native, swap, Sample);
            r.Loaded? ==>
              exists v: Value ::
                && HasType(v, t, Sample) && r.mem == Store(t, m, a, v, native, Sample)
                && r.end == off + |Enc(t, v, off, Both(native), Sample)| <= |s|
  {
    hide Load, Dec, Enc, Store, HasType;
    LoadIsPlain(t, s, off, m, a, native, swap, Sample);
    var o := Both(StreamOrder(native, swap));
    var r := Dec(t, s, off, o, Sample);
    if r.Good? {
      DecConsumesSize(t, s, off, o, Sample, Both(native));
      assert HasType(r.v, t, Sample) && r.end == off + |Enc(t, r.v, off, Both(native), Sample)| <= |s|;
    }
  }

  // ---------------------------------------------------------------- what reading a key leaves alone

  /**
   From the sample `v` to the sample `w` no member outside the key has changed, at any depth;
   elements that a sequence had before and has now count as the same.
   */
  predicate KeepsRest(t: Type, v: Value, w: Value)
    decreases t
  {
    match t
    case Struct(ms, _) =>
      forall i :: 0 <= i < |ms| ==>
        if Selected(t, i, Key) then KeepsRest(ms[i].ty, Get(Fields(v), i), Get(Fields(w), i))
        else Get(Fields(v), i) == Get(Fields(w), i)
    case Array(e, n) => forall i :: 0 <= i < n ==> KeepsRest(e, Get(Elems(v), i), Get(Elems(w), i))
    case Sequence(e, _, _) =>
      forall i :: 0 <= i < |Elems(v)| && i < |Elems(w)| ==> KeepsRest(e, Get(Elems(v), i), Get(Elems(w), i))
    case _ => true
  }

  lemma {:induction false} NothingChanged(t: Type, v: Value)
    ensures KeepsRest(t, v, v)
    decreases t
  {
    match t
    case Struct(ms, _) =>
      forall i | 0 <= i < |ms| ensures KeepsRest(ms[i].ty, Get(Fields(v), i), Get(Fields(v), i)) {
        NothingChanged(ms[i].ty, Get(Fields(v), i));
      }
    case Array(e, n) =>
      forall i | 0 <= i < n ensures KeepsRest(e, Get(Elems(v), i), Get(Elems(v), i)) {
        NothingChanged(e, Get(Elems(v), i));
      }
    case Sequence(e, _, _) =>
      forall i | 0 <= i < |Elems(v)| ensures KeepsRest(e, Get(Elems(v), i), Get(Elems(v), i)) {
        NothingChanged(e, Get(Elems(v), i));
      }
    case _ =>
  }

  function MemberValue(t: Type, m: Mem, a: int, native: Endian, i: nat): Value
    requires t.Struct? && i < |t.members|
  {
    ValueOf(t.members[i].ty, m, a + t.members[i].offset, native, Sample)
  }

  /** Member `i` changes only when it is stored itself. */
  lemma {:induction false} MemberAfter(t: Type, m: Mem, a: int, vs: seq<Value>, n: nat, native: Endian, i: nat)
    requires t.Struct? && WellFormed(t) && n <= |t.members| && i < |t.members|
    ensures MemberValue(t, StoreMembers(t, m, a, vs, n, native, Key), a, native, i)
            == if n <= i || !Selected(t, i, Key) then MemberValue(t, m, a, native, i)
               else
                 var y, m0 := t.members[i], StoreMembers(t, m, a, vs, i, native, Key);
                 MemberValue(t, Store(y.ty, m0, a + y.offset, Get(vs, i), native, Key), a, native, i)
    decreases n
  {
    hide Store, ValueOf, WellFormed, Selected;
    if n > 0 {
      MemberAfter(t, m, a, vs, n - 1, native, i);
      if n - 1 != i && Selected(t, n - 1, Key) {
        var m' := StoreMembers(t, m, a, vs, n - 1, native, Key);
        OtherMemberKept(t, m', a, Get(vs, n - 1), n - 1, i, native, Key, Sample);
      }
    }
  }

  /** Storing element `k` leaves the other elements alone. */
  lemma OtherElemKept(e: Type, m: Mem, a: int, v: Value, k: nat, i: nat, native: Endian)
    requires WellFormed(e) && i != k
    ensures ValueOf(e, Store(e, m, a + Extent(e, k), v, native, Key), a + Extent(e, i), native, Sample)
            == ValueOf(e, m, a + Extent(e, i), native, Sample)
  {
    hide Store, ValueOf, Touches, Extent, WellFormed;
    var p, q := a + Extent(e, k), a + Extent(e, i);
    var m' := Store(e, m, p, v, native, Key);
    if i < k { ElementInside(e, i, k); } else { ElementInside(e, k, i); }
    forall z | q <= z < q + SizeOf(e)
      ensures SameAt(m, m', z)
    {
      if Touches(e, p, z, Key) {
        TouchesInside(e, p, z, Key);
      }
      StoreFrame(e, m, p, v, native, Key, z);
    }
    ValueOfFrame(e, m, m', q, native, Sample);
  }

  lemma {:induction false} ElemAfter(e: Type, m: Mem, a: int, vs: seq<Value>, n: nat, native: Endian, i: nat)
    requires WellFormed(e)
    ensures ValueOf(e, StoreElems(e, m, a, vs, n, native, Key), a + Extent(e, i), native, Sample)
            == if n <= i then ValueOf(e, m, a + Extent(e, i), native, Sample)
               else
                 var m0, p := StoreElems(e, m, a, vs, i, native, Key), a + Extent(e, i);
                 ValueOf(e, Store(e, m0, p, Get(vs, i), native, Key), p, native, Sample)
    decreases n
  {
    hide Store, ValueOf, WellFormed, Extent;
    if n > 0 {
      ElemAfter(e, m, a, vs, n - 1, native, i);
      if n - 1 != i {
        OtherElemKept(e, StoreElems(e, m, a, vs, n - 1, native, Key), a, Get(vs, n - 1), n - 1, i, native);
      }
    }
  }

  lemma KeepsMembers(t: Type, xs: seq<Value>, ys: seq<Value>)
    requires t.Struct? && |xs| == |ys| == |t.members|
    requires forall i :: 0 <= i < |xs| ==>
               if Selected(t, i, Key) then KeepsRest(t.members[i].ty, xs[i], ys[i]) else xs[i] == ys[i]
    ensures KeepsRest(t, VStruct(xs), VStruct(ys))
  {
    hide Selected;
  }

  lemma KeepsElems(t: Type, xs: seq<Value>, ys: seq<Value>)
    requires t.Array? || t.Sequence?
    requires t.Array? ==> |xs| == |ys| == t.count
    requires forall i :: 0 <= i < |xs| && i < |ys| ==> KeepsRest(t.elem, xs[i], ys[i])
    ensures KeepsRest(t, VList(xs), VList(ys))
  {
  }

  /** Storing a key changes no member outside the key. */
  lemma {:induction false} StoreKeepsRest(t: Type, m: Mem, a: int, v: Value, native: Endian)
    requires WellFormed(t)
    ensures var m' := Store(t, m, a, v, native, Key);
            KeepsRest(t, ValueOf(t, m, a, native, Sample), ValueOf(t, m', a, native, Sample))
    decreases t, 2
  {
    hide StoreMembers, StoreElems, ValueMembers, ValueElems, WellFormed, KeepsRest;
    WellFormedBelow(t);
    match t
    case Struct(ms, _) =>
      MembersKeepRest(t, m, a, Fields(v), native);
    case Array(e, n) =>
      ArrayKeepsRest(t, m, a, v, native);
    case Sequence(e, _, _) => SequenceKeepsRest(t, m, a, v, native);
    case _ => LeafKeeps(t, ValueOf(t, m, a, native, Sample),
      ValueOf(t, Store(t, m, a, v, native, Key), a, native, Sample));
  }

  lemma LeafKeeps(t: Type, v: Value, w: Value)
    requires t.Prim? || t.Str? || t.WStr? || t.BoolVec?
    ensures KeepsRest(t, v, w)
  {
  }

  lemma {:induction false} MembersKeepRest(t: Type, m: Mem, a: int, vs: seq<Value>, native: Endian)
    requires t.Struct? && WellFormed(t)
    ensures var n := |t.members|;
            var m' := StoreMembers(t, m, a, vs, n, native, Key);
            KeepsRest(t, VStruct(ValueMembers(t, m, a, n, native, Sample)),
                      VStruct(ValueMembers(t, m', a, n, native, Sample)))
    decreases t, 1
  {
    hide StoreMembers, ValueMembers, ValueOf, Store, WellFormed, Selected, KeepsRest;
    WellFormedBelow(t);
    var n := |t.members|;
    var m' := StoreMembers(t, m, a, vs, n, native, Key);
    var xs, ys := ValueMembers(t, m, a, n, native, Sample), ValueMembers(t, m', a, n, native, Sample);
    forall i | 0 <= i < n
      ensures if Selected(t, i, Key) then KeepsRest(t.members[i].ty, xs[i], ys[i]) else xs[i] == ys[i]
    {
      SelectedMeans(t, i, Sample);
      ValueMemberAt(t, m, a, n, native, Sample, i);
      ValueMemberAt(t, m', a, n, native, Sample, i);
      MemberAfter(t, m, a, vs, n, native, i);
      MemberAfter(t, m, a, vs, i, native, i);
      var y, m0 := t.members[i], StoreMembers(t, m, a, vs, i, native, Key);
      StoreKeepsRest(y.ty, m0, a + y.offset, Get(vs, i), native);
    }
    KeepsMembers(t, xs, ys);
  }

  lemma {:induction false} ElemKeepsRest(e: Type, m: Mem, a: int, vs: seq<Value>, n: nat, native: Endian, i: nat)
    requires WellFormed(e) && i < n
    ensures var m' := StoreElems(e, m, a, vs, n, native, Key);
            KeepsRest(e, ValueElems(e, m, a, n, native, Sample)[i], ValueElems(e, m', a, n, native, Sample)[i])
    decreases e, 3
  {
    hide StoreElems, Store, ValueOf, ValueElems, WellFormed, Extent, KeepsRest;
    var m' := StoreElems(e, m, a, vs, n, native, Key);
    ValueElemAt(e, m, a, n, native, Sample, i);
    ValueElemAt(e, m', a, n, native, Sample, i);
    ElemAfter(e, m, a, vs, n, native, i);
    ElemAfter(e, m, a, vs, i, native, i);
    StoreKeepsRest(e, StoreElems(e, m, a, vs, i, native, Key), a + Extent(e, i), Get(vs, i), native);
  }

  lemma {:induction false} ArrayKeepsRest(t: Type, m: Mem, a: int, v: Value, native: Endian)
    requires t.Array? && WellFormed(t)
    ensures var m' := Store(t, m, a, v, native, Key);
            KeepsRest(t, ValueOf(t, m, a, native, Sample), ValueOf(t, m', a, native, Sample))
    decreases t, 1
  {
    hide StoreElems, ValueElems, WellFormed, Extent;
    WellFormedBelow(t);
    var e, n := t.elem, t.count;
    var m' := StoreElems(e, m, a, Elems(v), n, native, Key);
    var xs, ys := ValueElems(e, m, a, n, native, Sample), ValueElems(e, m', a, n, native, Sample);
    forall i: nat | i < n
      ensures KeepsRest(e, xs[i], ys[i])
    {
      ElemKeepsRest(e, m, a, Elems(v), n, native, i);
    }
    KeepsElems(t, xs, ys);
  }

  lemma {:induction false} SequenceKeepsRest(t: Type, m: Mem, a: int, v: Value, native: Endian)
    requires t.Sequence? && WellFormed(t)
    ensures var m' := Store(t, m, a, v, native, Key);
            KeepsRest(t, ValueOf(t, m, a, native, Sample), ValueOf(t, m', a, native, Sample))
    decreases t, 1
  {
    hide StoreElems, ValueElems, WellFormed, Extent, Resize, KeepsRest;
    WellFormedBelow(t);
    var e, n := t.elem, |Elems(v)|;
    var (c, block) := BlockAt(m, a);
    var resized := Resize(block, Extent(e, n));
    var stored := StoreElems(e, resized, 0, Elems(v), n, native, Key);
    var xs, ys := ValueElems(e, block, 0, c, native, Sample), ValueElems(e, stored, 0, n, native, Sample);
    forall i: nat | i < c && i < n
      ensures KeepsRest(e, xs[i], ys[i])
    {
      ElemKeepsRest(e, resized, 0, Elems(v), n, native, i);
      ResizedElem(e, block, c, n, native, i);
    }
    KeepsElems(t, xs, ys);
    assert BlockAt(Own(m, a, Block(n, stored)), a) == (n, stored);
  }

  /** An element that a sequence had and still has is as it was before it is stored anew. */
  lemma ResizedElem(e: Type, block: Mem, c: nat, n: nat, native: Endian, i: nat)
    requires WellFormed(e) && i < c && i < n
    ensures ValueElems(e, block, 0, c, native, Sample)[i]
            == ValueElems(e, Resize(block, Extent(e, n)), 0, n, native, Sample)[i]
  {
    hide ValueElems, ValueOf, WellFormed, Extent, Resize;
    var resized := Resize(block, Extent(e, n));
    ValueElemAt(e, block, 0, c, native, Sample, i);
    ValueElemAt(e, resized, 0, n, native, Sample, i);
    ElementInside(e, i, n);
    ResizeKeeps(block, Extent(e, n), Extent(e, i), SizeOf(e));
    ValueOfFrame(e, block, resized, 0 + Extent(e, i), native, Sample);
  }

  lemma ResizeKeeps(m: Mem, size: nat, lo: nat, len: nat)
    requires lo + len <= size
    ensures SameOn(m, Resize(m, size), 0 + lo, 0 + lo + len)
  {
  }

  /** Reading in key mode, from any input, leaves everything that is not part of the key as it was. */
  lemma KeyReadKeepsRest(
    root: Type, variant: SampleOrRequest, cdr: seq<Byte>, d: Target, a: int, native: Endian)
    requires root.Struct? && WellFormed(root) && KeySafe(root, 0, Key)
    ensures var r := LoadStream(root, variant, cdr, d, a, native, Key);
            r.Done? ==>
              KeepsRest(root, ValueOf(root, d.mem, a, native, Sample), ValueOf(root, r.target.mem, a, native, Sample))
  {
    hide Load, Dec, Store, ValueOf, WellFormed, KeySafe, KeepsRest;
    NothingChanged(root, ValueOf(root, d.mem, a, native, Sample));
    if HasBody(root, Key) && |cdr| >= 4 && HeaderKnown(cdr[..4]) {
      var s, swap := cdr[4..], HeaderSwap(cdr[..4], native);
      LoadIsPlain(root, s, 0, d.mem, a, native, swap, Key);
      var r := Dec(root, s, 0, Both(StreamOrder(native, swap)), Key);
      if r.Good? {
        StoreKeepsRest(root, d.mem, a, r.v, native);
      }
    }
  }
}
