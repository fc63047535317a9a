/**
 What the reader leaves in memory, shortcuts included, as a function of input and memory;
 and when that is decoding a value plainly and storing it.
 */
module ReaderPaths {
  import opened Bytes
  import opened Types
  import opened TrivCache
  import opened Cdr
  import opened NativeMemory
  import opened WriterPaths
  import opened Reach

  /** Memory and the offset the input has been consumed to, or an exception. */
  datatype Loading = Thrown | Loaded(mem: Mem, end: nat)

  function StreamOrder(native: Endian, swap: bool): Endian {
    if swap then native.Other() else native
  }

  /** `n` bytes of input copied to memory. */
  function Copied(s: seq<Byte>, off: nat, n: nat, m: Mem, a: int): Loading {
    if off + n <= |s| then Loaded(Write(m, a, Slice(s, off, n)), off + n) else Thrown
  }

  function Load(t: Type, s: seq<Byte>, off: nat, m: Mem, a: int, native: Endian, swap: bool, what: SampleOrKey)
    : (r: Loading)
    requires off <= |s|
    ensures r.Loaded? ==> off <= r.end <= |s|
    decreases t, 1, 0
  {
    if !swap && what.Sample? && Triv(t, off) then Copied(s, off, SizeOf(t), m, a)
    else
      match t
      case Struct(ms, _) => LoadMembers(t, |ms|, s, off, m, a, native, swap, what)
      case Array(e, n) => LoadMany(e, n, s, off, m, a, native, swap, what)
      case Sequence(e, _, _) =>
        var c := DecU32(s, off, StreamOrder(native, swap));
        if c.BadWord? then Thrown
        else
          var block := Resize(BlockAt(m, a).1, Extent(e, c.n));
          var r := LoadMany(e, c.n, s, c.end, block, 0, native, swap, what);
          if r.Thrown? then Thrown else Loaded(Own(m, a, Block(c.n, r.mem)), r.end)
      case _ =>
        var r := DecLeaf(t, s, off, Both(StreamOrder(native, swap)));
        if r.Bad? then Thrown else Loaded(Store(t, m, a, r.v, native, what), r.end)
  }

  function LoadMembers(
    t: Type, n: nat, s: seq<Byte>, off: nat, m: Mem, a: int, native: Endian, swap: bool, what: SampleOrKey)
    : (r: Loading)
    requires t.Struct? && n <= |t.members| && off <= |s|
    ensures r.Loaded? ==> off <= r.end <= |s|
    decreases t, 0, n
  {
    if n == 0 then Loaded(m, off)
    else
      var p := LoadMembers(t, n - 1, s, off, m, a, native, swap, what);
      if p.Thrown? || !Selected(t, n - 1, what) then p
      else Load(t.members[n - 1].ty, s, p.end, p.mem, a + t.members[n - 1].offset, native, swap, what)
  }

  function LoadMany(
    e: Type, n: nat, s: seq<Byte>, off: nat, m: Mem, a: int, native: Endian, swap: bool, what: SampleOrKey)
    : (r: Loading)
    requires off <= |s|
    ensures r.Loaded? ==> off <= r.end <= |s|
    decreases e, 3, n
  {
    if n == 0 then Loaded(m, off)
    else
      var first := Load(e, s, off, m, a, native, swap, what);
      if first.Thrown? || n == 1 then first
      else if !swap && ManyTriv(e, first.end)
      then Copied(s, first.end, Extent(e, n - 1), first.mem, a + SizeOf(e))
      else LoadElems(e, n, s, off, m, a, native, swap, what)
  }

  function LoadElems(
    e: Type, n: nat, s: seq<Byte>, off: nat, m: Mem, a: int, native: Endian, swap: bool, what: SampleOrKey)
    : (r: Loading)
    requires off <= |s|
    ensures r.Loaded? ==> off <= r.end <= |s|
    decreases e, 2, n
  {
    if n == 0 then Loaded(m, off)
    else
      var p := LoadElems(e, n - 1, s, off, m, a, native, swap, what);
      if p.Thrown? then p else Load(e, s, p.end, p.mem, a + Extent(e, n - 1), native, swap, what)
  }

  // ---------------------------------------------------------------- the plain reader

  function Plainly(t: Type, s: seq<Byte>, off: nat, m: Mem, a: int, native: Endian, order: Endian, what: SampleOrKey)
    : Loading
    requires off <= |s|
  {
    var r := Dec(t, s, off, Both(order), what);
    if r.Bad? then Thrown else Loaded(Store(t, m, a, r.v, native, what), r.end)
  }

  function PlainlyMembers(
    t: Type, n: nat, s: seq<Byte>, off: nat, m: Mem, a: int, native: Endian, order: Endian, what: SampleOrKey)
    : Loading
    requires t.Struct? && n <= |t.members| && off <= |s|
  {
    var r := DecMembers(t, n, s, off, Both(order), what);
    if r.BadSeq? then Thrown else Loaded(StoreMembers(t, m, a, r.vs, n, native, what), r.end)
  }

  function PlainlyElems(
    e: Type, n: nat, s: seq<Byte>, off: nat, m: Mem, a: int, native: Endian, order: Endian, what: SampleOrKey)
    : Loading
    requires off <= |s|
  {
    var r := DecElems(e, n, s, off, Both(order), what);
    if r.BadSeq? then Thrown else Loaded(StoreElems(e, m, a, r.vs, n, native, what), r.end)
  }

  lemma {:induction false} StoreMembersPrefix(
    t: Type, m: Mem, a: int, vs: seq<Value>, ws: seq<Value>, n: nat, native: Endian, what: SampleOrKey)
    requires t.Struct? && n <= |t.members| && n <= |vs| && vs <= ws
    ensures StoreMembers(t, m, a, vs, n, native, what) == StoreMembers(t, m, a, ws, n, native, what)
  {
    hide Store;
    if n > 0 {
      StoreMembersPrefix(t, m, a, vs, ws, n - 1, native, what);
      assert Get(vs, n - 1) == Get(ws, n - 1);
    }
  }

  lemma {:induction false} StoreElemsPrefix(
    e: Type, m: Mem, a: int, vs: seq<Value>, ws: seq<Value>, n: nat, native: Endian, what: SampleOrKey)
    requires n <= |vs| && vs <= ws
    ensures StoreElems(e, m, a, vs, n, native, what) == StoreElems(e, m, a, ws, n, native, what)
  {
    hide Store, Extent;
    if n > 0 {
      StoreElemsPrefix(e, m, a, vs, ws, n - 1, native, what);
      assert Get(vs, n - 1) == Get(ws, n - 1);
    }
  }

  /** Reading one more member plainly. */
  lemma PlainMembersStep(
    t: Type, n: nat, s: seq<Byte>, off: nat, m: Mem, a: int, native: Endian, order: Endian, what: SampleOrKey)
    requires t.Struct? && 0 < n <= |t.members| && off <= |s|
    ensures var p := PlainlyMembers(t, n - 1, s, off, m, a, native, order, what);
            PlainlyMembers(t, n, s, off, m, a, native, order, what)
            == if p.Thrown? || !Selected(t, n - 1, what) then p
               else Plainly(t.members[n - 1].ty, s, p.end, p.mem, a + t.members[n - 1].offset, native, order, what)
  {
    hide Dec, Store, Selected;
    var q := DecMembers(t, n - 1, s, off, Both(order), what);
    var r := DecMembers(t, n, s, off, Both(order), what);
    if r.GoodSeq? {
      assert q.vs <= r.vs;
      StoreMembersPrefix(t, m, a, q.vs, r.vs, n - 1, native, what);
    }
  }

  /** Reading one more element plainly. */
  lemma PlainElemsStep(
    e: Type, n: nat, s: seq<Byte>, off: nat, m: Mem, a: int, native: Endian, order: Endian, what: SampleOrKey)
    requires 0 < n && off <= |s|
    ensures var p := PlainlyElems(e, n - 1, s, off, m, a, native, order, what);
            p.Loaded? ==> p.end <= |s|
    ensures var p := PlainlyElems(e, n - 1, s, off, m, a, native, order, what);
            PlainlyElems(e, n, s, off, m, a, native, order, what)
            == if p.Thrown? then p
               else Plainly(e, s, p.end, p.mem, a + Extent(e, n - 1), native, order, what)
  {
    hide Dec, Store, Extent;
    var q := DecElems(e, n - 1, s, off, Both(order), what);
    var r := DecElems(e, n, s, off, Both(order), what);
    if r.GoodSeq? {
      assert q.vs <= r.vs;
      StoreElemsPrefix(e, m, a, q.vs, r.vs, n - 1, native, what);
    }
  }

  // ---------------------------------------------------------------- whole types look the same in both modes

  lemma {:induction false} WholeDec(t: Type, s: seq<Byte>, off: nat, o: Orders)
    requires Whole(t) && off <= |s|
    ensures Dec(t, s, off, o, Key) == Dec(t, s, off, o, Sample)
    decreases t, 1, 0
  {
    hide DecMembers, DecElems, DecU32, DecLeaf;
    match t
    case Struct(ms, _) => WholeDecMembers(t, |ms|, s, off, o);
    case Array(e, n) => WholeDecElems(e, n, s, off, o);
    case Sequence(e, _, _) =>
      var c := DecU32(s, off, o.num);
      if c.GoodWord? {
        WholeDecElems(e, c.n, s, c.end, o);
      }
    case _ =>
  }

  lemma {:induction false} WholeDecMembers(t: Type, n: nat, s: seq<Byte>, off: nat, o: Orders)
    requires t.Struct? && Whole(t) && n <= |t.members| && off <= |s|
    ensures DecMembers(t, n, s, off, o, Key) == DecMembers(t, n, s, off, o, Sample)
    decreases t, 0, n
  {
    hide Dec;
    if n > 0 {
      WholeDecMembers(t, n - 1, s, off, o);
      assert Selected(t, n - 1, Key) && Whole(t.members[n - 1].ty);
      var p := DecMembers(t, n - 1, s, off, o, Key);
      if p.GoodSeq? {
        WholeDec(t.members[n - 1].ty, s, p.end, o);
      }
    }
  }

  lemma {:induction false} WholeDecElems(e: Type, n: nat, s: seq<Byte>, off: nat, o: Orders)
    requires Whole(e) && off <= |s|
    ensures DecElems(e, n, s, off, o, Key) == DecElems(e, n, s, off, o, Sample)
    decreases e, 2, n
  {
    hide Dec;
    if n > 0 {
      WholeDecElems(e, n - 1, s, off, o);
      var p := DecElems(e, n - 1, s, off, o, Key);
      if p.GoodSeq? {
        WholeDec(e, s, p.end, o);
      }
    }
  }

  lemma {:induction false} WholeStore(t: Type, m: Mem, a: int, v: Value, native: Endian)
    requires Whole(t)
    ensures Store(t, m, a, v, native, Key) == Store(t, m, a, v, native, Sample)
    decreases t, 1, 0
  {
    hide StoreMembers, StoreElems, Extent;
    match t
    case Struct(ms, _) => WholeStoreMembers(t, m, a, Fields(v), |ms|, native);
    case Array(e, n) => WholeStoreElems(e, m, a, Elems(v), n, native);
    case Sequence(e, _, _) =>
      var n := |Elems(v)|;
      WholeStoreElems(e, Resize(BlockAt(m, a).1, Extent(e, n)), 0, Elems(v), n, native);
    case _ =>
  }

  lemma {:induction false} WholeStoreMembers(t: Type, m: Mem, a: int, vs: seq<Value>, n: nat, native: Endian)
    requires t.Struct? && Whole(t) && n <= |t.members|
    ensures StoreMembers(t, m, a, vs, n, native, Key) == StoreMembers(t, m, a, vs, n, native, Sample)
    decreases t, 0, n
  {
    hide Store;
    if n > 0 {
      WholeStoreMembers(t, m, a, vs, n - 1, native);
      assert Selected(t, n - 1, Key) && Whole(t.members[n - 1].ty);
      WholeStore(t.members[n - 1].ty, StoreMembers(t, m, a, vs, n - 1, native, Key),
        a + t.members[n - 1].offset, Get(vs, n - 1), native);
    }
  }

  lemma {:induction false} WholeStoreElems(e: Type, m: Mem, a: int, vs: seq<Value>, n: nat, native: Endian)
    requires Whole(e)
    ensures StoreElems(e, m, a, vs, n, native, Key) == StoreElems(e, m, a, vs, n, native, Sample)
    decreases e, 2, n
  {
    hide Store, Extent;
    if n > 0 {
      WholeStoreElems(e, m, a, vs, n - 1, native);
      WholeStore(e, StoreElems(e, m, a, vs, n - 1, native, Key), a + Extent(e, n - 1), Get(vs, n - 1), native);
    }
  }

  // ---------------------------------------------------------------- shortcuts are invisible

  /** Reading a trivially serialized value plainly, in native order, copies it. */
  lemma CopyIsPlain(t: Type, s: seq<Byte>, off: nat, m: Mem, a: int, native: Endian, what: SampleOrKey)
    requires off <= |s| && Triv(t, off) && (what.Sample? || Whole(t))
    ensures Plainly(t, s, off, m, a, native, native, what) == Copied(s, off, SizeOf(t), m, a)
  {
    hide Dec, Store, Triv, Whole, Write, Slice;
    TrivDecEnd(t, s, off, Both(native));
    var r := Dec(t, s, off, Both(native), Sample);
    if what.Key? {
      WholeDec(t, s, off, Both(native));
      if r.Good? {
        WholeStore(t, m, a, r.v, native);
      }
    }
    if r.Good? {
      TrivStore(t, s, off, Both(native), m, a);
    }
  }

  /** One element read the long way, then all others copied at once. */
  lemma {:induction false} BulkLoad(
    e: Type, n: nat, s: seq<Byte>, off: nat, m: Mem, a: int, native: Endian, what: SampleOrKey)
    requires off <= |s| && n > 0 && (what.Sample? || Whole(e))
    requires var first := Plainly(e, s, off, m, a, native, native, what);
             first.Loaded? && first.end <= |s| && ManyTriv(e, first.end)
    ensures var first := Plainly(e, s, off, m, a, native, native, what);
            PlainlyElems(e, n, s, off, m, a, native, native, what)
            == Copied(s, first.end, Extent(e, n - 1), first.mem, a + SizeOf(e))
    decreases n
  {
    hide Plainly, PlainlyElems, Extent, ManyTriv, Whole, Write, Slice;
    ExtentZero(e);
    var first := Plainly(e, s, off, m, a, native, native, what);
    PlainElemsStep(e, n, s, off, m, a, native, native, what);
    if n == 1 {
      NoPlainElems(e, s, off, m, a, native, native, what);
      WriteNothing(first.mem, a + SizeOf(e), s, first.end);
    } else {
      BulkLoad(e, n - 1, s, off, m, a, native, what);
      ExtentStep(e, n - 1);
      ManyTrivEverywhere(e, first.end, n - 2);
      var x: nat := Extent(e, n - 2);
      if first.end + x <= |s| {
        CopyIsPlain(e, s, first.end + x, Write(first.mem, a + SizeOf(e), Slice(s, first.end, x)),
          a + Extent(e, n - 1), native, what);
        if first.end + x + SizeOf(e) <= |s| {
          WriteSlices(first.mem, a + SizeOf(e), s, first.end, x, SizeOf(e));
        }
      }
    }
  }

  lemma NoPlainElems(
    e: Type, s: seq<Byte>, off: nat, m: Mem, a: int, native: Endian, order: Endian, what: SampleOrKey)
    requires off <= |s|
    ensures PlainlyElems(e, 0, s, off, m, a, native, order, what) == Loaded(m, off)
  {
  }

  predicate SafeToLoad(t: Type, off: nat, swap: bool, what: SampleOrKey) {
    swap || Safe(t, off, what)
  }

  predicate SafeToLoadMany(e: Type, n: nat, off: nat, swap: bool, what: SampleOrKey) {
    swap || what.Sample? || ElemsSafe(e, n, off % MAX_ALIGN, Key)
  }

  predicate SafeToLoadEach(e: Type, n: nat, off: nat, swap: bool, what: SampleOrKey) {
    swap || what.Sample? || StartsSafe(e, n, off % MAX_ALIGN, Key)
  }

  /**
   The optimised reader, whichever mix of copies and field-by-field steps it takes, throws exactly when
   the plain reader does and otherwise leaves the same memory and the same end offset.
   */
  lemma {:induction false} LoadIsPlain(
    t: Type, s: seq<Byte>, off: nat, m: Mem, a: int, native: Endian, swap: bool, what: SampleOrKey)
    requires off <= |s| && SafeToLoad(t, off, swap, what)
    ensures Load(t, s, off, m, a, native, swap, what)
            == Plainly(t, s, off, m, a, native, StreamOrder(native, swap), what)
    decreases t, 1, 0
  {
    hide LoadMembers, LoadMany, DecMembers, DecElems, StoreMembers, StoreElems, Triv, DecU32, DecLeaf, Write, Slice,
      Extent;
    if !swap && what.Sample? && Triv(t, off) {
      CopyIsPlain(t, s, off, m, a, native, what);
    } else {
      match t
      case Struct(ms, _) => LoadMembersPlain(t, |ms|, s, off, m, a, native, swap, what);
      case Array(e, n) => LoadManyPlain(e, n, s, off, m, a, native, swap, what);
      case Sequence(e, _, _) => LoadSequencePlain(t, s, off, m, a, native, swap, what);
      case _ =>
    }
  }

  lemma {:induction false} LoadSequencePlain(
    t: Type, s: seq<Byte>, off: nat, m: Mem, a: int, native: Endian, swap: bool, what: SampleOrKey)
    requires t.Sequence? && off <= |s| && SafeToLoad(t, off, swap, what)
    ensures Load(t, s, off, m, a, native, swap, what)
            == Plainly(t, s, off, m, a, native, StreamOrder(native, swap), what)
    decreases t, 0, 0
  {
    hide LoadMany, DecElems, StoreElems, DecU32, Extent, KeySafe, ElemsSafe;
    var c := DecU32(s, off, StreamOrder(native, swap));
    if c.GoodWord? {
      if !swap && what.Key? {
        CountedSafe(t, s, off, native, Key);
      }
      LoadManyPlain(t.elem, c.n, s, c.end, Resize(BlockAt(m, a).1, Extent(t.elem, c.n)), 0, native, swap, what);
    }
  }

  lemma {:induction false} LoadMembersPlain(
    t: Type, n: nat, s: seq<Byte>, off: nat, m: Mem, a: int, native: Endian, swap: bool, what: SampleOrKey)
    requires t.Struct? && n <= |t.members| && off <= |s| && SafeToLoad(t, off, swap, what)
    ensures LoadMembers(t, n, s, off, m, a, native, swap, what)
            == PlainlyMembers(t, n, s, off, m, a, native, StreamOrder(native, swap), what)
    decreases t, 0, n
  {
    hide Load, Plainly, Selected, Dec, Store, KeySafe;
    if n > 0 {
      LoadMembersPlain(t, n - 1, s, off, m, a, native, swap, what);
      PlainMembersStep(t, n, s, off, m, a, native, StreamOrder(native, swap), what);
      var p := LoadMembers(t, n - 1, s, off, m, a, native, swap, what);
      if p.Loaded? && Selected(t, n - 1, what) {
        if !swap && what.Key? {
          MemberSafe(t, n - 1, s, off, Both(native), Key);
        }
        LoadIsPlain(t.members[n - 1].ty, s, p.end, p.mem, a + t.members[n - 1].offset, native, swap, what);
      }
    }
  }

  lemma {:induction false} LoadManyPlain(
    e: Type, n: nat, s: seq<Byte>, off: nat, m: Mem, a: int, native: Endian, swap: bool, what: SampleOrKey)
    requires off <= |s| && SafeToLoadMany(e, n, off, swap, what)
    ensures LoadMany(e, n, s, off, m, a, native, swap, what)
            == PlainlyElems(e, n, s, off, m, a, native, StreamOrder(native, swap), what)
    decreases e, 3, n
  {
    hide Load, LoadElems, PlainlyElems, ManyTriv, Whole, NeverBulk, KeySafe, StartsSafe, Extent, Copied, Dec, Store;
    var order := StreamOrder(native, swap);
    NoPlainElems(e, s, off, m, a, native, order, what);
    if n > 0 {
      if !swap && what.Key? {
        SafeStarts(e, n, off % MAX_ALIGN, Key);
        FirstSafe(e, n, off % MAX_ALIGN, Key);
      }
      LoadIsPlain(e, s, off, m, a, native, swap, what);
      var first := Load(e, s, off, m, a, native, swap, what);
      if first.Thrown? || n == 1 || !(!swap && ManyTriv(e, first.end)) {
        LoadOneByOne(e, n, s, off, m, a, native, swap, what);
      } else {
        if what.Key? && !Whole(e) {
          NotTakenInInput(e, s, off, Both(native), Key);
        }
        BulkLoad(e, n, s, off, m, a, native, what);
      }
    }
  }

  /** Where the bulk copy is not taken, elements are loaded plainly. */
  lemma {:induction false} LoadOneByOne(
    e: Type, n: nat, s: seq<Byte>, off: nat, m: Mem, a: int, native: Endian, swap: bool, what: SampleOrKey)
    requires off <= |s| && SafeToLoadEach(e, n, off, swap, what) && n > 0
    requires var first := Load(e, s, off, m, a, native, swap, what);
             first.Thrown? || n == 1 || swap || !ManyTriv(e, first.end)
    ensures LoadMany(e, n, s, off, m, a, native, swap, what)
            == PlainlyElems(e, n, s, off, m, a, native, StreamOrder(native, swap), what)
    decreases e, 2, n + 1
  {
    hide Load, LoadElems, PlainlyElems, ManyTriv, StartsSafe, Extent, Copied;
    LoadElemsPlain(e, n, s, off, m, a, native, swap, what);
    LoadElemsFirst(e, n, s, off, m, a, native, swap, what);
  }

  /** A failing first element fails all; one element alone is just that element. */
  lemma {:induction false} LoadElemsFirst(
    e: Type, n: nat, s: seq<Byte>, off: nat, m: Mem, a: int, native: Endian, swap: bool, what: SampleOrKey)
    requires off <= |s| && n > 0
    ensures var first := Load(e, s, off, m, a, native, swap, what);
            first.Thrown? || n == 1 ==> LoadElems(e, n, s, off, m, a, native, swap, what) == first
    decreases n
  {
    hide Load, Extent;
    ExtentZero(e);
    if n > 1 {
      LoadElemsFirst(e, n - 1, s, off, m, a, native, swap, what);
    } else {
      assert LoadElems(e, 0, s, off, m, a, native, swap, what) == Loaded(m, off);
    }
  }

  lemma EarlierSafe(e: Type, n: nat, off: nat, swap: bool, what: SampleOrKey)
    requires SafeToLoadEach(e, n, off, swap, what) && n > 0
    ensures SafeToLoadEach(e, n - 1, off, swap, what)
  {
    hide StartsSafe;
    if !swap && what.Key? {
      FewerSafe(e, n, n - 1, off % MAX_ALIGN, Key);
    }
  }

  /** The last of `n` elements begins where it is safe. */
  lemma NextSafe(
    e: Type, n: nat, s: seq<Byte>, off: nat, m: Mem, a: int, native: Endian, swap: bool, what: SampleOrKey)
    requires off <= |s| && SafeToLoadEach(e, n, off, swap, what) && n > 0
    requires PlainlyElems(e, n - 1, s, off, m, a, native, StreamOrder(native, swap), what).Loaded?
    ensures SafeToLoad(e, PlainlyElems(e, n - 1, s, off, m, a, native, StreamOrder(native, swap), what).end, swap, what)
  {
    hide DecElems, StoreElems, StartsSafe, KeySafe;
    if !swap && what.Key? {
      ElemSafe(e, n, s, off, Both(native), Key);
    }
  }

  lemma {:induction false} LoadElemsPlain(
    e: Type, n: nat, s: seq<Byte>, off: nat, m: Mem, a: int, native: Endian, swap: bool, what: SampleOrKey)
    requires off <= |s| && SafeToLoadEach(e, n, off, swap, what)
    ensures LoadElems(e, n, s, off, m, a, native, swap, what)
            == PlainlyElems(e, n, s, off, m, a, native, StreamOrder(native, swap), what)
    decreases e, 2, n
  {
    hide Load, Plainly, PlainlyElems, Extent, SafeToLoad, SafeToLoadEach;
    NoPlainElems(e, s, off, m, a, native, StreamOrder(native, swap), what);
    if n > 0 {
      EarlierSafe(e, n, off, swap, what);
      LoadElemsPlain(e, n - 1, s, off, m, a, native, swap, what);
      PlainElemsStep(e, n, s, off, m, a, native, StreamOrder(native, swap), what);
      var p := LoadElems(e, n - 1, s, off, m, a, native, swap, what);
      if p.Loaded? {
        NextSafe(e, n, s, off, m, a, native, swap, what);
        LoadIsPlain(e, s, p.end, p.mem, a + Extent(e, n - 1), native, swap, what);
      }
    }
  }
}
