/** When is the native image of a value already its CDR image, and the cache of the answers. */
module TrivCache {
  import opened Bytes
  import opened Types

  const MAX_ALIGN: nat := 8

  /** Sum of the sizes of the first `n` members. */
  function Packed(t: Type, n: nat): nat
    requires t.Struct? && n <= |t.members|
  {
    if n == 0 then 0 else Packed(t, n - 1) + SizeOf(t.members[n - 1].ty)
  }

  /** A memcpy is all it takes to serialize a `t` at stream offset `at`. */
  predicate Triv(t: Type, at: nat)
    decreases t, 1, 0
  {
    var a := at % MAX_ALIGN;
    match t
    case Prim(k) => a % k.CdrSizeOf() == 0 && k.SizeOf() == k.CdrSizeOf()
    case Struct(ms, size) => TrivMembers(t, a, |ms|) && a + Packed(t, |ms|) == a + size
    case Array(e, _) => Triv(e, a) && Triv(e, (a + SizeOf(e)) % MAX_ALIGN)
    case _ => false
  }

  predicate TrivMembers(t: Type, a: nat, n: nat)
    requires t.Struct? && n <= |t.members|
    decreases t, 0, n
  {
    n == 0 ||
    (var m := t.members[n - 1];
     && TrivMembers(t, a, n - 1)
     && m.offset == Packed(t, n - 1)
     && Triv(m.ty, (a + Packed(t, n - 1)) % MAX_ALIGN))
  }

  predicate ManyTriv(t: Type, at: nat) {
    Triv(t, at % MAX_ALIGN) && Triv(t, (at % MAX_ALIGN + SizeOf(t)) % MAX_ALIGN)
  }

  /** The largest alignment of any primitive in `t`. */
  function LeafAlign(t: Type): (w: nat)
    ensures IsAlign(w)
    decreases t, 1, 0
  {
    match t
    case Prim(k) => k.CdrSizeOf()
    case Struct(ms, _) => LeafAlignMembers(t, |ms|)
    case Array(e, _) => LeafAlign(e)
    case _ => 1
  }

  function LeafAlignMembers(t: Type, n: nat): (w: nat)
    requires t.Struct? && n <= |t.members|
    ensures IsAlign(w)
    decreases t, 0, n
  {
    if n == 0 then 1
    else
      MaxAlign(LeafAlignMembers(t, n - 1), LeafAlign(t.members[n - 1].ty));
      Larger(LeafAlignMembers(t, n - 1), LeafAlign(t.members[n - 1].ty))
  }

  /**
   Once trivially serialized somewhere, a type is so at exactly those offsets
   that differ by a multiple of its largest primitive alignment.
   */
  lemma {:induction false} TrivShift(t: Type, x: nat, y: nat)
    requires Triv(t, x)
    ensures Triv(t, y) <==> Divides(LeafAlign(t), y - x)
    decreases t, 1, 0
  {
    match t
    case Prim(k) =>
      TrivShiftPrim(t, x, y);
    case Struct(ms, _) =>
      TrivShiftMembers(t, x, y, |ms|);
    case Array(e, _) =>
      TrivShiftArray(t, x, y);
    case _ =>
  }

  lemma TrivShiftPrim(t: Type, x: nat, y: nat)
    requires t.Prim? && Triv(t, x)
    ensures Triv(t, y) <==> Divides(LeafAlign(t), y - x)
  {
    var w := t.kind.CdrSizeOf();
    ModEight(x, w);
    ModEight(y, w);
    SameResidue(x, y, w);
  }

  lemma {:induction false} TrivShiftArray(t: Type, x: nat, y: nat)
    requires t.Array? && Triv(t, x)
    ensures Triv(t, y) <==> Divides(LeafAlign(t), y - x)
    decreases t, 0, 0
  {
    hide Divides;
    var e, s := t.elem, SizeOf(t.elem);
    TrivShift(e, x % 8, y % 8);
    TrivShift(e, (x % 8 + s) % 8, (y % 8 + s) % 8);
    WrappedDifference(x, y, s, LeafAlign(e));
  }

  lemma {:induction false} TrivShiftMembers(t: Type, x: nat, y: nat, n: nat)
    requires t.Struct? && n <= |t.members|
    requires TrivMembers(t, x % MAX_ALIGN, n)
    ensures TrivMembers(t, y % MAX_ALIGN, n) <==> Divides(LeafAlignMembers(t, n), y - x)
    decreases t, 0, n
  {
    hide Divides, Triv;
    NoMembersAnywhere(y - x);
    if n > 0 {
      var m := t.members[n - 1];
      var p := Packed(t, n - 1);
      TrivShiftMembers(t, x, y, n - 1);
      TrivShift(m.ty, (x % MAX_ALIGN + p) % MAX_ALIGN, (y % MAX_ALIGN + p) % MAX_ALIGN);
      WrappedDifference(x, y, p, LeafAlign(m.ty));
      MultipleOfMax(y - x, LeafAlignMembers(t, n - 1), LeafAlign(m.ty));
    }
  }

  lemma NoMembersAnywhere(x: int)
    ensures Divides(1, x)
  {
  }

  lemma WrappedDifference(x: nat, y: nat, p: nat, w: nat)
    requires IsAlign(w)
    ensures Divides(w, (y % 8 + p) % 8 - (x % 8 + p) % 8) <==> Divides(w, y - x)
    ensures Divides(w, y % 8 - x % 8) <==> Divides(w, y - x)
  {
    ModEight(x, w);
    ModEight(y, w);
    SameResidue(x, y, w);
    SameResidue(x % 8, y % 8, w);
    WrappedStep(x, p, w);
    WrappedStep(y, p, w);
    SameResidue((x % 8 + p) % 8, (y % 8 + p) % 8, w);
    SameResidue(x + p, y + p, w);
    assert (y + p) - (x + p) == y - x;
  }

  lemma StrideTimes(at: nat, s: nat, k: nat, w: nat)
    requires IsAlign(w)
    requires Divides(w, (at % 8 + s) % 8 - at % 8)
    ensures Divides(w, at + k * s - at % 8)
  {
    var u, v := at % 8, (at % 8 + s) % 8;
    SameResidue(u, v, w);
    WrappedStep(at, s, w);
    ModEight(at, w);
    SameResidue(at, at + s, w);
    assert at + s - at == s;
    MultipleTimes(s, k, w);
    SameResidue(at, at + k * s, w);
    SameResidue(u, at + k * s, w);
  }

  /** The rule behind the bulk copy: good at `at` and one element further on means good at every element. */
  lemma ManyTrivEverywhere(t: Type, at: nat, k: nat)
    requires ManyTriv(t, at)
    ensures Triv(t, at + Extent(t, k))
  {
    hide Divides, Triv, LeafAlign, SizeOf;
    var u, s := at % MAX_ALIGN, SizeOf(t);
    TrivShift(t, u, (u + s) % MAX_ALIGN);
    StrideTimes(at, s, k, LeafAlign(t));
    TrivShift(t, u, at + k * s);
  }

  lemma {:induction false} TrivMember(t: Type, z: nat, i: nat, n: nat)
    requires t.Struct? && i < n <= |t.members| && TrivMembers(t, z, n)
    ensures Triv(t.members[i].ty, (z + Packed(t, i)) % MAX_ALIGN)
    decreases n
  {
    hide Triv;
    if i < n - 1 {
      TrivMember(t, z, i, n - 1);
    }
  }

  // ---------------------------------------------------------------- the cache

  datatype CacheKey = CacheKey(align: nat, ty: Type)

  type Cache = map<CacheKey, bool>

  /** The cache answers every lookup the codec can make below `t`, and answers it rightly. */
  ghost predicate Filled(c: Cache, t: Type) {
    && (forall a: nat | a < MAX_ALIGN :: CacheKey(a, t) in c && c[CacheKey(a, t)] == Triv(t, a))
    && match t
       case Struct(ms, _) => forall i :: 0 <= i < |ms| ==> Filled(c, ms[i].ty)
       case Array(e, _) => Filled(c, e)
       case Sequence(e, _, _) => Filled(c, e)
       case _ => true
  }

  function LookupTriv(c: Cache, at: nat, t: Type): (r: bool)
    requires Filled(c, t)
    ensures r == Triv(t, at)
  {
    c[CacheKey(at % MAX_ALIGN, t)]
  }

  function LookupManyTriv(c: Cache, at: nat, t: Type): (r: bool)
    requires Filled(c, t)
    ensures r == ManyTriv(t, at)
  {
    LookupTriv(c, at % MAX_ALIGN, t) && LookupTriv(c, (at % MAX_ALIGN + SizeOf(t)) % MAX_ALIGN, t)
  }

  /** The number of nodes of the type tree: an upper bound on what registration can still reach. */
  ghost function Nodes(t: Type): nat
    decreases t, 1, 0
  {
    match t
    case Struct(ms, _) => 1 + NodesOfMembers(t, |ms|)
    case Array(e, _) => 1 + Nodes(e)
    case Sequence(e, _, _) => 1 + Nodes(e)
    case _ => 1
  }

  ghost function NodesOfMembers(t: Type, n: nat): nat
    requires t.Struct? && n <= |t.members|
    decreases t, 0, n
  {
    if n == 0 then 0 else NodesOfMembers(t, n - 1) + Nodes(t.members[n - 1].ty)
  }

  lemma {:induction false} MemberIsSmaller(t: Type, i: nat, n: nat)
    requires t.Struct? && i < n <= |t.members|
    ensures Nodes(t.members[i].ty) <= NodesOfMembers(t, n)
  {
    if i < n - 1 {
      MemberIsSmaller(t, i, n - 1);
    }
  }

  ghost predicate Extends(c: Cache, c': Cache) {
    forall k :: k in c ==> k in c' && c'[k] == c[k]
  }

  /** Growing the cache, or rewriting only entries of a type that cannot occur inside `u`, keeps `u` filled. */
  lemma {:induction false} FilledStays(c: Cache, c': Cache, u: Type, t: Type)
    requires Filled(c, u)
    requires forall k :: k in c && k.ty != t ==> k in c' && c'[k] == c[k]
    requires Extends(c, c') || (u != t && Nodes(u) <= Nodes(t))
    ensures Filled(c', u)
    decreases u
  {
    forall a: nat | a < MAX_ALIGN
      ensures CacheKey(a, u) in c' && c'[CacheKey(a, u)] == Triv(u, a)
    {
      assert CacheKey(a, u) in c;
    }
    match u
    case Struct(ms, _) =>
      forall i | 0 <= i < |ms|
        ensures Filled(c', ms[i].ty)
      {
        MemberIsSmaller(u, i, |ms|);
        FilledStays(c, c', ms[i].ty, t);
      }
    case Array(e, _) => FilledStays(c, c', e, t);
    case Sequence(e, _, _) => FilledStays(c, c', e, t);
    case _ =>
  }

  /** Every type with at most `n` nodes that has any entry at all, `except` aside, is filled. */
  ghost predicate Settled(c: Cache, n: nat, except: Option<Type>) {
    forall k :: k in c && Nodes(k.ty) <= n && Some(k.ty) != except ==> Filled(c, k.ty)
  }

  lemma SettledStays(c: Cache, c': Cache, n: nat, t: Type)
    requires Settled(c, n, Some(t)) && n == Nodes(t)
    requires forall k :: k in c && k.ty != t ==> k in c' && c'[k] == c[k]
    requires forall k :: k in c' && k.ty != t ==> k in c
    ensures Settled(c', n, Some(t))
  {
    forall k | k in c' && Nodes(k.ty) <= n && k.ty != t
      ensures Filled(c', k.ty)
    {
      FilledStays(c, c', k.ty, t);
    }
  }

  /** The uncached recursive test, with the offset loop over struct members. */
  method ComputeTriv(at: nat, t: Type) returns (r: bool)
    ensures r == Triv(t, at)
    decreases t
  {
    var align := at % MAX_ALIGN;
    match t {
      case Prim(k) =>
        r := align % k.CdrSizeOf() == 0 && k.SizeOf() == k.CdrSizeOf();
      case Struct(ms, size) =>
        var offset := align;
        var i := 0;
        while i < |ms|
          invariant 0 <= i <= |ms|
          invariant offset == align + Packed(t, i)
          invariant TrivMembers(t, align, i)
        {
          var m := ms[i];
          if m.offset != offset - align {
            TrivMembersPrefix(t, align, i + 1, |ms|);
            return false;
          }
          var ok := ComputeTriv(offset % MAX_ALIGN, m.ty);
          if !ok {
            TrivMembersPrefix(t, align, i + 1, |ms|);
            return false;
          }
          offset := offset + SizeOf(m.ty);
          i := i + 1;
        }
        r := offset == align + size;
      case Array(e, _) =>
        r := ComputeTriv(align, e);
        if r {
          r := ComputeTriv((align + SizeOf(e)) % MAX_ALIGN, e);
        }
      case _ =>
        r := false;
    }
  }

  lemma {:induction false} TrivMembersPrefix(t: Type, a: nat, i: nat, n: nat)
    requires t.Struct? && i <= n <= |t.members|
    ensures TrivMembers(t, a, n) ==> TrivMembers(t, a, i)
    decreases n
  {
    if i < n {
      TrivMembersPrefix(t, a, i, n - 1);
    }
  }

  ghost predicate ChildrenFilled(c: Cache, t: Type) {
    match t
    case Struct(ms, _) => MembersFilled(c, t, |ms|)
    case Array(e, _) => Filled(c, e)
    case Sequence(e, _, _) => Filled(c, e)
    case _ => true
  }

  ghost predicate MembersFilled(c: Cache, t: Type, n: nat)
    requires t.Struct? && n <= |t.members|
  {
    forall i :: 0 <= i < n ==> Filled(c, t.members[i].ty)
  }

  /** The state of the cache while the entries of `t` are being made, those below `done` so far. */
  ghost predicate Busy(c0: Cache, c: Cache, t: Type, done: nat) {
    && Extends(c0, c)
    && (forall k :: k in c0 ==> k.ty != t)
    && (forall k :: k in c && k !in c0 ==> Nodes(k.ty) <= Nodes(t) && (k.ty == t ==> k.align < done))
    && Settled(c, Nodes(t), Some(t))
  }

  /** Registering a child from a busy state leads to a busy state. */
  lemma BusyAfterChild(c0: Cache, c: Cache, c': Cache, t: Type, done: nat, child: Type)
    requires Busy(c0, c, t, done) && Nodes(child) < Nodes(t)
    requires Extends(c, c')
    requires forall k :: k in c' && k !in c ==> Filled(c', k.ty) && Nodes(k.ty) <= Nodes(child)
    ensures Busy(c0, c', t, done)
  {
    forall k | k in c' && Nodes(k.ty) <= Nodes(t) && k.ty != t
      ensures Filled(c', k.ty)
    {
      if k in c {
        FilledStays(c, c', k.ty, t);
      }
    }
  }

  class TriviallySerializedCache {
    var cache: Cache

    constructor (t: Type)
      ensures Filled(cache, t)
    {
      cache := map[];
      new;
      Register(t);
    }

    /**
     Fills the entries of `t` and of everything below it, skipping what is already there.
     Entries of `t` exist, with a provisional answer, while the types below it are registered.
     */
    method Register(t: Type)
      requires Settled(cache, Nodes(t), None)
      modifies this
      ensures Filled(cache, t)
      ensures Extends(old(cache), cache)
      ensures forall k :: k in cache && k !in old(cache) ==> Filled(cache, k.ty) && Nodes(k.ty) <= Nodes(t)
      decreases t, 1
    {
      ghost var known := exists k :: k in cache && k.ty == t;
      ghost var c0 := cache;
      var align := 0;
      while align < MAX_ALIGN
        invariant 0 <= align <= MAX_ALIGN
        invariant known ==> cache == c0
        invariant !known ==> Busy(c0, cache, t, align)
        invariant !known ==> forall a: nat | a < align :: CacheKey(a, t) in cache && cache[CacheKey(a, t)] == Triv(t, a)
        invariant !known && align > 0 ==> ChildrenFilled(cache, t)
      {
        var key := CacheKey(align, t);
        if key !in cache {
          RegisterAt(t, align, c0);
        }
        align := align + 1;
      }
      if !known {
        forall k | k in cache && k !in c0
          ensures Filled(cache, k.ty) && Nodes(k.ty) <= Nodes(t)
        {
        }
      }
    }

    method RegisterAt(t: Type, align: nat, ghost c0: Cache)
      requires align < MAX_ALIGN && CacheKey(align, t) !in cache
      requires Busy(c0, cache, t, align)
      modifies this
      ensures Busy(c0, cache, t, align + 1)
      ensures Extends(old(cache), cache)
      ensures CacheKey(align, t) in cache && cache[CacheKey(align, t)] == Triv(t, align)
      ensures ChildrenFilled(cache, t)
      decreases t, 0
    {
      var key := CacheKey(align, t);
      ghost var c1 := cache;
      cache := cache[key := false];
      SettledStays(c1, cache, Nodes(t), t);
      match t {
        case Prim(_) =>
          var result := ComputeTriv(align, t);
          Answer(key, result, align + 1, c0);
        case Array(e, _) =>
          var result := ComputeTriv(align, t);
          Answer(key, result, align + 1, c0);
          RegisterChild(t, e, align + 1, c0);
        case Struct(ms, _) =>
          RegisterMembers(t, align + 1, c0);
          var result := ComputeTriv(align, t);
          Answer(key, result, align + 1, c0);
        case Sequence(e, _, _) =>
          RegisterChild(t, e, align + 1, c0);
        case _ =>
      }
    }

    method RegisterMembers(t: Type, ghost done: nat, ghost c0: Cache)
      requires t.Struct?
      requires Busy(c0, cache, t, done)
      modifies this
      ensures Busy(c0, cache, t, done)
      ensures Extends(old(cache), cache)
      ensures ChildrenFilled(cache, t)
      decreases t.members
    {
      var i := 0;
      while i < |t.members|
        invariant 0 <= i <= |t.members|
        invariant Busy(c0, cache, t, done)
        invariant Extends(old(cache), cache)
        invariant MembersFilled(cache, t, i)
      {
        ghost var c := cache;
        MemberIsSmaller(t, i, |t.members|);
        RegisterChild(t, t.members[i].ty, done, c0);
        forall j | 0 <= j < i
          ensures Filled(cache, t.members[j].ty)
        {
          FilledStays(c, cache, t.members[j].ty, t);
        }
        i := i + 1;
      }
    }

    /** Replaces the provisional answer. */
    method Answer(key: CacheKey, result: bool, ghost done: nat, ghost c0: Cache)
      requires key in cache && key !in c0 && key.align < done
      requires Busy(c0, cache, key.ty, done)
      modifies this
      ensures cache == old(cache)[key := result]
      ensures Busy(c0, cache, key.ty, done)
      ensures old(ChildrenFilled(cache, key.ty)) ==> ChildrenFilled(cache, key.ty)
    {
      cache := cache[key := result];
      SettledStays(old(cache), cache, Nodes(key.ty), key.ty);
      ChildrenStay(old(cache), cache, key.ty);
    }

    method RegisterChild(t: Type, child: Type, ghost done: nat, ghost c0: Cache)
      requires child < t && Nodes(child) < Nodes(t)
      requires Busy(c0, cache, t, done)
      modifies this
      ensures Busy(c0, cache, t, done)
      ensures Extends(old(cache), cache)
      ensures Filled(cache, child)
      decreases child, 2
    {
      Register(child);
      BusyAfterChild(c0, old(cache), cache, t, done, child);
    }
  }

  lemma ChildrenStay(c: Cache, c': Cache, t: Type)
    requires forall k :: k in c && k.ty != t ==> k in c' && c'[k] == c[k]
    ensures ChildrenFilled(c, t) ==> ChildrenFilled(c', t)
  {
    if ChildrenFilled(c, t) {
      match t
      case Struct(ms, _) =>
        forall i | 0 <= i < |ms|
          ensures Filled(c', ms[i].ty)
        {
          MemberIsSmaller(t, i, |ms|);
          FilledStays(c, c', ms[i].ty, t);
        }
      case Array(e, _) =>
        assert Nodes(e) < Nodes(t);
        FilledStays(c, c', e, t);
      case Sequence(e, _, _) =>
        assert Nodes(e) < Nodes(t);
        FilledStays(c, c', e, t);
      case _ =>
    }
  }
}
