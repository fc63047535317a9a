/** The wait set: its cache of attached entities, and the scan that reports what was triggered. */
module Waitset {
  import opened Bytes

  type Handle = int
  type Ptr = int

  const NULL: Ptr := 0

  datatype EventType = EventType(code: nat, supported: bool)
  datatype Event = Event(enth: Handle, eventType: EventType)

  /** The entities of one call, or of the last call that attached its entities. */
  datatype Cache = Cache(subs: seq<Ptr>, gcs: seq<Ptr>, srvs: seq<Ptr>, cls: seq<Ptr>, evs: seq<Event>) {
    /** In the order in which they are attached and scanned. */
    function Pointers(): seq<Ptr> { subs + gcs + srvs + cls }
  }

  const NO_CACHE: Cache := Cache([], [], [], [], [])

  /** The DDS handle by which the object at an address is attached, while there is an object. */
  type Heap = map<Ptr, Handle>

  function HandleAt(heap: Heap, p: Ptr): Handle {
    if p in heap then heap[p] else 0
  }

  function Handles(heap: Heap, ps: seq<Ptr>): (r: seq<Handle>)
    ensures |r| == |ps|
  {
    seq(|ps|, i requires 0 <= i < |ps| => HandleAt(heap, ps[i]))
  }

  function EventEntities(evs: seq<Event>): set<Handle> {
    set i | 0 <= i < |evs| && evs[i].eventType.supported :: evs[i].enth
  }

  function EventHandles(evs: seq<Event>): set<Handle> {
    set i | 0 <= i < |evs| :: evs[i].enth
  }

  // ---------------------------------------------------------------- attachments

  /** Attachments map handles to tokens; a handle that is attached already keeps its token. */
  function Attach(m: map<Handle, nat>, h: Handle, token: nat): map<Handle, nat> {
    if h in m then m else m[h := token]
  }

  /** `hs` attached on top of `m`, each handle with its position as token. */
  function AttachAll(m: map<Handle, nat>, hs: seq<Handle>): (r: map<Handle, nat>)
    ensures forall h :: h in r <==> h in m || h in hs
  {
    if hs == [] then m else Attach(AttachAll(m, hs[..|hs| - 1]), hs[|hs| - 1], |hs| - 1)
  }

  lemma AttachLast(m: map<Handle, nat>, hs: seq<Handle>, h: Handle)
    ensures AttachAll(m, hs + [h]) == Attach(AttachAll(m, hs), h, |hs|)
  {
    assert (hs + [h])[..|hs|] == hs;
  }

  /** The token of a handle is the first position at which it is listed. */
  lemma {:induction false} TokenIsFirst(hs: seq<Handle>, i: nat)
    requires i < |hs|
    ensures var m := AttachAll(map[], hs);
            m[hs[i]] <= i && hs[m[hs[i]]] == hs[i] && (m[hs[i]] == i <==> hs[i] !in hs[..i])
    decreases |hs|
  {
    var p := hs[..|hs| - 1];
    assert hs == p + [hs[|hs| - 1]];
    if i < |p| {
      TokenIsFirst(p, i);
      assert p[..i] == hs[..i];
    } else if hs[i] in p {
      var j :| 0 <= j < |p| && p[j] == hs[i];
      TokenIsFirst(p, j);
    }
  }

  /** `order` lists the elements of `s` once each. */
  ghost predicate Enumerates(order: seq<Handle>, s: set<Handle>) {
    && (forall h :: h in order <==> h in s)
    && (forall i, j :: 0 <= i < j < |order| ==> order[i] != order[j])
  }

  /** What is left of the attachments when all that is cached has been detached. */
  function Detached(m: map<Handle, nat>, heap: Heap, c: Cache): map<Handle, nat> {
    m - SetOf(heap, c.subs) - SetOf(heap, c.gcs) - SetOf(heap, c.srvs) - SetOf(heap, c.cls) - EventHandles(c.evs)
  }

  function SetOf(heap: Heap, ps: seq<Ptr>): set<Handle> {
    set p | p in ps :: HandleAt(heap, p)
  }

  /**
   How a call for the entities `req` leaves the attachments, `m` and `n` of them before and `m'` and `n'` after:
   as they are if the cache `c` says the same entities, else detached and attached anew.
   */
  ghost predicate Readied(
    heap: Heap, c: Cache, req: Cache, order: seq<Handle>,
    m: map<Handle, nat>, n: nat, m': map<Handle, nat>, n': nat)
  {
    if c == req then m' == m && n' == n
    else
      && Enumerates(order, EventEntities(req.evs))
      && m' == AttachAll(Detached(m, heap, c), Handles(heap, req.Pointers()) + order)
      && n' == |req.Pointers()| + |order|
  }

  // ---------------------------------------------------------------- triggers

  /** The tokens below `n` of attached entities that are active, in ascending order. */
  function Triggers(attached: map<Handle, nat>, active: set<Handle>, n: nat): (r: seq<nat>)
    ensures forall t: nat :: t in r <==> t < n && exists h :: h in active && h in attached && attached[h] == t
    ensures forall i, j :: 0 <= i < j < |r| ==> r[i] < r[j]
  {
    if n == 0 then []
    else
      var p := Triggers(attached, active, n - 1);
      assert forall i :: 0 <= i < |p| ==> p[i] in p;
      p + if exists h :: h in active && h in attached && attached[h] == n - 1 then [n - 1] else []
  }

  function WithSentinel(t: seq<int>): seq<int> {
    t + [-1]
  }

  /** With the handles attached in order, position `p` is a trigger just when its handle is active and new there. */
  lemma TriggeredPosition(hs: seq<Handle>, active: set<Handle>, n: nat, p: nat)
    requires p < n && p < |hs|
    ensures p in Triggers(AttachAll(map[], hs), active, n) <==> hs[p] in active && hs[p] !in hs[..p]
  {
    var m := AttachAll(map[], hs);
    TokenIsFirst(hs, p);
    if p in Triggers(m, active, n) {
      var h :| h in active && h in m && m[h] == p;
      var i :| 0 <= i < |hs| && hs[i] == h;
      TokenIsFirst(hs, i);
    }
  }

  /** The entries whose position, counted from `base`, is among the triggers; the others are null. */
  function Reported(ps: seq<Ptr>, base: nat, trigs: seq<int>): (r: seq<Ptr>)
    ensures |r| == |ps|
  {
    seq(|ps|, i requires 0 <= i < |ps| => if base + i in trigs then ps[i] else NULL)
  }

  /** The entries of `ps` whose position, counted from `base`, is among the triggers. */
  function Kept(ps: seq<Ptr>, base: nat, trigs: seq<int>): seq<Ptr> {
    if ps == [] then []
    else
      var n := |ps| - 1;
      Kept(ps[..n], base, trigs) + if base + n in trigs then [ps[n]] else []
  }

  lemma KeptNone(base: nat, trigs: seq<int>)
    ensures Kept([], base, trigs) == []
  {
  }

  lemma KeptMore(ps: seq<Ptr>, i: nat, base: nat, trigs: seq<int>)
    requires i < |ps|
    ensures Kept(ps[..i + 1], base, trigs)
            == Kept(ps[..i], base, trigs) + if base + i in trigs then [ps[i]] else []
  {
    assert ps[..i + 1][..i] == ps[..i];
  }

  lemma ReportedEach(ps: seq<Ptr>, r: seq<Ptr>, base: nat, trigs: seq<int>)
    requires |r| == |ps| && forall i :: 0 <= i < |ps| ==> r[i] == if base + i in trigs then ps[i] else NULL
    ensures r == Reported(ps, base, trigs)
  {
  }

  /** `changed` holds the entities with the types of event that have occurred there. */
  predicate Raised(e: Event, changed: set<(Handle, nat)>) {
    e.eventType.supported && (e.enth, e.eventType.code) in changed
  }

  /** Which events stay listed: those raised, and all from the first one on whose entity is invalid. */
  function ActiveEvents(evs: seq<Event>, changed: set<(Handle, nat)>): (r: seq<bool>)
    ensures |r| == |evs|
  {
    seq(|evs|, i requires 0 <= i < |evs| => (exists j :: 0 <= j <= i && evs[j].enth <= 0) || Raised(evs[i], changed))
  }

  /** `listed` says which events are not set to null; an invalid entity ends the pass. */
  method HandleActiveEvents(events: Option<seq<Event>>, changed: set<(Handle, nat)>) returns (listed: seq<bool>)
    ensures listed == ActiveEvents(ListedEvents(events), changed)
  {
    if events.None? {
      return [];
    }
    var evs := events.value;
    listed := seq(|evs|, i => true);
    var i := 0;
    while i < |evs|
      invariant 0 <= i <= |evs| == |listed|
      invariant forall j :: 0 <= j < i ==> evs[j].enth > 0 && listed[j] == Raised(evs[j], changed)
      invariant forall j :: i <= j < |evs| ==> listed[j]
    {
      if evs[i].enth <= 0 {
        return;
      }
      if !Raised(evs[i], changed) {
        listed := listed[i := false];
      }
      i := i + 1;
    }
  }

  // ---------------------------------------------------------------- does the cache still serve?

  method RequireReattach(cached: seq<Ptr>, ary: array?<Ptr>) returns (r: bool)
    ensures r <==> cached != Listed(ary)
  {
    if ary == null || ary.Length == 0 {
      return |cached| != 0;
    } else if ary.Length != |cached| {
      return true;
    }
    r := cached != ary[..];
  }

  function Listed(ary: array?<Ptr>): seq<Ptr>
    reads ary
  {
    if ary == null then [] else ary[..]
  }

  function ListedEvents(events: Option<seq<Event>>): seq<Event> {
    if events.None? then [] else events.value
  }

  method RequireReattachEvents(cached: seq<Event>, events: Option<seq<Event>>) returns (r: bool)
    ensures r <==> cached != ListedEvents(events)
  {
    if events.None? || |events.value| == 0 {
      return |cached| != 0;
    } else if |events.value| != |cached| {
      return true;
    }
    var i := 0;
    while i < |cached|
      invariant 0 <= i <= |cached|
      invariant forall j :: 0 <= j < i ==> cached[j] == events.value[j]
    {
      if cached[i].enth != events.value[i].enth || cached[i].eventType != events.value[i].eventType {
        return true;
      }
      i := i + 1;
    }
    r := false;
  }

  /** Every event has a valid entity, and the status mask of those with a supported event can be set. */
  predicate Gatherable(evs: seq<Event>, maskable: set<Handle>) {
    forall i :: 0 <= i < |evs| ==> evs[i].enth > 0 && (evs[i].eventType.supported ==> evs[i].enth in maskable)
  }

  /** `maskable` holds the entities whose status mask can be set. */
  method GatherEventEntities(evs: seq<Event>, maskable: set<Handle>) returns (ok: bool, entities: set<Handle>)
    ensures ok <==> Gatherable(evs, maskable)
    ensures ok ==> entities == EventEntities(evs)
  {
    entities := {};
    var statusMasks: set<Handle> := {};
    var i := 0;
    while i < |evs|
      invariant 0 <= i <= |evs|
      invariant forall j :: 0 <= j < i ==> evs[j].enth > 0
      invariant statusMasks == EventEntities(evs[..i])
    {
      if evs[i].enth <= 0 {
        return false, {};
      }
      MoreEntities(evs, i);
      if evs[i].eventType.supported {
        statusMasks := statusMasks + {evs[i].enth};
      }
      i := i + 1;
    }
    assert evs[..i] == evs;
    if !(statusMasks <= maskable) {
      var h :| h in statusMasks && h !in maskable;
      assert exists j :: 0 <= j < |evs| && evs[j].eventType.supported && evs[j].enth == h;
      return false, {};
    }
    forall j | 0 <= j < |evs| && evs[j].eventType.supported
      ensures evs[j].enth in maskable
    {
      assert evs[j].enth in statusMasks;
    }
    return true, statusMasks;
  }

  lemma MoreEntities(evs: seq<Event>, i: nat)
    requires i < |evs|
    ensures EventEntities(evs[..i + 1])
            == EventEntities(evs[..i]) + if evs[i].eventType.supported then {evs[i].enth} else {}
  {
    var a, b := evs[..i + 1], evs[..i];
    forall h | h in EventEntities(b)
      ensures h in EventEntities(a)
    {
      var j :| 0 <= j < |b| && b[j].eventType.supported && b[j].enth == h;
      assert a[j] == b[j];
    }
    if evs[i].eventType.supported {
      assert a[i].enth in EventEntities(a);
    }
    forall h | h in EventEntities(a)
      ensures h in EventEntities(b) || (evs[i].eventType.supported && h == evs[i].enth)
    {
      var j :| 0 <= j < |a| && a[j].eventType.supported && a[j].enth == h;
      if j < i {
        assert b[j] == a[j];
      }
    }
  }

  // ---------------------------------------------------------------- the wait set

  lemma SetOfMore(heap: Heap, ps: seq<Ptr>, i: nat)
    requires i < |ps|
    ensures SetOf(heap, ps[..i + 1]) == SetOf(heap, ps[..i]) + {HandleAt(heap, ps[i])}
  {
    assert ps[..i + 1] == ps[..i] + [ps[i]];
  }

  lemma HandlesNone(heap: Heap, done: seq<Handle>)
    ensures done + Handles(heap, []) == done
  {
  }

  lemma HandlesMore(heap: Heap, ps: seq<Ptr>, i: nat, done: seq<Handle>)
    requires i < |ps|
    ensures done + Handles(heap, ps[..i + 1]) == done + Handles(heap, ps[..i]) + [HandleAt(heap, ps[i])]
    ensures |done + Handles(heap, ps[..i])| == |done| + i
  {
  }

  lemma NonEmpty(s: set<Handle>)
    requires s != {}
    ensures exists h :: h in s
  {
    if forall h :: h !in s {
      assert false;
    }
  }

  lemma EnumeratesNone()
    ensures Enumerates([], {})
  {
  }

  lemma EnumeratesMore(order: seq<Handle>, s: set<Handle>, h: Handle)
    requires Enumerates(order, s) && h !in s
    ensures Enumerates(order + [h], s + {h})
  {
    forall i, j | 0 <= i < j < |order| + 1
      ensures (order + [h])[i] != (order + [h])[j]
    {
      assert (order + [h])[i] in order;
    }
  }

  /** `Refused` is a concurrent call, `Failed` an invalid event. */
  datatype WaitResult = Refused | Failed | Waited(timedOut: bool)

  class CddsWaitset {
    /** What is attached to the DDS wait set. */
    var attached: map<Handle, nat>
    /** Triggered tokens, with a sentinel behind them. */
    var trigs: seq<int>
    var nelems: nat
    var inuse: bool
    var subs: seq<Ptr>
    var gcs: seq<Ptr>
    var cls: seq<Ptr>
    var srvs: seq<Ptr>
    var evs: seq<Event>

    constructor ()
      ensures Cached() == NO_CACHE && attached == map[] && !inuse && nelems == 0
    {
      attached, trigs, nelems, inuse := map[], [], 0, false;
      subs, gcs, cls, srvs, evs := [], [], [], [], [];
    }

    function Cached(): Cache
      reads this
    {
      Cache(subs, gcs, srvs, cls, evs)
    }

    method DetachList(heap: Heap, ps: seq<Ptr>)
      modifies this`attached
      ensures attached == old(attached) - SetOf(heap, ps)
    {
      var i := 0;
      while i < |ps|
        invariant 0 <= i <= |ps|
        invariant attached == old(attached) - SetOf(heap, ps[..i])
      {
        assert SetOf(heap, ps[..i + 1]) == SetOf(heap, ps[..i]) + {HandleAt(heap, ps[i])} by {
          SetOfMore(heap, ps, i);
        }
        attached := attached - {HandleAt(heap, ps[i])};
        i := i + 1;
      }
      assert ps[..i] == ps;
    }

    method DetachEvents(events: seq<Event>)
      modifies this`attached
      ensures attached == old(attached) - EventHandles(events)
    {
      var eventEntities: set<Handle> := {};
      var i := 0;
      while i < |events|
        invariant 0 <= i <= |events|
        invariant eventEntities == set j | 0 <= j < i :: events[j].enth
        invariant attached == old(attached) - eventEntities
      {
        if events[i].enth !in eventEntities {
          eventEntities := eventEntities + {events[i].enth};
          attached := attached - {events[i].enth};
        }
        i := i + 1;
      }
    }

    method Detach(heap: Heap)
      modifies this`attached, this`nelems, this`subs, this`gcs, this`srvs, this`cls, this`evs
      ensures attached == Detached(old(attached), heap, old(Cached()))
      ensures Cached() == NO_CACHE && nelems == 0
    {
      DetachList(heap, subs);
      DetachList(heap, gcs);
      DetachList(heap, srvs);
      DetachList(heap, cls);
      DetachEvents(evs);
      subs, gcs, srvs, cls, evs, nelems := [], [], [], [], [], 0;
    }

    method AttachList(heap: Heap, ps: seq<Ptr>, nelems: nat, ghost base: map<Handle, nat>, ghost done: seq<Handle>)
      returns (n: nat)
      requires attached == AttachAll(base, done) && nelems == |done|
      modifies this`attached
      ensures n == nelems + |ps| && attached == AttachAll(base, done + Handles(heap, ps))
    {
      hide AttachAll, Attach, Handles;
      n := nelems;
      var i := 0;
      HandlesNone(heap, done);
      while i < |ps|
        invariant 0 <= i <= |ps| && n == nelems + i
        invariant attached == AttachAll(base, done + Handles(heap, ps[..i]))
      {
        AttachLast(base, done + Handles(heap, ps[..i]), HandleAt(heap, ps[i]));
        HandlesMore(heap, ps, i, done);
        attached, n := Attach(attached, HandleAt(heap, ps[i]), n), n + 1;
        i := i + 1;
      }
      assert ps[..i] == ps;
    }

    /** The set is walked in an order of its own. */
    method AttachSet(entities: set<Handle>, nelems: nat, ghost base: map<Handle, nat>, ghost done: seq<Handle>)
      returns (n: nat, ghost order: seq<Handle>)
      requires attached == AttachAll(base, done) && nelems == |done|
      modifies this`attached
      ensures Enumerates(order, entities)
      ensures n == nelems + |order| && attached == AttachAll(base, done + order)
    {
      hide AttachAll, Attach, Enumerates;
      n, order := nelems, [];
      var rest := entities;
      assert done + order == done && entities - rest == {};
      EnumeratesNone();
      while rest != {}
        invariant rest <= entities && Enumerates(order, entities - rest)
        invariant n == nelems + |order| && attached == AttachAll(base, done + order)
        decreases rest
      {
        NonEmpty(rest);
        var h :| h in rest;
        AttachLast(base, done + order, h);
        assert done + (order + [h]) == done + order + [h];
        EnumeratesMore(order, entities - rest, h);
        assert entities - rest + {h} == entities - (rest - {h});
        attached, n := Attach(attached, h, n), n + 1;
        order := order + [h];
        rest := rest - {h};
      }
      assert entities - rest == entities;
    }

    /** Marks the wait set as in use; false if it is already. */
    method Enter() returns (ok: bool)
      modifies this`inuse
      ensures ok == !old(inuse) && inuse
    {
      ok := !inuse;
      inuse := true;
    }

    method CacheIsStale(
      subs': array?<Ptr>, gcs': array?<Ptr>, srvs': array?<Ptr>, cls': array?<Ptr>, events: Option<seq<Event>>)
      returns (r: bool)
      ensures r <==> Cached() != Cache(Listed(subs'), Listed(gcs'), Listed(srvs'), Listed(cls'), ListedEvents(events))
    {
      hide Listed, ListedEvents;
      r := RequireReattach(subs, subs');
      if !r {
        r := RequireReattach(gcs, gcs');
      }
      if !r {
        r := RequireReattach(srvs, srvs');
      }
      if !r {
        r := RequireReattach(cls, cls');
      }
      if !r {
        r := RequireReattachEvents(evs, events);
      }
    }

    /**
     Makes the attachments those of the entities given, in the order of the lists and then the entities
     of the events in an order of their own, unless the cache says that they are attached already.
     An invalid event stops this half-way.
     */
    method Prepare(
      heap: Heap, subs': array?<Ptr>, gcs': array?<Ptr>, srvs': array?<Ptr>, cls': array?<Ptr>,
      events: Option<seq<Event>>, maskable: set<Handle>)
      returns (ok: bool, ghost order: seq<Handle>)
      modifies this`attached, this`nelems, this`subs, this`gcs, this`srvs, this`cls, this`evs
      ensures var req := Cache(Listed(subs'), Listed(gcs'), Listed(srvs'), Listed(cls'), ListedEvents(events));
              && (ok <==> old(Cached()) == req || Gatherable(req.evs, maskable))
              && (ok ==>
                    && Cached() == req
                    && Readied(heap, old(Cached()), req, order, old(attached), old(nelems), attached, nelems))
              && (!ok ==>
                    && Cached() == req.(evs := []) && nelems == 0
                    && attached
                       == AttachAll(Detached(old(attached), heap, old(Cached())), Handles(heap, req.Pointers())))
    {
      hide AttachAll, Detached, Enumerates, Handles, Gatherable, EventEntities, Listed, ListedEvents, Cache.Pointers;
      order := [];
      var r := CacheIsStale(subs', gcs', srvs', cls', events);
      if !r {
        return true, [];
      }
      Detach(heap);
      ok, order := Reattach(heap, subs', gcs', srvs', cls', events, maskable);
    }

    method Reattach(
      heap: Heap, subs': array?<Ptr>, gcs': array?<Ptr>, srvs': array?<Ptr>, cls': array?<Ptr>,
      events: Option<seq<Event>>, maskable: set<Handle>)
      returns (ok: bool, ghost order: seq<Handle>)
      requires Cached() == NO_CACHE && nelems == 0
      modifies this`attached, this`nelems, this`subs, this`gcs, this`srvs, this`cls, this`evs
      ensures var req := Cache(Listed(subs'), Listed(gcs'), Listed(srvs'), Listed(cls'), ListedEvents(events));
              && ok == Gatherable(req.evs, maskable)
              && (ok ==>
                    && Cached() == req && Enumerates(order, EventEntities(req.evs))
                    && nelems == |req.Pointers()| + |order|
                    && attached == AttachAll(old(attached), Handles(heap, req.Pointers()) + order))
              && (!ok ==>
                    && Cached() == req.(evs := []) && nelems == 0
                    && attached == AttachAll(old(attached), Handles(heap, req.Pointers())))
    {
      hide AttachAll, Enumerates, Handles, Gatherable, EventEntities;
      ghost var base := attached;
      var n := AttachLists(heap, subs', gcs', srvs', cls');
      ghost var hs := Handles(heap, Cached().Pointers());
      order := [];
      if events.Some? {
        var entities;
        ok, entities := GatherEventEntities(events.value, maskable);
        if !ok {
          return;
        }
        n, order := AttachSet(entities, n, base, hs);
        evs := events.value;
      } else {
        NoEvents();
        assert hs + [] == hs;
      }
      ok := true;
      nelems := n;
    }

    method AttachLists(heap: Heap, subs': array?<Ptr>, gcs': array?<Ptr>, srvs': array?<Ptr>, cls': array?<Ptr>)
      returns (n: nat)
      modifies this`attached, this`subs, this`gcs, this`srvs, this`cls
      ensures subs == Listed(subs') && gcs == Listed(gcs') && srvs == Listed(srvs') && cls == Listed(cls')
      ensures n == |Cached().Pointers()|
      ensures attached == AttachAll(old(attached), Handles(heap, Cached().Pointers()))
    {
      hide AttachAll, Handles;
      ghost var base := attached;
      AttachNone(base);
      n := 0;
      subs := if subs' == null then [] else subs'[..];
      n := AttachList(heap, subs, n, base, []);
      ghost var hs := [] + Handles(heap, subs);
      gcs := if gcs' == null then [] else gcs'[..];
      n := AttachList(heap, gcs, n, base, hs);
      hs := hs + Handles(heap, gcs);
      srvs := if srvs' == null then [] else srvs'[..];
      n := AttachList(heap, srvs, n, base, hs);
      hs := hs + Handles(heap, srvs);
      cls := if cls' == null then [] else cls'[..];
      n := AttachList(heap, cls, n, base, hs);
      HandlesOfAll(heap, subs, gcs, srvs, cls);
    }
  
    // ---------------------------------------------------------------- waiting

    ghost predicate TrigsValid()
      reads this
    {
      && |trigs| > 0 && trigs[|trigs| - 1] == -1
      && (forall i :: 0 <= i < |trigs| - 1 ==> trigs[i] >= 0)
      && (forall i, j :: 0 <= i < j < |trigs| - 1 ==> trigs[i] < trigs[j])
    }

    /** The triggers before `trigIdx` lie below position `n`, the others do not. */
    ghost predicate ScannedTo(trigIdx: nat, n: nat)
      reads this
    {
      && TrigsValid() && trigIdx < |trigs|
      && (forall i :: 0 <= i < trigIdx ==> trigs[i] < n)
      && (forall i :: trigIdx <= i < |trigs| - 1 ==> trigs[i] >= n)
    }

    /**
     One list of the merge of positions with sorted triggers: what was not triggered becomes null, what was
     triggered is collected. Guard conditions that are collected are reset.
     */
    method Scan(list: array?<Ptr>, trigIdx: nat, n: nat) returns (trigIdx': nat, n': nat, kept: seq<Ptr>)
      requires ScannedTo(trigIdx, n)
      modifies list
      ensures Listed(list) == Reported(old(Listed(list)), n, trigs)
      ensures n' == n + |Listed(list)| && ScannedTo(trigIdx', n')
      ensures kept == Kept(old(Listed(list)), n, trigs)
    {
      hide Kept, Reported;
      trigIdx', n', kept := trigIdx, n, [];
      KeptNone(n, trigs);
      if list != null {
        var i := 0;
        ghost var ps := list[..];
        while i < list.Length
          invariant 0 <= i <= list.Length && n' == n + i
          invariant kept == Kept(ps[..i], n, trigs)
          invariant ScannedTo(trigIdx', n')
          invariant forall j :: 0 <= j < i ==> list[j] == if n + j in trigs then old(list[j]) else NULL
          invariant forall j :: i <= j < list.Length ==> list[j] == old(list[j])
        {
          MatchesNext(trigIdx', n');
          KeptMore(ps, i, n, trigs);
          if trigs[trigIdx'] == n' {
            trigIdx', kept := trigIdx' + 1, kept + [list[i]];
          } else {
            list[i] := NULL;
          }
          n' := n' + 1;
          i := i + 1;
        }
        assert ps[..i] == ps;
        ReportedEach(ps, list[..], n, trigs);
      } else {
        ReportedEach([], [], n, trigs);
      }
    }

    lemma MatchesNext(trigIdx: nat, n: nat)
      requires ScannedTo(trigIdx, n)
      ensures trigs[trigIdx] == n <==> n in trigs
      ensures ScannedTo(if trigs[trigIdx] == n then trigIdx + 1 else trigIdx, n + 1)
    {
    }

    /** `active` holds the entities that are triggered when DDS is asked. */
    method CollectTriggers(active: set<Handle>)
      modifies this`trigs
      ensures TrigsValid() && ScannedTo(0, 0)
      ensures trigs == WithSentinel(Triggers(attached, active, nelems))
    {
      trigs := WithSentinel(Triggers(attached, active, nelems));
    }

    /**
     `active` are the entities that are triggered when DDS is asked, `changed` the events that have occurred by then.
     Results are the guard conditions that are reset and which of the events stay listed.
     */
    method Wait(
      heap: Heap, subs': array?<Ptr>, gcs': array?<Ptr>, srvs': array?<Ptr>, cls': array?<Ptr>,
      events: Option<seq<Event>>, maskable: set<Handle>, active: set<Handle>, changed: set<(Handle, nat)>)
      returns (r: WaitResult, reset: seq<Ptr>, listed: seq<bool>, ghost order: seq<Handle>)
      requires Separate(subs', gcs') && Separate(subs', srvs') && Separate(subs', cls')
      requires Separate(gcs', srvs') && Separate(gcs', cls') && Separate(srvs', cls')
      modifies this, subs', gcs', srvs', cls'
      ensures var req := old(Cache(Listed(subs'), Listed(gcs'), Listed(srvs'), Listed(cls'), ListedEvents(events)));
              && (r.Refused? <==> old(inuse))
              && (r.Failed? <==> !old(inuse) && old(Cached()) != req && !Gatherable(req.evs, maskable))
              && (inuse <==> !r.Waited?)
              && (r.Waited? ==>
                    && Cached() == req
                    && Readied(heap, old(Cached()), req, order, old(attached), old(nelems), attached, nelems)
                    && (r.timedOut <==> Triggers(attached, active, nelems) == [])
                    && reset == Kept(req.gcs, |req.subs|, Triggers(attached, active, nelems))
                    && listed == ActiveEvents(req.evs, changed)
                    && Listed(subs') + Listed(gcs') + Listed(srvs') + Listed(cls')
                       == Reported(req.Pointers(), 0, Triggers(attached, active, nelems)))
      ensures var req := old(Cache(Listed(subs'), Listed(gcs'), Listed(srvs'), Listed(cls'), ListedEvents(events)));
              r.Failed? ==>
                && Cached() == req.(evs := []) && nelems == 0
                && attached == AttachAll(Detached(old(attached), heap, old(Cached())), Handles(heap, req.Pointers()))
      ensures r.Refused? ==> Cached() == old(Cached()) && attached == old(attached) && nelems == old(nelems)
      ensures !r.Waited? ==> Listed(subs') == old(Listed(subs')) && Listed(gcs') == old(Listed(gcs'))
                             && Listed(srvs') == old(Listed(srvs')) && Listed(cls') == old(Listed(cls'))
    {
      hide AttachAll, Detached, Enumerates, Handles, Gatherable, EventEntities, Triggers, Listed, CddsWaitset.ScannedTo,
        CddsWaitset.TrigsValid, Reported, Kept, ActiveEvents, WithSentinel, ListedEvents, Readied;
      ghost var req := Cache(Listed(subs'), Listed(gcs'), Listed(srvs'), Listed(cls'), ListedEvents(events));
      reset, listed, order := [], [], [];
      if inuse {
        return Refused, [], [], [];
      }
      inuse := true;
      var ok;
      ok, order := Prepare(heap, subs', gcs', srvs', cls', events, maskable);
      if !ok {
        return Failed, [], [], order;
      }
      CollectTriggers(active);
      reset := Report(subs', gcs', srvs', cls', Triggers(attached, active, nelems));
      listed := HandleActiveEvents(events, changed);
      inuse := false;
      r := Waited(|trigs| == 1);
      SentinelLast(Triggers(attached, active, nelems));
    }

    method Report(
      subs': array?<Ptr>, gcs': array?<Ptr>, srvs': array?<Ptr>, cls': array?<Ptr>, ghost t: seq<nat>)
      returns (reset: seq<Ptr>)
      requires Separate(subs', gcs') && Separate(subs', srvs') && Separate(subs', cls')
      requires Separate(gcs', srvs') && Separate(gcs', cls') && Separate(srvs', cls')
      requires ScannedTo(0, 0) && trigs == WithSentinel(t)
      modifies subs', gcs', srvs', cls'
      ensures Listed(subs') + Listed(gcs') + Listed(srvs') + Listed(cls')
              == Reported(old(Listed(subs') + Listed(gcs') + Listed(srvs') + Listed(cls')), 0, t)
      ensures reset == Kept(old(Listed(gcs')), old(|Listed(subs')|), t)
    {
      hide CddsWaitset.ScannedTo, Reported, Kept, Listed, WithSentinel;
      SentinelIgnored(Listed(subs') + Listed(gcs') + Listed(srvs') + Listed(cls'), t);
      SentinelNotKept(Listed(gcs'), |Listed(subs')|, t);
      reset := ScanAll(subs', gcs', srvs', cls');
    }

    method ScanAll(subs': array?<Ptr>, gcs': array?<Ptr>, srvs': array?<Ptr>, cls': array?<Ptr>)
      returns (reset: seq<Ptr>)
      requires Separate(subs', gcs') && Separate(subs', srvs') && Separate(subs', cls')
      requires Separate(gcs', srvs') && Separate(gcs', cls') && Separate(srvs', cls')
      requires ScannedTo(0, 0)
      modifies subs', gcs', srvs', cls'
      ensures Listed(subs') + Listed(gcs') + Listed(srvs') + Listed(cls')
              == Reported(old(Listed(subs') + Listed(gcs') + Listed(srvs') + Listed(cls')), 0, trigs)
      ensures reset == Kept(old(Listed(gcs')), old(|Listed(subs')|), trigs)
    {
      hide CddsWaitset.ScannedTo, Reported, Kept;
      ghost var a, b, c, d := Listed(subs'), Listed(gcs'), Listed(srvs'), Listed(cls');
      var i, n, kept := Scan(subs', 0, 0);
      i, n, reset := Scan(gcs', i, n);
      i, n, kept := Scan(srvs', i, n);
      i, n, kept := Scan(cls', i, n);
      ReportedJoin(a, b, 0, trigs);
      ReportedJoin(a + b, c, 0, trigs);
      ReportedJoin(a + b + c, d, 0, trigs);
    }
  }

  ghost predicate Separate(a: array?<Ptr>, b: array?<Ptr>) {
    a == null || b == null || a != b
  }

  lemma ReportedJoin(a: seq<Ptr>, b: seq<Ptr>, n: nat, trigs: seq<int>)
    ensures Reported(a + b, n, trigs) == Reported(a, n, trigs) + Reported(b, n + |a|, trigs)
  {
  }

  lemma SentinelIgnored(ps: seq<Ptr>, t: seq<nat>)
    ensures Reported(ps, 0, WithSentinel(t)) == Reported(ps, 0, t)
  {
  }

  lemma {:induction false} SentinelNotKept(ps: seq<Ptr>, n: nat, t: seq<nat>)
    ensures Kept(ps, n, WithSentinel(t)) == Kept(ps, n, t)
  {
    if ps != [] {
      SentinelNotKept(ps[..|ps| - 1], n, t);
    }
  }

  lemma SentinelLast(t: seq<nat>)
    ensures |WithSentinel(t)| == 1 <==> t == []
  {
  }

  lemma AttachNone(m: map<Handle, nat>)
    ensures AttachAll(m, []) == m
  {
  }

  lemma NoEvents()
    ensures Gatherable([], {}) && Enumerates([], EventEntities([]))
    ensures forall s :: Gatherable([], s)
  {
  }

  lemma HandlesOfAll(heap: Heap, a: seq<Ptr>, b: seq<Ptr>, c: seq<Ptr>, d: seq<Ptr>)
    ensures Handles(heap, a + b + c + d)
            == [] + Handles(heap, a) + Handles(heap, b) + Handles(heap, c) + Handles(heap, d)
  {
  }

  /** Called when an entity is about to be deleted: every wait set that is not in use drops its cache. */
  method CleanWaitsetCaches(waitsets: set<CddsWaitset>, heap: Heap)
    modifies waitsets
    ensures forall ws :: ws in waitsets ==>
              && ws.inuse == old(ws.inuse)
              && (ws.inuse ==> ws.attached == old(ws.attached) && ws.Cached() == old(ws.Cached()))
              && (!ws.inuse ==>
                    ws.attached == Detached(old(ws.attached), heap, old(ws.Cached())) && ws.Cached() == NO_CACHE)
  {
    hide Detached;
    var rest := waitsets;
    while rest != {}
      invariant rest <= waitsets
      invariant forall ws :: ws in waitsets ==> ws.inuse == old(ws.inuse)
      invariant forall ws :: ws in rest || (ws in waitsets && ws.inuse) ==>
                  ws.attached == old(ws.attached) && ws.Cached() == old(ws.Cached())
      invariant forall ws :: ws in waitsets - rest && !ws.inuse ==>
                  ws.attached == Detached(old(ws.attached), heap, old(ws.Cached())) && ws.Cached() == NO_CACHE
      decreases rest
    {
      var ws :| ws in rest;
      if !ws.inuse {
        ws.Detach(heap);
      }
      rest := rest - {ws};
    }
  }
}
