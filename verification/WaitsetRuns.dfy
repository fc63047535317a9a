/**
 Runs of a process that creates, waits for and destroys entities. Addresses of destroyed objects may be used
 again, DDS handles are not, and nothing is destroyed while a wait for it is going on.
 A wait is several steps, so entities come and go while it is in progress.
 */
module WaitsetRuns {
  import opened Waitset

  /** `Stuck` is a wait set whose wait ended early with the wait set still marked as in use. */
  datatype Phase = Idle | Entered(req: Cache) | Waiting(req: Cache) | Stuck {
    predicate Active() { Entered? || Waiting? }
  }

  /** `installed` is the history of handles attached since everything was last detached. */
  datatype WaitSet = WaitSet(
    attached: map<Handle, nat>, nelems: nat, cache: Cache, phase: Phase, installed: seq<Handle>)

  /**
   `live` are the DDS entities that exist, `used` those that ever did; `dying` are the addresses of objects
   that are being destroyed: wait set caches have been cleaned, but the DDS entity has not yet been deleted.
   */
  datatype World = World(heap: Heap, live: set<Handle>, used: set<Handle>, dying: set<Ptr>, sets: map<nat, WaitSet>)

  const EMPTY_WAIT_SET: WaitSet := WaitSet(map[], 0, NO_CACHE, Idle, [])

  datatype Step =
    | CreateObject(p: Ptr, h: Handle)
    | CreateEntity(h: Handle)
    | StartDestroy(p: Ptr)
    | FinishDestroy(p: Ptr)
    | DestroyEntity(h: Handle)
    | CreateWaitSet(id: nat)
    | DestroyWaitSet(id: nat)
    | Enter(id: nat, req: Cache)
    | Prepare(id: nat, maskable: set<Handle>, order: seq<Handle>)
    | FailToPrepare(id: nat, maskable: set<Handle>)
    | Leave(id: nat)

  // ---------------------------------------------------------------- steps

  /**
   A wait for `req` may begin: everything in it exists and is not being destroyed, except that events may have
   an entity that never was valid.
   */
  predicate Waitable(w: World, req: Cache) {
    && (forall p :: p in req.Pointers() ==> p in w.heap && p !in w.dying)
    && (forall h :: h in EventHandles(req.evs) ==> h <= 0 || h in w.live)
  }

  /** The state in which a wait ends that fails on its events: all but these attached, still marked as in use. */
  function HalfAttached(heap: Heap, s: WaitSet): WaitSet
    requires s.phase.Entered?
  {
    var req := s.phase.req;
    var hs := Handles(heap, req.Pointers());
    WaitSet(AttachAll(Detached(s.attached, heap, s.cache), hs), 0, req.(evs := []), Stuck, hs)
  }

  /** No wait that is going on involves the object at `p`. */
  predicate NotAwaited(w: World, p: Ptr) {
    forall id :: id in w.sets && w.sets[id].phase.Active() ==> p !in w.sets[id].phase.req.Pointers()
  }

  /** No wait that is going on involves an event of the entity `h`. */
  predicate NoEventAwaited(w: World, h: Handle) {
    forall id :: id in w.sets && w.sets[id].phase.Active() ==> h !in EventHandles(w.sets[id].phase.req.evs)
  }

  function Cleaned(s: WaitSet, heap: Heap): WaitSet {
    if s.phase.Idle? then WaitSet(Detached(s.attached, heap, s.cache), 0, NO_CACHE, Idle, []) else s
  }

  /** Deleting a DDS entity detaches it from every wait set. */
  function Deleted(s: WaitSet, h: Handle): WaitSet {
    s.(attached := s.attached - {h})
  }

  function DeletedAll(sets: map<nat, WaitSet>, h: Handle): map<nat, WaitSet> {
    map id | id in sets :: Deleted(sets[id], h)
  }

  ghost predicate Next(w: World, step: Step, w': World) {
    match step
    case CreateObject(p, h) =>
      && p !in w.heap && h > 0 && h !in w.used
      && w' == w.(heap := w.heap[p := h], live := w.live + {h}, used := w.used + {h})
    case CreateEntity(h) =>
      h > 0 && h !in w.used && w' == w.(live := w.live + {h}, used := w.used + {h})
    case StartDestroy(p) =>
      && p in w.heap && NotAwaited(w, p)
      && w' == w.(dying := w.dying + {p}, sets := map id | id in w.sets :: Cleaned(w.sets[id], w.heap))
    case FinishDestroy(p) =>
      && p in w.dying && p in w.heap && NoEventAwaited(w, w.heap[p])
      && w' == w.(heap := w.heap - {p}, live := w.live - {w.heap[p]}, dying := w.dying - {p},
                  sets := DeletedAll(w.sets, w.heap[p]))
    case DestroyEntity(h) =>
      && h in w.live && h !in w.heap.Values
      && NoEventAwaited(w, h)
      && w' == w.(live := w.live - {h}, sets := DeletedAll(w.sets, h))
    case CreateWaitSet(id) =>
      id !in w.sets && w' == w.(sets := w.sets[id := EMPTY_WAIT_SET])
    case DestroyWaitSet(id) =>
      id in w.sets && !w.sets[id].phase.Active() && w' == w.(sets := w.sets - {id})
    case Enter(id, req) =>
      && id in w.sets && w.sets[id].phase.Idle? && Waitable(w, req)
      && w' == w.(sets := w.sets[id := w.sets[id].(phase := Entered(req))])
    case Prepare(id, maskable, order) =>
      && id in w.sets && w.sets[id].phase.Entered? && id in w'.sets && maskable <= w.live
      && (w.sets[id].cache == w.sets[id].phase.req || Gatherable(w.sets[id].phase.req.evs, maskable))
      && var s, s' := w.sets[id], w'.sets[id];
         && Readied(w.heap, s.cache, s.phase.req, order, s.attached, s.nelems, s'.attached, s'.nelems)
         && s'.cache == s.phase.req && s'.phase == Waiting(s.phase.req)
         && s'.installed
            == (if s.cache == s.phase.req then s.installed else Handles(w.heap, s.phase.req.Pointers()) + order)
         && w' == w.(sets := w.sets[id := s'])
    case FailToPrepare(id, maskable) =>
      && id in w.sets && w.sets[id].phase.Entered? && maskable <= w.live
      && w.sets[id].cache != w.sets[id].phase.req && !Gatherable(w.sets[id].phase.req.evs, maskable)
      && w' == w.(sets := w.sets[id := HalfAttached(w.heap, w.sets[id])])
    case Leave(id) =>
      && id in w.sets && w.sets[id].phase.Waiting?
      && w' == w.(sets := w.sets[id := w.sets[id].(phase := Idle)])
  }

  ghost predicate Initial(w: World) {
    w.heap == map[] && w.live == {} && w.used == {} && w.dying == {} && w.sets == map[]
  }

  ghost predicate Run(ws: seq<World>, steps: seq<Step>) {
    && |ws| == |steps| + 1 && Initial(ws[0])
    && forall i :: 0 <= i < |steps| ==> Next(ws[i], steps[i], ws[i + 1])
  }

  // ---------------------------------------------------------------- what every step keeps

  function Restrict(m: map<Handle, nat>, live: set<Handle>): map<Handle, nat> {
    map h | h in m && h in live :: m[h]
  }

  /** The object at `p` still is the one with handle `h`. */
  predicate Same(w: World, p: Ptr, h: Handle) {
    p in w.heap && w.heap[p] == h
  }

  /** Must the cached pointer `p` still be good? While a wait begins, only if it is waited for. */
  predicate Relied(phase: Phase, p: Ptr) {
    phase.Entered? ==> p in phase.req.Pointers()
  }

  ghost predicate SetInv(w: World, s: WaitSet) {
    var ps := s.cache.Pointers();
    && |ps| <= |s.installed| == s.nelems
    && Enumerates(s.installed[|ps|..], EventEntities(s.cache.evs))
    && s.attached == Restrict(AttachAll(map[], s.installed), w.live)
    && (forall h :: h in s.installed ==> h in w.used)
    && (forall i :: 0 <= i < |ps| ==> Same(w, ps[i], s.installed[i]) || s.installed[i] !in w.live)
    && (forall i :: 0 <= i < |ps| && Relied(s.phase, ps[i]) ==> Same(w, ps[i], s.installed[i]))
    && (s.phase.Active() ==> Waitable(w, s.phase.req))
    && (s.phase.Idle? ==> forall p :: p in ps ==> p !in w.dying)
    && (s.phase.Waiting? ==> s.cache == s.phase.req)
  }

  /** Handles of entities are positive. */
  predicate Positive(used: set<Handle>) {
    forall h :: h in used ==> h > 0
  }

  ghost predicate Inv(w: World) {
    && (forall p :: p in w.heap ==> w.heap[p] in w.live)
    && (forall p, q :: p in w.heap && q in w.heap && p != q ==> w.heap[p] != w.heap[q])
    && w.live <= w.used && Positive(w.used)
    && (forall p :: p in w.dying ==> p in w.heap)
    && (forall id :: id in w.sets && !w.sets[id].phase.Stuck? ==> SetInv(w, w.sets[id]))
  }

  /** Nothing is left attached when all that is cached has been detached. */
  lemma DetachedIsEmpty(w: World, s: WaitSet)
    requires SetInv(w, s)
    ensures Detached(s.attached, w.heap, s.cache) == map[]
  {
    hide AttachAll, Enumerates;
    var ps := s.cache.Pointers();
    forall h | h in s.attached
      ensures h !in Detached(s.attached, w.heap, s.cache)
    {
      var i :| 0 <= i < |s.installed| && s.installed[i] == h;
      if i < |ps| {
        assert HandleAt(w.heap, ps[i]) == h;
        Covered(w.heap, s.cache, i);
      } else {
        OrderCovered(s.installed[|ps|..], s.cache.evs, i - |ps|);
      }
    }
  }

  lemma Covered(heap: Heap, c: Cache, i: nat)
    requires i < |c.Pointers()|
    ensures var h := HandleAt(heap, c.Pointers()[i]);
            h in SetOf(heap, c.subs) || h in SetOf(heap, c.gcs) || h in SetOf(heap, c.srvs) || h in SetOf(heap, c.cls)
  {
    var p := c.Pointers()[i];
    assert p in c.subs || p in c.gcs || p in c.srvs || p in c.cls;
  }

  lemma OrderCovered(order: seq<Handle>, evs: seq<Event>, i: nat)
    requires Enumerates(order, EventEntities(evs)) && i < |order|
    ensures order[i] in EventHandles(evs)
  {
    assert order[i] in order;
    assert order[i] in EventEntities(evs);
  }

  /** What could be gathered has a mask that can be set. */
  lemma OrderGathered(order: seq<Handle>, evs: seq<Event>, maskable: set<Handle>, i: nat)
    requires Enumerates(order, EventEntities(evs)) && i < |order| && Gatherable(evs, maskable)
    ensures order[i] in maskable
  {
    assert order[i] in order;
    assert order[i] in EventEntities(evs);
  }

  lemma KeptByCreation(w: World, w': World, s: WaitSet, h: Handle)
    requires SetInv(w, s) && h !in w.used && w.live <= w.used
    requires w'.live == w.live + {h} && w'.used == w.used + {h} && w'.dying == w.dying
    requires forall p :: p in w.heap ==> p in w'.heap && w'.heap[p] == w.heap[p]
    ensures SetInv(w', s)
  {
    hide AttachAll, Enumerates;
    assert Restrict(AttachAll(map[], s.installed), w'.live) == Restrict(AttachAll(map[], s.installed), w.live);
  }

  lemma KeptByCleaning(w: World, w': World, s: WaitSet, p: Ptr)
    requires SetInv(w, s) && w' .heap == w.heap && w'.live == w.live && w'.used == w.used
    requires w'.dying == w.dying + {p} && (s.phase.Active() ==> p !in s.phase.req.Pointers())
    ensures SetInv(w', Cleaned(s, w.heap))
  {
    hide AttachAll, Enumerates;
    if s.phase.Idle? {
      DetachedIsEmpty(w, s);
      EmptyInv(w');
    }
  }

  lemma EmptyInv(w: World)
    ensures SetInv(w, EMPTY_WAIT_SET)
  {
    assert EventEntities([]) == {};
  }

  /** Deleting an entity that no wait involves. `p` is the object whose entity it was, if any. */
  lemma KeptByDeletion(w: World, w': World, s: WaitSet, h: Handle, gone: set<Ptr>)
    requires SetInv(w, s) && !s.phase.Stuck?
    requires w'.live == w.live - {h} && w'.used == w.used && w'.dying == w.dying - gone && w'.heap == w.heap - gone
    requires forall p :: p in gone ==> p in w.dying && p in w.heap && w.heap[p] == h
    requires s.phase.Active() ==> h !in EventHandles(s.phase.req.evs)
    ensures SetInv(w', Deleted(s, h))
  {
    hide AttachAll, Enumerates, EventHandles;
    var m := AttachAll(map[], s.installed);
    assert Restrict(m, w'.live) == Restrict(m, w.live) - {h};
    var ps := s.cache.Pointers();
    forall i | 0 <= i < |ps|
      ensures Relied(s.phase, ps[i]) ==> Same(w', ps[i], s.installed[i])
      ensures Same(w', ps[i], s.installed[i]) || s.installed[i] !in w'.live
    {
      assert ps[i] in ps;
    }
  }

  lemma KeptByPreparing(w: World, s: WaitSet, s': WaitSet, maskable: set<Handle>, order: seq<Handle>)
    requires s.phase.Entered? && maskable <= w.live
    requires s.cache == s.phase.req || Gatherable(s.phase.req.evs, maskable)
    requires SetInv(w, s) && (forall p :: p in w.heap ==> w.heap[p] in w.live) && w.live <= w.used
    requires Readied(w.heap, s.cache, s.phase.req, order, s.attached, s.nelems, s'.attached, s'.nelems)
    requires s'.cache == s.phase.req && s'.phase == Waiting(s.phase.req)
    requires s'.installed
             == if s.cache == s.phase.req then s.installed else Handles(w.heap, s.phase.req.Pointers()) + order
    ensures SetInv(w, s')
  {
    hide AttachAll, Enumerates, EventEntities, EventHandles, Detached, Handles, Same, Restrict, Gatherable;
    if s.cache != s.phase.req {
      DetachedIsEmpty(w, s);
      NewlyInstalled(w, s.phase.req, maskable, order);
      AllLive(AttachAll(map[], s'.installed), s'.installed, w.live);
    }
  }

  /** What is attached for a wait that may begin is alive. */
  lemma NewlyInstalled(w: World, req: Cache, maskable: set<Handle>, order: seq<Handle>)
    requires Waitable(w, req) && Enumerates(order, EventEntities(req.evs))
    requires Gatherable(req.evs, maskable) && maskable <= w.live
    requires forall p :: p in w.heap ==> w.heap[p] in w.live
    ensures var ps := req.Pointers();
            var hs := Handles(w.heap, ps) + order;
            && hs[|ps|..] == order && (forall h :: h in hs ==> h in w.live)
            && forall i :: 0 <= i < |ps| ==> Same(w, ps[i], hs[i])
  {
    hide EventHandles, EventEntities, Enumerates, Gatherable;
    var ps := req.Pointers();
    var hs := Handles(w.heap, ps) + order;
    forall h | h in hs
      ensures h in w.live
    {
      var i :| 0 <= i < |hs| && hs[i] == h;
      if i < |ps| {
        assert ps[i] in ps;
      } else {
        OrderGathered(order, req.evs, maskable, i - |ps|);
      }
    }
    forall i | 0 <= i < |ps|
      ensures Same(w, ps[i], hs[i])
    {
      assert ps[i] in ps;
    }
  }

  lemma StepKeepsInv(w: World, step: Step, w': World)
    requires Inv(w) && Next(w, step, w')
    ensures Inv(w')
  {
    hide AttachAll, Enumerates, EventEntities, EventHandles, Detached, SetInv, Readied, Waitable, NotAwaited;
    match step
    case CreateObject(p, h) =>
      forall id | id in w.sets && !w.sets[id].phase.Stuck? ensures SetInv(w', w.sets[id]) {
        KeptByCreation(w, w', w.sets[id], h);
      }
    case CreateEntity(h) =>
      forall id | id in w.sets && !w.sets[id].phase.Stuck? ensures SetInv(w', w.sets[id]) {
        KeptByCreation(w, w', w.sets[id], h);
      }
    case StartDestroy(p) => StartDestroyKeepsInv(w, p, w');
    case FinishDestroy(p) => DeletionKeepsInv(w, w.heap[p], {p}, w');
    case DestroyEntity(h) => DeletionKeepsInv(w, h, {}, w');
    case CreateWaitSet(id) =>
      EmptyInv(w');
      OthersKept(w, w', {id});
    case DestroyWaitSet(id) => OthersKept(w, w', {id});
    case Enter(id, req) =>
      EnterKeeps(w, w', w.sets[id], req);
      OthersKept(w, w', {id});
    case Prepare(id, maskable, order) =>
      OthersKept(w, w', {id});
      KeptByPreparing(w, w.sets[id], w'.sets[id], maskable, order);
      SameWorld(w, w', w'.sets[id]);
    case FailToPrepare(id, _) => OthersKept(w, w', {id});
    case Leave(id) =>
      LeaveKeeps(w, w', w.sets[id]);
      OthersKept(w, w', {id});
  }

  /** The invariant of a wait set does not look at the other wait sets. */
  lemma SameWorld(w: World, w': World, s: WaitSet)
    requires SetInv(w, s) && w' == w.(sets := w'.sets)
    ensures SetInv(w', s)
  {
    hide AttachAll, Enumerates, EventEntities, EventHandles;
  }

  lemma OthersKept(w: World, w': World, ids: set<nat>)
    requires Inv(w) && w' == w.(sets := w'.sets)
    requires forall id :: id in w'.sets && id !in ids ==> id in w.sets && w'.sets[id] == w.sets[id]
    ensures forall id :: id in w'.sets && id !in ids && !w'.sets[id].phase.Stuck? ==> SetInv(w', w'.sets[id])
  {
    hide SetInv;
    forall id | id in w'.sets && id !in ids && !w'.sets[id].phase.Stuck?
      ensures SetInv(w', w'.sets[id])
    {
      SameWorld(w, w', w.sets[id]);
    }
  }

  lemma StartDestroyKeepsInv(w: World, p: Ptr, w': World)
    requires Inv(w) && Next(w, StartDestroy(p), w')
    ensures Inv(w')
  {
    hide SetInv, Cleaned;
    forall id | id in w'.sets && !w'.sets[id].phase.Stuck?
      ensures SetInv(w', w'.sets[id])
    {
      assert !w.sets[id].phase.Stuck? by { StuckUncleaned(w.sets[id], w.heap); }
      KeptByCleaning(w, w', w.sets[id], p);
    }
  }

  lemma StuckUncleaned(s: WaitSet, heap: Heap)
    ensures Cleaned(s, heap).phase == s.phase
  {
  }

  lemma DeletionKeepsInv(w: World, h: Handle, gone: set<Ptr>, w': World)
    requires Inv(w)
    requires w' == w.(heap := w.heap - gone, live := w.live - {h}, dying := w.dying - gone,
                      sets := DeletedAll(w.sets, h))
    requires forall p :: p in gone ==> p in w.dying && p in w.heap && w.heap[p] == h
    requires forall p :: p in w.heap && w.heap[p] == h ==> p in gone
    requires NoEventAwaited(w, h)
    ensures Inv(w')
  {
    hide SetInv, EventHandles;
    forall id | id in w'.sets && !w'.sets[id].phase.Stuck?
      ensures SetInv(w', w'.sets[id])
    {
      KeptByDeletion(w, w', w.sets[id], h, gone);
    }
  }

  lemma EnterKeeps(w: World, w': World, s: WaitSet, req: Cache)
    requires SetInv(w, s) && s.phase.Idle? && Waitable(w, req) && w' == w.(sets := w'.sets)
    ensures SetInv(w', s.(phase := Entered(req)))
  {
    hide AttachAll, Enumerates, EventEntities, EventHandles;
  }

  lemma LeaveKeeps(w: World, w': World, s: WaitSet)
    requires SetInv(w, s) && s.phase.Waiting? && w' == w.(sets := w'.sets)
    ensures SetInv(w', s.(phase := Idle))
  {
    hide AttachAll, Enumerates, EventEntities, EventHandles;
  }

  // ---------------------------------------------------------------- whole runs

  lemma {:induction false} RunKeepsInv(ws: seq<World>, steps: seq<Step>, i: nat)
    requires Run(ws, steps) && i < |ws|
    ensures Inv(ws[i])
  {
    hide Next, SetInv;
    if i > 0 {
      RunKeepsInv(ws, steps, i - 1);
      StepKeepsInv(ws[i - 1], steps[i - 1], ws[i]);
    }
  }

  /** What a full detach and reattach for `req` would leave, the entities of events in some order. */
  ghost predicate FullyAttached(w: World, s: WaitSet, req: Cache, order: seq<Handle>) {
    && Enumerates(order, EventEntities(req.evs))
    && s.attached == AttachAll(Detached(s.attached, w.heap, s.cache), Handles(w.heap, req.Pointers()) + order)
    && s.attached == AttachAll(map[], Handles(w.heap, req.Pointers()) + order)
    && s.nelems == |req.Pointers()| + |order|
  }

  /**
   In every run, whenever the cache is found to serve, and all the while a wait is going on, what is attached,
   tokens included, is what a full detach and reattach would install.
   */
  lemma CacheIsCoherent(ws: seq<World>, steps: seq<Step>, i: nat, id: nat) returns (order: seq<Handle>)
    requires Run(ws, steps) && i < |ws| && id in ws[i].sets
    requires var s := ws[i].sets[id]; s.phase.Waiting? || (s.phase.Entered? && s.cache == s.phase.req)
    ensures var s := ws[i].sets[id]; s.cache == s.phase.req && FullyAttached(ws[i], s, s.phase.req, order)
  {
    RunKeepsInv(ws, steps, i);
    order := Coherent(ws[i], ws[i].sets[id]);
  }

  lemma Coherent(w: World, s: WaitSet) returns (order: seq<Handle>)
    requires SetInv(w, s) && (forall p :: p in w.heap ==> w.heap[p] in w.live) && Positive(w.used)
    requires s.phase.Waiting? || (s.phase.Entered? && s.cache == s.phase.req)
    ensures s.cache == s.phase.req && FullyAttached(w, s, s.phase.req, order)
  {
    hide AttachAll, Enumerates, EventEntities, EventHandles, Detached, Handles, Restrict, Waitable, Same;
    order := s.installed[|s.cache.Pointers()|..];
    DetachedIsEmpty(w, s);
    InstalledHandles(w, s);
    AllLive(AttachAll(map[], s.installed), s.installed, w.live);
  }

  /** What was attached for the pointers waited for are the handles they have now, and all of it is alive. */
  lemma InstalledHandles(w: World, s: WaitSet)
    requires SetInv(w, s) && (forall p :: p in w.heap ==> w.heap[p] in w.live) && Positive(w.used)
    requires s.phase.Waiting? || (s.phase.Entered? && s.cache == s.phase.req)
    ensures var ps := s.cache.Pointers();
            && |ps| <= |s.installed| && s.installed == Handles(w.heap, ps) + s.installed[|ps|..]
            && forall h :: h in s.installed ==> h in w.live
  {
    hide AttachAll, Enumerates, EventEntities, EventHandles, Detached, Restrict;
    var ps := s.cache.Pointers();
    var order := s.installed[|ps|..];
    forall i | 0 <= i < |ps|
      ensures s.installed[i] == Handles(w.heap, ps)[i] && s.installed[i] in w.live
    {
      assert ps[i] in ps;
    }
    forall h | h in s.installed
      ensures h in w.live
    {
      var i :| 0 <= i < |s.installed| && s.installed[i] == h;
      if i >= |ps| {
        OrderCovered(order, s.cache.evs, i - |ps|);
      }
    }
  }

  lemma AllLive(m: map<Handle, nat>, hs: seq<Handle>, live: set<Handle>)
    requires (forall h :: h in m ==> h in hs) && (forall h :: h in hs ==> h in live)
    ensures Restrict(m, live) == m
  {
    assert forall h :: h in m ==> h in live;
  }

  /**
   What a wait reports: an entry survives the scan if and only if its entity is triggered
   and is not listed a second time.
   */
  lemma TriggeredIsReported(ws: seq<World>, steps: seq<Step>, i: nat, id: nat, active: set<Handle>, p: nat)
    requires Run(ws, steps) && i < |ws| && id in ws[i].sets && ws[i].sets[id].phase.Waiting?
    requires p < |ws[i].sets[id].phase.req.Pointers()|
    ensures var s := ws[i].sets[id];
            var ps := s.phase.req.Pointers();
            var hs := Handles(ws[i].heap, ps);
            Reported(ps, 0, Triggers(s.attached, active, s.nelems))[p]
            == if hs[p] in active && hs[p] !in hs[..p] then ps[p] else NULL
  {
    hide AttachAll, Enumerates, EventEntities, Detached, Triggers, Run;
    var s := ws[i].sets[id];
    var order := CacheIsCoherent(ws, steps, i, id);
    var hs := Handles(ws[i].heap, s.phase.req.Pointers());
    assert (hs + order)[..p] == hs[..p];
    TriggeredPosition(hs + order, active, s.nelems, p);
  }

  /**
   A wait set whose wait fails on an invalid event stays marked as in use for as long as it exists:
   no later step lets another wait begin or cleans its cache.
   */
  lemma {:induction false} StuckForGood(ws: seq<World>, steps: seq<Step>, i: nat, j: nat, id: nat)
    requires Run(ws, steps) && i <= j < |ws| && id in ws[i].sets && ws[i].sets[id].phase.Stuck?
    requires forall k :: i <= k < j ==> steps[k] != DestroyWaitSet(id)
    ensures id in ws[j].sets && ws[j].sets[id].phase.Stuck?
    ensures ws[j].sets[id].cache == ws[i].sets[id].cache
    ensures forall k :: i <= k < j ==> !(steps[k].Enter? && steps[k].id == id)
    decreases j
  {
    hide Readied, Waitable, NotAwaited, NoEventAwaited, Detached;
    if i < j {
      StuckForGood(ws, steps, i, j - 1, id);
      assert Next(ws[j - 1], steps[j - 1], ws[j]);
    }
  }

  const NO_WORLD: World := World(map[], {}, {}, {}, map[])

  /** A wait for one event. */
  const FOR_EVENT: Cache := Cache([], [], [], [], [Event(0, EventType(0, true))])

  /** A run that ends stuck: the entity of the only event waited for is not valid. */
  lemma StuckRun() returns (ws: seq<World>, steps: seq<Step>)
    ensures Run(ws, steps) && |ws| == 4 && 0 in ws[3].sets && ws[3].sets[0].phase.Stuck?
  {
    var s := EMPTY_WAIT_SET;
    var entered := s.(phase := Entered(FOR_EVENT));
    steps := [CreateWaitSet(0), Enter(0, FOR_EVENT), FailToPrepare(0, {})];
    ws := [NO_WORLD, NO_WORLD.(sets := map[0 := s]), NO_WORLD.(sets := map[0 := entered]),
           NO_WORLD.(sets := map[0 := HalfAttached(map[], entered)])];
    assert FOR_EVENT.evs[0].enth == 0;
    assert EventHandles(FOR_EVENT.evs) == {0};
  }

  // ---------------------------------------------------------------- pointers that are stale when a wait begins

  /** The wait set `id` is in the wait that it entered in step `j`, and has not yet looked at its cache. */
  ghost predicate StillEntering(ws: seq<World>, steps: seq<Step>, j: nat, i: nat, id: nat) {
    && Run(ws, steps) && j < i < |ws| && steps[j].Enter? && steps[j].id == id
    && forall l :: j < l <= i ==> id in ws[l].sets && ws[l].sets[id].phase.Entered?
  }

  /**
   When a wait comes to look at its cache, a cached pointer no longer leads to the object that was cached if and only
   if that object was destroyed after the wait had been entered. A wait whose cache names other entities than it
   waits for then reads the freed object.
   */
  lemma {:induction false} StalePointerExact(ws: seq<World>, steps: seq<Step>, j: nat, i: nat, id: nat, k: nat)
    requires StillEntering(ws, steps, j, i, id) && k < |ws[i].sets[id].cache.Pointers()|
    ensures k < |ws[i].sets[id].installed|
    ensures var s := ws[i].sets[id];
            var p := s.cache.Pointers()[k];
            Same(ws[i], p, s.installed[k]) <==> forall l :: j < l < i ==> steps[l] != FinishDestroy(p)
    ensures id in ws[j].sets && ws[i].sets[id].cache == ws[j].sets[id].cache
            && ws[i].sets[id].installed == ws[j].sets[id].installed
    decreases i
  {
    hide SetInv, Next;
    RunKeepsInv(ws, steps, i - 1);
    var w, w' := ws[i - 1], ws[i];
    assert Next(w, steps[i - 1], w');
    if i - 1 == j {
      EnterKeepsCache(w, steps[j], w');
      EnteredFresh(w, w.sets[id], k);
    } else {
      KeptWhileEntering(w, steps[i - 1], w', id);
      StalePointerExact(ws, steps, j, i - 1, id, k);
      EnteredInUse(w, w.sets[id], k);
      var p, h := w.sets[id].cache.Pointers()[k], w.sets[id].installed[k];
      SameAfter(w, steps[i - 1], w', p, h);
    }
  }

  lemma EnterKeepsCache(w: World, step: Step, w': World)
    requires step.Enter? && Next(w, step, w')
    ensures step.id in w.sets && step.id in w'.sets && w.sets[step.id].phase.Idle?
    ensures w'.heap == w.heap && w'.sets[step.id].cache == w.sets[step.id].cache
    ensures w'.sets[step.id].installed == w.sets[step.id].installed
  {
    hide Waitable;
  }

  lemma EnteredFresh(w: World, s: WaitSet, k: nat)
    requires SetInv(w, s) && s.phase.Idle? && k < |s.cache.Pointers()|
    ensures k < |s.installed| && Same(w, s.cache.Pointers()[k], s.installed[k])
  {
  }

  lemma EnteredInUse(w: World, s: WaitSet, k: nat)
    requires SetInv(w, s) && k < |s.cache.Pointers()|
    ensures k < |s.installed| && s.installed[k] in w.used
  {
  }

  /** Nothing but the waiting thread itself changes the cache of a wait set in use. */
  lemma KeptWhileEntering(w: World, step: Step, w': World, id: nat)
    requires Next(w, step, w') && id in w.sets && id in w'.sets
    requires w.sets[id].phase.Entered? && w'.sets[id].phase.Entered?
    ensures w'.sets[id].cache == w.sets[id].cache && w'.sets[id].installed == w.sets[id].installed
  {
    hide Readied, Waitable, NotAwaited, NoEventAwaited, Detached;
  }

  /** An object stays the same until it is destroyed, and its handle is never used again. */
  lemma SameAfter(w: World, step: Step, w': World, p: Ptr, h: Handle)
    requires Next(w, step, w') && h in w.used
    ensures Same(w', p, h) <==> Same(w, p, h) && step != FinishDestroy(p)
  {
    hide Readied, Waitable, NotAwaited, NoEventAwaited, Detached;
  }

  /** A wait for the object at address 1. */
  const FOR_ONE: Cache := Cache([1], [], [], [], [])

  const BORN: World := World(map[1 := 1], {1}, {1}, {}, map[])
  const ATTACHED: WaitSet := WaitSet(map[1 := 0], 1, FOR_ONE, Waiting(FOR_ONE), [1])
  const AGAIN: WaitSet := ATTACHED.(phase := Entered(NO_CACHE))

  function With(w: World, s: WaitSet): World {
    w.(sets := map[0 := s])
  }

  function StaleSteps(): seq<Step> {
    [CreateObject(1, 1), CreateWaitSet(0), Enter(0, FOR_ONE), Prepare(0, {}, []), Leave(0), Enter(0, NO_CACHE),
     StartDestroy(1), FinishDestroy(1)]
  }

  function StaleWorlds(): seq<World> {
    [NO_WORLD, BORN, With(BORN, EMPTY_WAIT_SET), With(BORN, EMPTY_WAIT_SET.(phase := Entered(FOR_ONE))),
     With(BORN, ATTACHED), With(BORN, ATTACHED.(phase := Idle)), With(BORN, AGAIN),
     With(BORN.(dying := {1}), AGAIN), World(map[], {}, {1}, {}, map[0 := AGAIN.(attached := map[])])]
  }

  /**
   A run in which a wait comes to look at a stale pointer: an object is waited for and destroyed
   just after the next wait, for nothing, has been entered. That wait has to detach what its cache names.
   */
  lemma StaleRun() returns (ws: seq<World>, steps: seq<Step>)
    ensures StillEntering(ws, steps, 5, 8, 0)
    ensures var s := ws[8].sets[0];
            && s.cache != s.phase.req && |s.cache.Pointers()| == 1 && |s.installed| == 1
            && !Same(ws[8], s.cache.Pointers()[0], s.installed[0]) && s.cache.Pointers()[0] !in ws[8].heap
  {
    hide Next;
    ws, steps := StaleWorlds(), StaleSteps();
    WaitedOnce();
    EnteredAgain();
    DestroyedWhileEntering();
    assert forall i :: 0 <= i < 8 ==> Next(ws[i], steps[i], ws[i + 1]);
    OneAttached();
  }

  lemma WaitedOnce()
    ensures var ws, steps := StaleWorlds(), StaleSteps();
            && Next(ws[0], steps[0], ws[1]) && Next(ws[1], steps[1], ws[2]) && Next(ws[2], steps[2], ws[3])
            && Next(ws[3], steps[3], ws[4])
  {
    hide Readied;
    OneAttached();
    assert EventHandles(FOR_ONE.evs) == {};
  }

  lemma EnteredAgain()
    ensures var ws, steps := StaleWorlds(), StaleSteps();
            Next(ws[4], steps[4], ws[5]) && Next(ws[5], steps[5], ws[6])
  {
    hide Readied;
    OneAttached();
    assert EventHandles(NO_CACHE.evs) == {};
  }

  lemma OneAttached()
    ensures Readied(map[1 := 1], NO_CACHE, FOR_ONE, [], map[], 0, map[1 := 0], 1)
    ensures FOR_ONE.Pointers() == [1] && Handles(map[1 := 1], [1]) == [1] && NO_CACHE.Pointers() == []
  {
    var heap: Heap := map[1 := 1];
    EnumeratesNone();
    assert EventEntities([]) == {};
    assert FOR_ONE.Pointers() == [1];
    assert Handles(heap, [1]) + [] == [1];
    assert AttachAll(map[], [1]) == map[1 := 0];
    assert Detached(map[], heap, NO_CACHE) == map[];
  }

  /** Neither cleaning nor deleting helps a wait set in use. */
  lemma DestroyedWhileEntering()
    ensures var ws, steps := StaleWorlds(), StaleSteps();
            Next(ws[6], steps[6], ws[7]) && Next(ws[7], steps[7], ws[8])
  {
    hide Readied;
    var w, w' := With(BORN, AGAIN), With(BORN.(dying := {1}), AGAIN);
    assert NO_CACHE.Pointers() == [] && EventHandles(NO_CACHE.evs) == {};
    assert (map id | id in w.sets :: Cleaned(w.sets[id], w.heap)) == w'.sets;
    assert map[1 := 0] - {1} == map[];
    assert DeletedAll(w'.sets, 1) == map[0 := AGAIN.(attached := map[])];
  }
}
