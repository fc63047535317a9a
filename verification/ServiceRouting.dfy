/**
 Requests and responses: a client stamps its requests with its own guid and a number, services answer with the
 header of a request they took, and a client takes the responses that carry its guid.
 */
module ServiceRouting {
  import opened Bytes

  /** `guid` is the instance handle of the client's writer; both are little-endian numerals of 64 bits. */
  datatype Header = Header(guid: seq<Byte>, seqno: seq<Byte>)

  /** What the application sees: the guid followed by the handle of the writer the sample came from. */
  datatype RequestId = RequestId(writerGuid: seq<Byte>, seqno: seq<Byte>)

  datatype Sample = Sample(valid: bool, header: Header, publication: seq<Byte>)

  const HANDLE_SIZE: nat := 8
  const NO_FILTER: seq<Byte> := Zeros(HANDLE_SIZE)
  const COUNTER_SIZE: nat := 0x1_0000_0000

  function IdOf(s: Sample): RequestId {
    RequestId(s.header.guid + s.publication, s.header.seqno)
  }

  function HeaderOf(id: RequestId): Header
    requires |id.writerGuid| >= HANDLE_SIZE
  {
    Header(id.writerGuid[..HANDLE_SIZE], id.seqno)
  }

  /** Taking a request and answering it reproduces the header. */
  lemma HeaderReturns(s: Sample)
    requires |s.header.guid| == HANDLE_SIZE
    ensures |IdOf(s).writerGuid| >= HANDLE_SIZE && HeaderOf(IdOf(s)) == s.header
  {
    assert (s.header.guid + s.publication)[..HANDLE_SIZE] == s.header.guid;
  }

  /**
   The header `h` sent from a machine of byte order `src` as a machine of byte order `dst` reads it: the bytes of
   the sequence number stay where they are, so that between different byte orders another number comes out.
   */
  function Crossed(h: Header, src: Endian, dst: Endian): Header {
    if src == dst then h else h.(seqno := Reverse(h.seqno))
  }

  /** On the way back that is undone, though only for a machine of the byte order that the header came from. */
  lemma CrossedBack(h: Header, src: Endian, dst: Endian)
    ensures Crossed(Crossed(h, src, dst), dst, src) == h
  {
    ReverseTwice(h.seqno);
  }

  // ---------------------------------------------------------------- taking

  predicate Passes(s: Sample, srcfilter: seq<Byte>) {
    s.valid && (srcfilter == NO_FILTER || srcfilter == s.header.guid)
  }

  /** The position of the first sample that passes, the length of the queue if there is none. */
  function FirstPassing(queue: seq<Sample>, srcfilter: seq<Byte>): (k: nat)
    ensures k <= |queue|
    ensures k < |queue| ==> Passes(queue[k], srcfilter)
    ensures forall i :: 0 <= i < k ==> !Passes(queue[i], srcfilter)
  {
    if queue == [] || Passes(queue[0], srcfilter) then 0 else 1 + FirstPassing(queue[1..], srcfilter)
  }

  lemma {:induction false} FirstPassingIs(queue: seq<Sample>, srcfilter: seq<Byte>, k: nat)
    requires k <= |queue| && (k < |queue| ==> Passes(queue[k], srcfilter))
    requires forall i :: 0 <= i < k ==> !Passes(queue[i], srcfilter)
    ensures FirstPassing(queue, srcfilter) == k
  {
    if k > 0 {
      assert !Passes(queue[0], srcfilter);
      assert forall i :: 0 <= i < k - 1 ==> queue[1..][i] == queue[i + 1];
      FirstPassingIs(queue[1..], srcfilter, k - 1);
    }
  }

  /** The reading side of a client or service. */
  class CddsCS {
    const guid: seq<Byte>
    var queue: seq<Sample>

    constructor (guid: seq<Byte>)
      ensures this.guid == guid && queue == []
    {
      this.guid, queue := guid, [];
    }

    /** `id` is overwritten by every valid sample on the way, taken or not. */
    method TakeResponseRequest(srcfilter: seq<Byte>, id0: RequestId) returns (taken: bool, id: RequestId)
      modifies this
      ensures var k := FirstPassing(old(queue), srcfilter);
              && (taken <==> k < |old(queue)|)
              && (taken ==> id == IdOf(old(queue)[k]) && queue == old(queue)[k + 1..])
              && (!taken ==> queue == [])
    {
      id := id0;
      var q := queue;
      var k := 0;
      while queue != []
        invariant k <= |q| && queue == q[k..]
        invariant forall i :: 0 <= i < k ==> !Passes(q[i], srcfilter)
        decreases |queue|
      {
        var s := queue[0];
        queue := queue[1..];
        if s.valid {
          id := IdOf(s);
          if srcfilter == NO_FILTER || srcfilter == s.header.guid {
            FirstPassingIs(q, srcfilter, k);
            return true, id;
          }
        }
        k := k + 1;
      }
      FirstPassingIs(q, srcfilter, k);
      taken := false;
    }

    method TakeRequest(id0: RequestId) returns (taken: bool, id: RequestId)
      modifies this
      ensures var k := FirstPassing(old(queue), NO_FILTER);
              && (taken <==> k < |old(queue)|)
              && (taken ==> id == IdOf(old(queue)[k]) && queue == old(queue)[k + 1..])
              && (!taken ==> queue == [])
    {
      taken, id := TakeResponseRequest(NO_FILTER, id0);
    }

    method TakeResponse(id0: RequestId) returns (taken: bool, id: RequestId)
      modifies this
      ensures var k := FirstPassing(old(queue), guid);
              && (taken <==> k < |old(queue)|)
              && (taken ==> id == IdOf(old(queue)[k]) && queue == old(queue)[k + 1..])
              && (!taken ==> queue == [])
    {
      taken, id := TakeResponseRequest(guid, id0);
    }
  }

  /** The counter that all clients of a process share. */
  class RequestCounter {
    var nextRequestId: nat
    /** How many requests were issued. */
    ghost var issued: nat

    ghost predicate Valid()
      reads this
    {
      nextRequestId == Number(issued)
    }

    constructor ()
      ensures Valid() && issued == 0
    {
      nextRequestId, issued := 0, 0;
    }

    /** The `n`-th request carries the number of `n`. */
    method SendRequest(client: CddsCS) returns (header: Header)
      requires Valid()
      modifies this
      ensures Valid() && issued == old(issued) + 1
      ensures header == Header(client.guid, Seqno(issued))
    {
      NumberStep(issued);
      nextRequestId := if nextRequestId == UINT32_MAX then 0 else nextRequestId + 1;
      issued := issued + 1;
      header := Header(client.guid, Numeral32(nextRequestId) + Zeros(4));
    }
  }

  /** The number carried by the `n`-th request of a process. */
  function Number(n: nat): nat {
    n % COUNTER_SIZE
  }

  /** The sequence number of the `n`-th request as a numeral of 64 bits. */
  function Seqno(n: nat): seq<Byte> {
    Numeral32(Number(n)) + Zeros(4)
  }

  /** Two requests of a process carry the same number just when a multiple of 2^32 requests lies between them. */
  lemma NumbersCollide(a: nat, b: nat)
    ensures Seqno(a) == Seqno(b) <==> (b - a) % COUNTER_SIZE == 0
  {
    hide Numeral32, U32Of;
    U32RoundTrip(Number(a), Little);
    U32RoundTrip(Number(b), Little);
    assert Seqno(a)[..4] == Numeral32(Number(a)) && Seqno(b)[..4] == Numeral32(Number(b));
    SameNumber(a, b);
  }

  lemma SameNumber(a: nat, b: nat)
    ensures Number(a) == Number(b) <==> (b - a) % COUNTER_SIZE == 0
  {
  }

  lemma NumberStep(n: nat)
    ensures Number(Number(n) + 1) == Number(n + 1)
  {
  }

  // ---------------------------------------------------------------- the system

  datatype Client = Client(process: nat, order: Endian, guid: seq<Byte>, queue: seq<Sample>)
  datatype Service = Service(order: Endian, queue: seq<Sample>)

  /** The `n`-th request of the sender's process, and the byte order of the sender. */
  datatype Request = Request(sender: nat, n: nat, order: Endian, header: Header)
  datatype TakenRequest = TakenRequest(service: nat, order: Endian, id: RequestId)
  datatype Response = Response(service: nat, order: Endian, header: Header)
  datatype TakenResponse = TakenResponse(client: nat, id: RequestId)

  /**
   Processes with the number of requests they issued, clients, the queues of services, and the history of what
   was written and taken. A message that was written may reach a queue never, once or many times, in any order,
   with the header that a machine of the receiver's byte order reads.
   */
  datatype System = System(
    issued: map<nat, nat>, clients: map<nat, Client>, services: map<nat, Service>,
    requests: set<Request>, takenRequests: set<TakenRequest>,
    responses: set<Response>, takenResponses: set<TakenResponse>)

  datatype Step =
    | NewProcess(p: nat)
    | NewClient(c: nat, p: nat, order: Endian, guid: seq<Byte>)
    | NewService(s: nat, order: Endian)
    | SendRequest(c: nat)
    | ReceiveRequest(s: nat, sample: Sample)
    | TakeRequest(s: nat)
    | SendResponse(s: nat, id: RequestId)
    | ReceiveResponse(c: nat, sample: Sample)
    | TakeResponse(c: nat)

  predicate ValidGuid(g: seq<Byte>) {
    |g| == HANDLE_SIZE && g != NO_FILTER
  }

  /** A request was written that a machine of byte order `at` reads with the header `h`. */
  predicate Written(w: System, h: Header, at: Endian) {
    exists r :: r in w.requests && Crossed(r.header, r.order, at) == h
  }

  predicate Answered(w: System, h: Header, at: Endian) {
    exists r :: r in w.responses && Crossed(r.header, r.order, at) == h
  }

  /** What is left of a queue after the first sample that passes. */
  function After(queue: seq<Sample>, k: nat): seq<Sample> {
    if k < |queue| then queue[k + 1..] else []
  }

  predicate Next(w: System, step: Step, w': System) {
    match step
    case NewProcess(p) => p !in w.issued && w' == w.(issued := w.issued[p := 0])
    case NewClient(c, p, order, guid) =>
      && c !in w.clients && p in w.issued && ValidGuid(guid)
      && (forall d :: d in w.clients ==> w.clients[d].guid != guid)
      && w' == w.(clients := w.clients[c := Client(p, order, guid, [])])
    case NewService(s, order) => s !in w.services && w' == w.(services := w.services[s := Service(order, [])])
    case SendRequest(c) =>
      && c in w.clients && w.clients[c].process in w.issued
      && var p, x := w.clients[c].process, w.clients[c];
         var n := w.issued[p] + 1;
         w' == w.(issued := w.issued[p := n],
                  requests := w.requests + {Request(c, n, x.order, Header(x.guid, Seqno(n)))})
    case ReceiveRequest(s, sample) =>
      && s in w.services && (sample.valid ==> Written(w, sample.header, w.services[s].order))
      && w' == w.(services := w.services[s := w.services[s].(queue := w.services[s].queue + [sample])])
    case TakeRequest(s) =>
      && s in w.services
      && var q, o := w.services[s].queue, w.services[s].order;
         var k := FirstPassing(q, NO_FILTER);
         w' == w.(services := w.services[s := Service(o, After(q, k))],
                  takenRequests := w.takenRequests + if k < |q| then {TakenRequest(s, o, IdOf(q[k]))} else {})
    case SendResponse(s, id) =>
      && s in w.services && TakenRequest(s, w.services[s].order, id) in w.takenRequests
      && |id.writerGuid| >= HANDLE_SIZE
      && w' == w.(responses := w.responses + {Response(s, w.services[s].order, HeaderOf(id))})
    case ReceiveResponse(c, sample) =>
      && c in w.clients && (sample.valid ==> Answered(w, sample.header, w.clients[c].order))
      && w' == w.(clients := w.clients[c := w.clients[c].(queue := w.clients[c].queue + [sample])])
    case TakeResponse(c) =>
      && c in w.clients
      && var q := w.clients[c].queue;
         var k := FirstPassing(q, w.clients[c].guid);
         w' == w.(clients := w.clients[c := w.clients[c].(queue := After(q, k))],
                  takenResponses := w.takenResponses + if k < |q| then {TakenResponse(c, IdOf(q[k]))} else {})
  }

  predicate Initial(w: System) {
    w == System(map[], map[], map[], {}, {}, {}, {})
  }

  predicate Run(ws: seq<System>, steps: seq<Step>) {
    && |ws| == |steps| + 1 && Initial(ws[0])
    && forall i :: 0 <= i < |steps| ==> Next(ws[i], steps[i], ws[i + 1])
  }

  // ---------------------------------------------------------------- what every step keeps

  /** Clients have distinct guids, and every request is stamped by its sender. */
  predicate RequestsInv(w: System) {
    && (forall c :: c in w.clients ==> ValidGuid(w.clients[c].guid) && w.clients[c].process in w.issued)
    && (forall c, d :: c in w.clients && d in w.clients && c != d ==> w.clients[c].guid != w.clients[d].guid)
    && (forall r :: r in w.requests ==>
          && r.sender in w.clients && r.order == w.clients[r.sender].order
          && r.header == Header(w.clients[r.sender].guid, Seqno(r.n))
          && 1 <= r.n <= w.issued[w.clients[r.sender].process])
    && (forall r, r' :: r in w.requests && r' in w.requests && r != r' ==>
          r.n != r'.n || w.clients[r.sender].process != w.clients[r'.sender].process)
  }

  /** Whatever is queued, taken or answered goes back to a request that was written. */
  predicate TrafficInv(w: System) {
    ServiceSide(w) && ClientSide(w)
  }

  predicate ServiceSide(w: System) {
    && (forall s, i :: s in w.services && 0 <= i < |w.services[s].queue| && w.services[s].queue[i].valid ==>
          Written(w, w.services[s].queue[i].header, w.services[s].order))
    && (forall t :: t in w.takenRequests ==> Rooted(w, t))
    && (forall r :: r in w.responses ==> Backed(w, r))
  }

  predicate ClientSide(w: System) {
    && (forall c, i :: c in w.clients && 0 <= i < |w.clients[c].queue| && w.clients[c].queue[i].valid ==>
          Answered(w, w.clients[c].queue[i].header, w.clients[c].order))
    && (forall t :: t in w.takenResponses ==> Earned(w, t))
  }

  predicate Rooted(w: System, t: TakenRequest) {
    |t.id.writerGuid| >= HANDLE_SIZE && Written(w, HeaderOf(t.id), t.order)
  }

  predicate Backed(w: System, r: Response) {
    exists t :: t in w.takenRequests && t.service == r.service && t.order == r.order
                && |t.id.writerGuid| >= HANDLE_SIZE && HeaderOf(t.id) == r.header
  }

  predicate Earned(w: System, t: TakenResponse) {
    && t.client in w.clients && |t.id.writerGuid| >= HANDLE_SIZE
    && HeaderOf(t.id).guid == w.clients[t.client].guid && Answered(w, HeaderOf(t.id), w.clients[t.client].order)
  }

  lemma StepKeepsRequests(w: System, step: Step, w': System)
    requires RequestsInv(w) && Next(w, step, w')
    ensures RequestsInv(w')
  {
    hide FirstPassing, Written, Answered, IdOf, HeaderOf, Seqno, After, RequestsInv;
    match step
    case NewClient(c, p, order, guid) => NewClientKeeps(w, c, p, order, guid, w');
    case SendRequest(c) => SendRequestKeeps(w, c, w');
    case _ => RequestsFrame(w, w');
  }

  lemma RequestsFrame(w: System, w': System)
    requires RequestsInv(w) && w'.requests == w.requests
    requires forall p :: p in w.issued ==> p in w'.issued && w'.issued[p] == w.issued[p]
    requires w'.clients.Keys == w.clients.Keys
    requires forall c :: c in w.clients ==> w'.clients[c] == w.clients[c].(queue := w'.clients[c].queue)
    ensures RequestsInv(w')
  {
    hide Seqno;
  }

  lemma NewClientKeeps(w: System, c: nat, p: nat, order: Endian, guid: seq<Byte>, w': System)
    requires RequestsInv(w) && Next(w, NewClient(c, p, order, guid), w')
    ensures RequestsInv(w')
  {
    hide Seqno;
  }

  lemma SendRequestKeeps(w: System, c: nat, w': System)
    requires RequestsInv(w) && Next(w, SendRequest(c), w')
    ensures RequestsInv(w')
  {
    hide Seqno;
  }

  /** Histories only grow, so what was written stays written. */
  lemma HistoryGrows(w: System, step: Step, w': System)
    requires Next(w, step, w')
    ensures w.requests <= w'.requests && w.takenRequests <= w'.takenRequests && w.responses <= w'.responses
    ensures forall c :: c in w.clients ==>
              c in w'.clients && w'.clients[c] == w.clients[c].(queue := w'.clients[c].queue)
    ensures forall h, o :: Written(w, h, o) ==> Written(w', h, o)
    ensures forall h, o :: Answered(w, h, o) ==> Answered(w', h, o)
    ensures forall r :: Backed(w, r) ==> Backed(w', r)
  {
    hide FirstPassing, IdOf, HeaderOf, Seqno, After, Crossed;
  }

  lemma StepKeepsServices(w: System, step: Step, w': System)
    requires RequestsInv(w) && ServiceSide(w) && Next(w, step, w')
    ensures ServiceSide(w')
  {
    hide RequestsInv, FirstPassing, IdOf, HeaderOf, Seqno, Written, Answered, Backed;
    HistoryGrows(w, step, w');
    match step
    case TakeRequest(s) =>
      var q := w.services[s].queue;
      var k := FirstPassing(q, NO_FILTER);
      if k < |q| {
        RequestHeaders(w, q[k].header, w.services[s].order);
        HeaderReturns(q[k]);
      }
    case SendResponse(s, id) => NewlyBacked(w, s, id, w');
    case _ =>
  }

  lemma StepKeepsClients(w: System, step: Step, w': System)
    requires RequestsInv(w) && ClientSide(w) && Next(w, step, w')
    ensures ClientSide(w')
  {
    hide RequestsInv, ClientSide, FirstPassing, IdOf, HeaderOf, Seqno, Written, Answered, Backed;
    HistoryGrows(w, step, w');
    match step
    case ReceiveResponse(c, sample) => QueueGrows(w, c, sample, w');
    case TakeResponse(c) => TakeResponseKeeps(w, c, w');
    case NewClient(c, _, _, _) => ClientsFrame(w, w', c);
    case _ => ClientsFrame(w, w', 0);
  }

  /** Only client `c` may be new, with an empty queue. */
  lemma ClientsFrame(w: System, w': System, c: nat)
    requires ClientSide(w) && w'.takenResponses == w.takenResponses
    requires forall h, o :: Answered(w, h, o) ==> Answered(w', h, o)
    requires forall d :: d in w.clients ==> d in w'.clients && w'.clients[d] == w.clients[d]
    requires forall d :: d in w'.clients && d !in w.clients ==> w'.clients[d].queue == []
    ensures ClientSide(w')
  {
    hide HeaderOf, Answered;
  }

  lemma QueueGrows(w: System, c: nat, sample: Sample, w': System)
    requires ClientSide(w) && Next(w, ReceiveResponse(c, sample), w')
    requires forall h, o :: Answered(w, h, o) ==> Answered(w', h, o)
    ensures ClientSide(w')
  {
    hide HeaderOf, Answered;
  }

  lemma TakeResponseKeeps(w: System, c: nat, w': System)
    requires RequestsInv(w) && ClientSide(w) && Next(w, TakeResponse(c), w')
    requires forall h, o :: Answered(w, h, o) ==> Answered(w', h, o)
    ensures ClientSide(w')
  {
    hide FirstPassing, IdOf, HeaderOf, Answered, Earned, RequestsInv;
    forall t | t in w'.takenResponses
      ensures Earned(w', t)
    {
      if t in w.takenResponses {
        StillEarned(w, t, w');
      } else {
        NewlyEarned(w, c, w');
      }
    }
  }

  lemma StillEarned(w: System, t: TakenResponse, w': System)
    requires Earned(w, t) && forall h, o :: Answered(w, h, o) ==> Answered(w', h, o)
    requires forall d :: d in w.clients ==>
               d in w'.clients && w'.clients[d] == w.clients[d].(queue := w'.clients[d].queue)
    ensures Earned(w', t)
  {
    hide HeaderOf, Answered;
  }

  lemma NewlyEarned(w: System, c: nat, w': System)
    requires RequestsInv(w) && ClientSide(w) && Next(w, TakeResponse(c), w')
    requires forall h, o :: Answered(w, h, o) ==> Answered(w', h, o)
    ensures var q := w.clients[c].queue;
            var k := FirstPassing(q, w.clients[c].guid);
            k < |q| ==> Earned(w', TakenResponse(c, IdOf(q[k])))
  {
    hide FirstPassing, IdOf, HeaderOf, Answered;
    var q := w.clients[c].queue;
    var k := FirstPassing(q, w.clients[c].guid);
    if k < |q| {
      HeaderReturns(q[k]);
    }
  }

  lemma RequestHeaders(w: System, h: Header, at: Endian)
    requires RequestsInv(w) && Written(w, h, at)
    ensures |h.guid| == HANDLE_SIZE
  {
  }

  lemma NewlyBacked(w: System, s: nat, id: RequestId, w': System)
    requires Next(w, SendResponse(s, id), w')
    ensures s in w.services && Backed(w', Response(s, w.services[s].order, HeaderOf(id)))
  {
    assert TakenRequest(s, w.services[s].order, id) in w'.takenRequests;
  }

  lemma {:induction false} RunKeeps(ws: seq<System>, steps: seq<Step>, i: nat)
    requires Run(ws, steps) && i < |ws|
    ensures RequestsInv(ws[i]) && TrafficInv(ws[i])
  {
    hide Next, RequestsInv, ServiceSide, ClientSide;
    if i == 0 {
      InitiallyNothing(ws[0]);
    } else {
      RunKeeps(ws, steps, i - 1);
      StepKeepsRequests(ws[i - 1], steps[i - 1], ws[i]);
      StepKeepsServices(ws[i - 1], steps[i - 1], ws[i]);
      StepKeepsClients(ws[i - 1], steps[i - 1], ws[i]);
    }
  }

  lemma InitiallyNothing(w: System)
    requires Initial(w)
    ensures RequestsInv(w) && TrafficInv(w)
  {
  }

  // ---------------------------------------------------------------- routing

  /**
   In every run, a response that a client has taken carries the client's own guid and the number of a request
   which that client itself has sent and which a service, the one that answered, has taken; that service may have
   seen another number.
   */
  lemma ResponsesComeHome(ws: seq<System>, steps: seq<Step>, i: nat, t: TakenResponse)
    returns (r: Request, a: Response, q: TakenRequest)
    requires Run(ws, steps) && i < |ws| && t in ws[i].takenResponses
    ensures t.client in ws[i].clients && |t.id.writerGuid| >= HANDLE_SIZE
    ensures HeaderOf(t.id).guid == ws[i].clients[t.client].guid
    ensures r in ws[i].requests && r.sender == t.client && r.header == HeaderOf(t.id)
    ensures q in ws[i].takenRequests && |q.id.writerGuid| >= HANDLE_SIZE
            && HeaderOf(q.id) == Crossed(r.header, ws[i].clients[t.client].order, q.order)
    ensures a in ws[i].responses && a.service == q.service && a.header == HeaderOf(q.id)
  {
    hide Run, HeaderOf, Seqno;
    RunKeeps(ws, steps, i);
    var w := ws[i];
    assert Earned(w, t);
    a :| a in w.responses && Crossed(a.header, a.order, w.clients[t.client].order) == HeaderOf(t.id);
    assert Backed(w, a);
    q :| q in w.takenRequests && q.service == a.service && q.order == a.order
         && |q.id.writerGuid| >= HANDLE_SIZE && HeaderOf(q.id) == a.header;
    assert Rooted(w, q);
    r :| r in w.requests && Crossed(r.header, r.order, q.order) == HeaderOf(q.id);
    assert r.header.guid == HeaderOf(t.id).guid;
    CrossedBack(r.header, r.order, q.order);
  }

  /** A service sees the number of a request if and only if the byte orders agree or that number is zero. */
  lemma NumberSeen(guid: seq<Byte>, n: nat, src: Endian, dst: Endian)
    ensures Crossed(Header(guid, Seqno(n)), src, dst).seqno == Seqno(n) <==> src == dst || n % COUNTER_SIZE == 0
  {
    hide Numeral32, U32Of;
    var q := Seqno(n);
    NumbersCollide(n, 0);
    assert Seqno(0) == Zeros(8) by { assert Numeral32(0) == Zeros(4) by { ZeroNumeral(); } }
    if Reverse(q) == q {
      forall i | 0 <= i < 4
        ensures q[i] == 0
      {
        assert Reverse(q)[i] == q[7 - i] == 0;
      }
      assert q == Zeros(8);
    }
  }

  lemma ZeroNumeral()
    ensures Numeral32(0) == Zeros(4)
  {
  }

  /**
   The header of a response tells the requests of a client apart if and only if no two of them are
   a multiple of 2^32 requests of their process from each other.
   */
  lemma HeadersTellApart(ws: seq<System>, steps: seq<Step>, i: nat, r: Request, r': Request)
    requires Run(ws, steps) && i < |ws| && r in ws[i].requests && r' in ws[i].requests
    ensures r.header == r'.header <==> r.sender == r'.sender && (r'.n - r.n) % COUNTER_SIZE == 0
    ensures r.sender == r'.sender && r.n == r'.n ==> r == r'
  {
    hide Run, Number, TrafficInv;
    RunKeeps(ws, steps, i);
    NumbersCollide(r.n, r'.n);
  }

  /** While a process issues fewer than 2^32 requests, a response belongs to exactly one of them. */
  lemma ResponseIdentifiesRequest(ws: seq<System>, steps: seq<Step>, i: nat, r: Request, r': Request)
    requires Run(ws, steps) && i < |ws| && r in ws[i].requests && r' in ws[i].requests && r.header == r'.header
    requires r.sender in ws[i].clients && ws[i].clients[r.sender].process in ws[i].issued
    requires ws[i].issued[ws[i].clients[r.sender].process] <= COUNTER_SIZE
    ensures r == r'
  {
    hide Run, Number, TrafficInv;
    HeadersTellApart(ws, steps, i, r, r');
    RunKeeps(ws, steps, i);
    Close(r.n, r'.n);
  }

  lemma Close(a: nat, b: nat)
    requires 1 <= a <= COUNTER_SIZE && 1 <= b <= COUNTER_SIZE && (b - a) % COUNTER_SIZE == 0
    ensures a == b
  {
  }
}
