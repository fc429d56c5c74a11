/** The connection protocol of a cluster of nodes: every atomic step that `Connect`, `GetConnection` and the
    broker's `OnConnectRequest` take on a node's lock, on its table of established connections and on the wire. */
module ConnectionProtocol {
  import opened MachineWords

  /** Node identifiers fit a non-negative `int`, so that none of them reads as the unlocked value of `mu_`. */
  type NodeId = n: int | 0 <= n < 0x8000_0000

  const UNLOCKED := -1
  const MIN_BACKOFF_US := 100
  const MAX_BACKOFF_US := 5000000

  /** One `rdma_connect`; the ticket tells apart the requests one node sends to another over time. */
  datatype Request = Request(client: NodeId, server: NodeId, ticket: nat)

  /** What a node stores for a peer, and which call stored it. */
  datatype Entry = Loopback | ByConnect(req: Request) | ByHandler(req: Request)

  datatype Call = Connect(peer: NodeId) | Get(peer: NodeId)

  datatype Outcome = Connected(peer: NodeId) | Unavailable | NotFound

  /** The thread that holds the lock on behalf of the node itself, and the call it is in. */
  datatype Client =
    | Outside
    | Holding(call: Call)
    | Waiting(call: Call, req: Request)
    | Leaving(call: Call, outcome: Outcome)

  datatype Answer = Answer(n: NodeId, call: Call, outcome: Outcome)

  /** The single-threaded broker. */
  datatype Handler = Listening | Locked(req: Request) | Inserted(req: Request) | Finishing(req: Request)

  /** One column per field of the connection managers, then the wire. A node that a column does not mention is in its
      initial state. `calls` are the threads that entered `Connect` or `GetConnection` and do not hold the lock yet;
      `answers` is the history of what calls returned.
      `accepted` is the history of every request a broker ever accepted; `fault` records that an `emplace` found its
      key taken, or that a client found its peer connected after its own request was accepted. */
  datatype Cluster = Cluster(
    mu: map<NodeId, int>,
    established: map<(NodeId, NodeId), Entry>,
    backoff: map<NodeId, int>,
    clients: map<NodeId, Client>,
    handlers: map<NodeId, Handler>,
    calls: multiset<(NodeId, Call)>,
    answers: seq<Answer>,
    requests: set<Request>,
    accepts: set<Request>,
    rejects: set<Request>,
    ticket: nat,
    accepted: set<Request>,
    fault: bool)
  {
    function Mu(n: NodeId): int { if n in mu then mu[n] else UNLOCKED }
    function Client(n: NodeId): Client { if n in clients then clients[n] else Outside }
    function Handler(n: NodeId): Handler { if n in handlers then handlers[n] else Listening }
    function Backoff(n: NodeId): int { if n in backoff then backoff[n] else 0 }

    predicate Has(n: NodeId, peer: NodeId, e: Entry) { (n, peer) in established && established[(n, peer)] == e }
  }

  datatype Acquisition = Acquired | GaveUp | Spinning

  /** One iteration of the compare-and-swap loop in `Acquire`, run on node `me` for any identifier. */
  function TryAcquire(mu: int, me: NodeId): Acquisition {
    if mu == UNLOCKED then Acquired else if mu == me then GaveUp else Spinning
  }

  /** The sleep after a rejection, in the unsigned 32-bit arithmetic of the source. */
  function NextBackoff(backoff: int, me: NodeId): int {
    if backoff > 0 then
      var doubled := (backoff + 100 * me) * 2 % TWO_TO_THE_32;
      if doubled < MAX_BACKOFF_US then doubled else MAX_BACKOFF_US
    else MIN_BACKOFF_US
  }

  // ---------------------------------------------------------------------------------------------------------------
  // The atomic steps
  // ---------------------------------------------------------------------------------------------------------------

  datatype Action =
    | Invoke(n: NodeId, call: Call)        // a thread of node n enters Connect or GetConnection
    | Enter(n: NodeId, call: Call)         // Acquire(my_id_) succeeds
    | Refuse(n: NodeId, call: Call)        // Connect's Acquire(my_id_) gives up
    | Hit(n: NodeId)                       // established_.find answers the call
    | Miss(n: NodeId)                      // GetConnection finds nothing
    | DialSelf(n: NodeId)                  // ConnectLoopback
    | Dial(n: NodeId)                      // rdma_connect
    | Receive(req: Request)                // OnConnectRequest: Acquire(peer_id), or reject
    | Check(n: NodeId)                     // OnConnectRequest: find, then emplace or reject
    | Accept(n: NodeId)                    // rdma_accept
    | Finish(n: NodeId)                    // OnConnectRequest: Release
    | Establish(n: NodeId)                 // Connect: RDMA_CM_EVENT_ESTABLISHED
    | GetRejected(n: NodeId)               // Connect: RDMA_CM_EVENT_REJECTED
    | Leave(n: NodeId)                     // Connect or GetConnection: Release

  predicate Enabled(s: Cluster, a: Action) {
    match a
    case Invoke(n, call) => true
    case Enter(n, call) => (n, call) in s.calls && TryAcquire(s.Mu(n), n) == Acquired
    case Refuse(n, call) => (n, call) in s.calls && call.Connect? && TryAcquire(s.Mu(n), n) == GaveUp
    case Hit(n) => s.Client(n).Holding? && (n, s.Client(n).call.peer) in s.established
    case Miss(n) => s.Client(n).Holding? && s.Client(n).call.Get? && (n, s.Client(n).call.peer) !in s.established
    case DialSelf(n) => s.Client(n) == Holding(Connect(n)) && (n, n) !in s.established
    case Dial(n) =>
      && s.Client(n).Holding? && s.Client(n).call.Connect? && s.Client(n).call.peer != n
      && (n, s.Client(n).call.peer) !in s.established
    case Receive(req) =>
      req in s.requests && s.Handler(req.server).Listening? && TryAcquire(s.Mu(req.server), req.server) != Spinning
    case Check(n) => s.Handler(n).Locked?
    case Accept(n) => s.Handler(n).Inserted?
    case Finish(n) => s.Handler(n).Finishing?
    case Establish(n) => s.Client(n).Waiting? && s.Client(n).req in s.accepts
    case GetRejected(n) => s.Client(n).Waiting? && s.Client(n).req in s.rejects
    case Leave(n) => s.Client(n).Leaving?
  }

  /** `std::unordered_map::emplace` leaves a key that is taken as it is; a broken assertion is a fault. */
  function Emplace(s: Cluster, n: NodeId, peer: NodeId, e: Entry): Cluster {
    if (n, peer) in s.established then s.(fault := true) else s.(established := s.established[(n, peer) := e])
  }

  function DoEnter(s: Cluster, n: NodeId, call: Call): Cluster {
    s.(mu := s.mu[n := n], clients := s.clients[n := Holding(call)], calls := s.calls - multiset{(n, call)})
  }

  /** Connect gives up without the lock. */
  function DoRefuse(s: Cluster, n: NodeId, call: Call): Cluster {
    s.(calls := s.calls - multiset{(n, call)}, answers := s.answers + [Answer(n, call, Unavailable)])
  }

  function DoLeaveWith(s: Cluster, n: NodeId, outcome: Outcome): Cluster
    requires s.Client(n).Holding?
  {
    s.(clients := s.clients[n := Leaving(s.Client(n).call, outcome)])
  }

  function DoDial(s: Cluster, n: NodeId, peer: NodeId): Cluster
    requires s.Client(n).Holding?
  {
    var req := Request(n, peer, s.ticket);
    s.(clients := s.clients[n := Waiting(s.Client(n).call, req)], requests := s.requests + {req}, ticket := s.ticket + 1)
  }

  function DoTurnAway(s: Cluster, req: Request): Cluster {
    s.(requests := s.requests - {req}, rejects := s.rejects + {req})
  }

  function DoLock(s: Cluster, n: NodeId, req: Request): Cluster {
    s.(mu := s.mu[n := req.client], handlers := s.handlers[n := Locked(req)], requests := s.requests - {req})
  }

  function DoCheck(s: Cluster, n: NodeId, req: Request): Cluster {
    if (n, req.client) in s.established then
      s.(handlers := s.handlers[n := Finishing(req)], rejects := s.rejects + {req})
    else
      Emplace(s, n, req.client, ByHandler(req)).(handlers := s.handlers[n := Inserted(req)])
  }

  function DoAccept(s: Cluster, n: NodeId, req: Request): Cluster {
    s.(handlers := s.handlers[n := Finishing(req)], accepts := s.accepts + {req}, accepted := s.accepted + {req})
  }

  function DoFinish(s: Cluster, n: NodeId): Cluster {
    s.(mu := s.mu[n := UNLOCKED], handlers := s.handlers[n := Listening])
  }

  function DoEstablish(s: Cluster, n: NodeId, req: Request): Cluster
    requires s.Client(n).Waiting?
  {
    var call := s.Client(n).call;
    var t := s.(accepts := s.accepts - {req}, clients := s.clients[n := Leaving(call, Connected(call.peer))]);
    if (n, call.peer) in s.established then t.(fault := true) else Emplace(t, n, call.peer, ByConnect(req))
  }

  function DoReject(s: Cluster, n: NodeId, req: Request): Cluster
    requires s.Client(n).Waiting?
  {
    s.(rejects := s.rejects - {req}, clients := s.clients[n := Leaving(s.Client(n).call, Unavailable)],
       backoff := s.backoff[n := NextBackoff(s.Backoff(n), n)])
  }

  function DoLeave(s: Cluster, n: NodeId): Cluster
    requires s.Client(n).Leaving?
  {
    s.(mu := s.mu[n := UNLOCKED], clients := s.clients[n := Outside],
       answers := s.answers + [Answer(n, s.Client(n).call, s.Client(n).outcome)])
  }

  function Apply(s: Cluster, a: Action): Cluster
    requires Enabled(s, a)
  {
    match a
    case Invoke(n, call) => s.(calls := s.calls + multiset{(n, call)})
    case Enter(n, call) => DoEnter(s, n, call)
    case Refuse(n, call) => DoRefuse(s, n, call)
    case Hit(n) => DoLeaveWith(s, n, Connected(s.Client(n).call.peer))
    case Miss(n) => DoLeaveWith(s, n, NotFound)
    case DialSelf(n) => DoLeaveWith(Emplace(s, n, n, Loopback), n, Connected(n))
    case Dial(n) => DoDial(s, n, s.Client(n).call.peer)
    case Receive(req) =>
      if TryAcquire(s.Mu(req.server), req.server) == GaveUp then DoTurnAway(s, req) else DoLock(s, req.server, req)
    case Check(n) => DoCheck(s, n, s.Handler(n).req)
    case Accept(n) => DoAccept(s, n, s.Handler(n).req)
    case Finish(n) => DoFinish(s, n)
    case Establish(n) => DoEstablish(s, n, s.Client(n).req)
    case GetRejected(n) => DoReject(s, n, s.Client(n).req)
    case Leave(n) => DoLeave(s, n)
  }

  /** Nothing connected, nobody calling. */
  ghost predicate Init(s: Cluster) {
    && s.mu == map[] && s.clients == map[] && s.handlers == map[] && s.backoff == map[] && s.established == map[]
    && s.calls == multiset{} && s.answers == [] && s.requests == {} && s.accepts == {} && s.rejects == {}
    && s.accepted == {} && !s.fault
  }

  // ---------------------------------------------------------------------------------------------------------------
  // The inductive invariant
  // ---------------------------------------------------------------------------------------------------------------

  /** The client of `r` is still inside `Connect`, waiting for the answer to exactly this request. */
  ghost predicate Pending(s: Cluster, r: Request) {
    r.client != r.server && s.Client(r.client) == Waiting(Connect(r.server), r)
  }

  ghost predicate AtBroker(s: Cluster, r: Request) {
    s.Handler(r.server) == Locked(r) || s.Handler(r.server) == Inserted(r)
  }

  ghost predicate LockInv(s: Cluster, n: NodeId) {
    && (!s.Client(n).Outside? ==> s.Mu(n) == n)
    && (!s.Handler(n).Listening? ==>
          s.Handler(n).req.server == n && s.Handler(n).req.client != n && s.Mu(n) == s.Handler(n).req.client)
    && (s.Client(n).Outside? && s.Handler(n).Listening? ==> s.Mu(n) == UNLOCKED)
  }

  ghost predicate ClientInv(s: Cluster, n: NodeId) {
    match s.Client(n)
    case Waiting(call, r) =>
      && call == Connect(r.server) && r.client == n && n != r.server
      && (n, r.server) !in s.established && r.ticket < s.ticket
      && (r in s.requests || r in s.accepts || r in s.rejects || AtBroker(s, r))
    case Leaving(call, Connected(peer)) => peer == call.peer && (n, peer) in s.established
    case Leaving(call, Unavailable) => call.Connect?
    case Leaving(call, NotFound) => call.Get?
    case _ => true
  }

  ghost predicate HandlerInv(s: Cluster, n: NodeId) {
    match s.Handler(n)
    case Locked(r) => Pending(s, r) && r !in s.accepted
    case Inserted(r) => Pending(s, r) && r !in s.accepted && s.Has(n, r.client, ByHandler(r))
    case _ => true
  }

  ghost predicate NodeInv(s: Cluster, n: NodeId) {
    LockInv(s, n) && ClientInv(s, n) && HandlerInv(s, n)
  }

  ghost predicate NodesInv(s: Cluster) {
    forall n: NodeId {:trigger NodeInv(s, n)} {:trigger s.Client(n)} {:trigger s.Handler(n)} :: NodeInv(s, n)
  }

  ghost predicate EntryInv(s: Cluster, n: NodeId, peer: NodeId)
    requires (n, peer) in s.established
  {
    match s.established[(n, peer)]
    case Loopback => peer == n
    case ByConnect(r) => r.client == n && r.server == peer && n != peer && s.Has(peer, n, ByHandler(r))
    case ByHandler(r) =>
      && r.client == peer && r.server == n && n != peer
      && (s.Handler(n) != Inserted(r) ==> r in s.accepted)
      && (|| s.Has(peer, n, ByConnect(r))
          || (Pending(s, r) && (r in s.accepts || s.Handler(n) == Inserted(r))))
  }

  ghost predicate EntriesInv(s: Cluster) {
    forall n, p | (n, p) in s.established :: EntryInv(s, n, p)
  }

  ghost predicate WireInv(s: Cluster) {
    && (forall r | r in s.requests ::
          Pending(s, r) && !AtBroker(s, r) && r !in s.accepts && r !in s.rejects && r !in s.accepted)
    && (forall r | r in s.accepts ::
          Pending(s, r) && !AtBroker(s, r) && r !in s.rejects && s.Has(r.server, r.client, ByHandler(r)))
    && (forall r | r in s.rejects :: Pending(s, r) && !AtBroker(s, r) && r !in s.accepted)
    && (forall r | r in s.accepted :: r.ticket < s.ticket && s.Has(r.server, r.client, ByHandler(r)))
  }

  ghost predicate Inv(s: Cluster) {
    !s.fault && NodesInv(s) && EntriesInv(s) && WireInv(s)
  }

  /** A broker that got its lock never finds the requesting peer connected already. */
  lemma LockedPeerIsNew(s: Cluster, n: NodeId)
    requires Inv(s) && s.Handler(n).Locked?
    ensures (n, s.Handler(n).req.client) !in s.established
  {
    var r := s.Handler(n).req;
    assert NodeInv(s, r.client);
  }

  /** The wire and the tables are the same, and so are the clients that wait and the requests that brokers work on. */
  ghost predicate SameTables(s: Cluster, t: Cluster) {
    && s.established == t.established && s.requests == t.requests && s.accepts == t.accepts && s.rejects == t.rejects
    && s.accepted == t.accepted && s.ticket == t.ticket
    && forall r: Request ::
         && Pending(s, r) == Pending(t, r) && AtBroker(s, r) == AtBroker(t, r)
         && (s.Handler(r.server) == Inserted(r)) == (t.Handler(r.server) == Inserted(r))
  }

  lemma SameTablesKeepTables(s: Cluster, t: Cluster)
    requires EntriesInv(s) && WireInv(s) && SameTables(s, t)
    ensures EntriesInv(t) && WireInv(t)
  {
    hide Pending, AtBroker;
    forall n, p | (n, p) in t.established
      ensures EntryInv(t, n, p)
    {
      assert EntryInv(s, n, p);
    }
  }

  lemma EnterKeepsTables(s: Cluster, m: NodeId, call: Call)
    requires Inv(s) && Enabled(s, Enter(m, call))
    ensures EntriesInv(DoEnter(s, m, call)) && WireInv(DoEnter(s, m, call))
  {
    assert NodeInv(s, m);
    hide EntriesInv, WireInv;
    SameTablesKeepTables(s, DoEnter(s, m, call));
  }

  lemma EnterKeepsInv(s: Cluster, m: NodeId, call: Call)
    requires Inv(s) && Enabled(s, Enter(m, call))
    ensures Inv(DoEnter(s, m, call))
  {
    var t := DoEnter(s, m, call);
    EnterKeepsTables(s, m, call);
    forall n: NodeId
      ensures NodeInv(t, n)
    {
      assert NodeInv(s, n);
    }
  }

  lemma LeaveWithKeepsTables(s: Cluster, m: NodeId, outcome: Outcome)
    requires Inv(s) && s.Client(m).Holding? && !outcome.Unavailable? && (outcome.NotFound? ==> s.Client(m).call.Get?)
    requires outcome.Connected? ==> outcome.peer == s.Client(m).call.peer && (m, outcome.peer) in s.established
    ensures EntriesInv(DoLeaveWith(s, m, outcome)) && WireInv(DoLeaveWith(s, m, outcome))
  {
    assert NodeInv(s, m);
    hide EntriesInv, WireInv;
    SameTablesKeepTables(s, DoLeaveWith(s, m, outcome));
  }

  lemma LeaveWithKeepsInv(s: Cluster, m: NodeId, outcome: Outcome)
    requires Inv(s) && s.Client(m).Holding? && !outcome.Unavailable? && (outcome.NotFound? ==> s.Client(m).call.Get?)
    requires outcome.Connected? ==> outcome.peer == s.Client(m).call.peer && (m, outcome.peer) in s.established
    ensures Inv(DoLeaveWith(s, m, outcome))
  {
    var t := DoLeaveWith(s, m, outcome);
    LeaveWithKeepsTables(s, m, outcome);
    forall n: NodeId
      ensures NodeInv(t, n)
    {
      assert NodeInv(s, n);
    }
  }

  lemma DialSelfKeepsEntries(s: Cluster, m: NodeId)
    requires Inv(s) && Enabled(s, DialSelf(m))
    ensures EntriesInv(DoLeaveWith(Emplace(s, m, m, Loopback), m, Connected(m)))
  {
  }

  lemma DialSelfKeepsWire(s: Cluster, m: NodeId)
    requires Inv(s) && Enabled(s, DialSelf(m))
    ensures WireInv(DoLeaveWith(Emplace(s, m, m, Loopback), m, Connected(m)))
  {
  }

  lemma DialSelfKeepsInv(s: Cluster, m: NodeId)
    requires Inv(s) && Enabled(s, DialSelf(m))
    ensures Inv(DoLeaveWith(Emplace(s, m, m, Loopback), m, Connected(m)))
  {
    var t := DoLeaveWith(Emplace(s, m, m, Loopback), m, Connected(m));
    DialSelfKeepsEntries(s, m);
    DialSelfKeepsWire(s, m);
    forall n: NodeId
      ensures NodeInv(t, n)
    {
      assert NodeInv(s, n);
    }
  }

  lemma DialKeepsTables(s: Cluster, m: NodeId)
    requires Inv(s) && Enabled(s, Dial(m))
    ensures EntriesInv(DoDial(s, m, s.Client(m).call.peer)) && WireInv(DoDial(s, m, s.Client(m).call.peer))
  {
    var req := Request(m, s.Client(m).call.peer, s.ticket);
    assert !Pending(s, req) && req !in s.accepted;
    assert !AtBroker(s, req) by {
      assert NodeInv(s, req.server);
    }
  }

  lemma DialKeepsInv(s: Cluster, m: NodeId)
    requires Inv(s) && Enabled(s, Dial(m))
    ensures Inv(DoDial(s, m, s.Client(m).call.peer))
  {
    var t := DoDial(s, m, s.Client(m).call.peer);
    DialKeepsTables(s, m);
    forall n: NodeId
      ensures NodeInv(t, n)
    {
      assert NodeInv(s, n);
    }
  }

  lemma TurnAwayKeepsEntries(s: Cluster, req: Request)
    requires Inv(s) && req in s.requests
    ensures EntriesInv(DoTurnAway(s, req))
  {
  }

  lemma TurnAwayKeepsWire(s: Cluster, req: Request)
    requires Inv(s) && req in s.requests
    ensures WireInv(DoTurnAway(s, req))
  {
  }

  lemma TurnAwayKeepsInv(s: Cluster, req: Request)
    requires Inv(s) && req in s.requests
    ensures Inv(DoTurnAway(s, req))
  {
    var t := DoTurnAway(s, req);
    TurnAwayKeepsEntries(s, req);
    TurnAwayKeepsWire(s, req);
    forall n: NodeId
      ensures NodeInv(t, n)
    {
      assert NodeInv(s, n);
    }
  }

  lemma LockKeepsEntries(s: Cluster, req: Request)
    requires Inv(s) && Enabled(s, Receive(req)) && TryAcquire(s.Mu(req.server), req.server) == Acquired
    ensures EntriesInv(DoLock(s, req.server, req))
  {
  }

  lemma LockKeepsWire(s: Cluster, req: Request)
    requires Inv(s) && Enabled(s, Receive(req)) && TryAcquire(s.Mu(req.server), req.server) == Acquired
    ensures WireInv(DoLock(s, req.server, req))
  {
  }

  lemma LockKeepsInv(s: Cluster, req: Request)
    requires Inv(s) && Enabled(s, Receive(req)) && TryAcquire(s.Mu(req.server), req.server) == Acquired
    ensures Inv(DoLock(s, req.server, req))
  {
    var t := DoLock(s, req.server, req);
    LockKeepsEntries(s, req);
    LockKeepsWire(s, req);
    forall n: NodeId
      ensures NodeInv(t, n)
    {
      assert NodeInv(s, n);
    }
  }

  lemma CheckKeepsEntries(s: Cluster, m: NodeId)
    requires Inv(s) && Enabled(s, Check(m))
    ensures EntriesInv(DoCheck(s, m, s.Handler(m).req))
  {
    LockedPeerIsNew(s, m);
  }

  lemma CheckKeepsWire(s: Cluster, m: NodeId)
    requires Inv(s) && Enabled(s, Check(m))
    ensures WireInv(DoCheck(s, m, s.Handler(m).req))
  {
    LockedPeerIsNew(s, m);
  }

  lemma CheckKeepsInv(s: Cluster, m: NodeId)
    requires Inv(s) && Enabled(s, Check(m))
    ensures Inv(DoCheck(s, m, s.Handler(m).req))
  {
    var t := DoCheck(s, m, s.Handler(m).req);
    CheckKeepsEntries(s, m);
    CheckKeepsWire(s, m);
    LockedPeerIsNew(s, m);
    forall n: NodeId
      ensures NodeInv(t, n)
    {
      assert NodeInv(s, n);
    }
  }

  lemma AcceptKeepsEntries(s: Cluster, m: NodeId)
    requires Inv(s) && Enabled(s, Accept(m))
    ensures EntriesInv(DoAccept(s, m, s.Handler(m).req))
  {
  }

  lemma AcceptKeepsWire(s: Cluster, m: NodeId)
    requires Inv(s) && Enabled(s, Accept(m))
    ensures WireInv(DoAccept(s, m, s.Handler(m).req))
  {
  }

  lemma AcceptKeepsInv(s: Cluster, m: NodeId)
    requires Inv(s) && Enabled(s, Accept(m))
    ensures Inv(DoAccept(s, m, s.Handler(m).req))
  {
    var t := DoAccept(s, m, s.Handler(m).req);
    AcceptKeepsEntries(s, m);
    AcceptKeepsWire(s, m);
    forall n: NodeId
      ensures NodeInv(t, n)
    {
      assert NodeInv(s, n);
    }
  }

  lemma FinishKeepsTables(s: Cluster, m: NodeId)
    requires Inv(s) && Enabled(s, Finish(m))
    ensures EntriesInv(DoFinish(s, m)) && WireInv(DoFinish(s, m))
  {
    assert NodeInv(s, m);
    hide EntriesInv, WireInv;
    SameTablesKeepTables(s, DoFinish(s, m));
  }

  lemma FinishKeepsInv(s: Cluster, m: NodeId)
    requires Inv(s) && Enabled(s, Finish(m))
    ensures Inv(DoFinish(s, m))
  {
    var t := DoFinish(s, m);
    FinishKeepsTables(s, m);
    forall n: NodeId
      ensures NodeInv(t, n)
    {
      assert NodeInv(s, n);
    }
  }

  lemma EstablishKeepsEntries(s: Cluster, m: NodeId)
    requires Inv(s) && Enabled(s, Establish(m))
    ensures EntriesInv(DoEstablish(s, m, s.Client(m).req))
  {
  }

  lemma EstablishKeepsWire(s: Cluster, m: NodeId)
    requires Inv(s) && Enabled(s, Establish(m))
    ensures WireInv(DoEstablish(s, m, s.Client(m).req))
  {
  }

  lemma EstablishKeepsInv(s: Cluster, m: NodeId)
    requires Inv(s) && Enabled(s, Establish(m))
    ensures Inv(DoEstablish(s, m, s.Client(m).req))
  {
    var t := DoEstablish(s, m, s.Client(m).req);
    EstablishKeepsEntries(s, m);
    EstablishKeepsWire(s, m);
    forall n: NodeId
      ensures NodeInv(t, n)
    {
      assert NodeInv(s, n);
    }
  }

  lemma GetRejectedKeepsEntries(s: Cluster, m: NodeId)
    requires Inv(s) && Enabled(s, GetRejected(m))
    ensures EntriesInv(DoReject(s, m, s.Client(m).req))
  {
  }

  lemma GetRejectedKeepsWire(s: Cluster, m: NodeId)
    requires Inv(s) && Enabled(s, GetRejected(m))
    ensures WireInv(DoReject(s, m, s.Client(m).req))
  {
  }

  lemma GetRejectedKeepsInv(s: Cluster, m: NodeId)
    requires Inv(s) && Enabled(s, GetRejected(m))
    ensures Inv(DoReject(s, m, s.Client(m).req))
  {
    var t := DoReject(s, m, s.Client(m).req);
    GetRejectedKeepsEntries(s, m);
    GetRejectedKeepsWire(s, m);
    forall n: NodeId
      ensures NodeInv(t, n)
    {
      assert NodeInv(s, n);
    }
  }

  lemma LeaveKeepsTables(s: Cluster, m: NodeId)
    requires Inv(s) && Enabled(s, Leave(m))
    ensures EntriesInv(DoLeave(s, m)) && WireInv(DoLeave(s, m))
  {
    assert NodeInv(s, m);
    hide EntriesInv, WireInv;
    SameTablesKeepTables(s, DoLeave(s, m));
  }

  lemma LeaveKeepsInv(s: Cluster, m: NodeId)
    requires Inv(s) && Enabled(s, Leave(m))
    ensures Inv(DoLeave(s, m))
  {
    var t := DoLeave(s, m);
    LeaveKeepsTables(s, m);
    forall n: NodeId
      ensures NodeInv(t, n)
    {
      assert NodeInv(s, n);
    }
  }

  lemma CallsKeepInv(s: Cluster, calls: multiset<(NodeId, Call)>, answers: seq<Answer>)
    requires Inv(s)
    ensures Inv(s.(calls := calls, answers := answers))
  {
    forall n: NodeId
      ensures NodeInv(s.(calls := calls, answers := answers), n)
    {
      assert NodeInv(s, n);
    }
  }

  /** Every atomic step of any node keeps the invariant. */
  lemma StepKeepsInv(s: Cluster, a: Action)
    requires Inv(s) && Enabled(s, a)
    ensures Inv(Apply(s, a))
  {
    match a
    case Invoke(n, call) => CallsKeepInv(s, Apply(s, a).calls, s.answers);
    case Enter(n, call) => EnterKeepsInv(s, n, call);
    case Refuse(n, call) => CallsKeepInv(s, Apply(s, a).calls, Apply(s, a).answers);
    case Hit(n) => LeaveWithKeepsInv(s, n, Connected(s.Client(n).call.peer));
    case Miss(n) => LeaveWithKeepsInv(s, n, NotFound);
    case DialSelf(n) => DialSelfKeepsInv(s, n);
    case Dial(n) => DialKeepsInv(s, n);
    case Receive(req) =>
      if TryAcquire(s.Mu(req.server), req.server) == GaveUp {
        TurnAwayKeepsInv(s, req);
      } else {
        LockKeepsInv(s, req);
      }
    case Check(n) => CheckKeepsInv(s, n);
    case Accept(n) => AcceptKeepsInv(s, n);
    case Finish(n) => FinishKeepsInv(s, n);
    case Establish(n) => EstablishKeepsInv(s, n);
    case GetRejected(n) => GetRejectedKeepsInv(s, n);
    case Leave(n) => LeaveKeepsInv(s, n);
  }
}
