/** What every run of the connection protocol guarantees, for any number of nodes, callers and interleavings. */
module ConnectionTheorems {
  import opened ConnectionProtocol

  /** A run: each state follows from the one before by the action at the same position. */
  ghost predicate IsRun(states: seq<Cluster>, actions: seq<Action>) {
    && |states| == |actions| + 1
    && forall i | 0 <= i < |actions| :: Enabled(states[i], actions[i]) && states[i + 1] == Apply(states[i], actions[i])
  }

  lemma {:induction false} RunKeepsInv(states: seq<Cluster>, actions: seq<Action>, i: nat)
    requires IsRun(states, actions) && Inv(states[0]) && i < |states|
    ensures Inv(states[i])
  {
    if i > 0 {
      RunKeepsInv(states, actions, i - 1);
      StepKeepsInv(states[i - 1], actions[i - 1]);
    }
  }

  // ---------------------------------------------------------------------------------------------------------------
  // Agreement
  // ---------------------------------------------------------------------------------------------------------------

  /** Two distinct nodes get at most one accepted request between them, in either direction, over a whole run. */
  lemma OneAcceptPerPair(states: seq<Cluster>, actions: seq<Action>, q: Request, r: Request)
    requires IsRun(states, actions) && Init(states[0])
    requires q in states[|actions|].accepted && r in states[|actions|].accepted
    requires {q.client, q.server} == {r.client, r.server}
    ensures q == r && q.client != q.server
  {
    RunKeepsInv(states, actions, |actions|);
    var s := states[|actions|];
    assert EntryInv(s, q.server, q.client);
    assert EntryInv(s, r.server, r.client);
    assert NodeInv(s, q.client);
    assert q.client == r.client || (q.client == r.server && q.server == r.client);
  }

  /** An entry made by `Connect` pairs with a handler-made entry of the peer for the same accepted request; a
      handler-made entry pairs with an entry made by `Connect`, unless the client is still waiting for that answer. */
  lemma EntriesAgree(states: seq<Cluster>, actions: seq<Action>, n: NodeId, peer: NodeId)
    requires IsRun(states, actions) && Init(states[0])
    requires n != peer && (n, peer) in states[|actions|].established
    ensures var s := states[|actions|];
            var e := s.established[(n, peer)];
            && !e.Loopback?
            && (e.ByConnect? ==> e.req.client == n && e.req.server == peer
                                 && s.Has(peer, n, ByHandler(e.req)) && e.req in s.accepted)
            && (e.ByHandler? && s.Has(peer, n, ByConnect(e.req)) ==> e.req in s.accepted)
            && (e.ByHandler? && !s.Has(peer, n, ByConnect(e.req)) ==>
                  && (peer, n) !in s.established
                  && s.Client(peer) == Waiting(Connect(n), e.req)
                  && (e.req in s.accepts || s.Handler(n) == Inserted(e.req)))
  {
    RunKeepsInv(states, actions, |actions|);
    var s := states[|actions|];
    assert EntryInv(s, n, peer);
    assert NodeInv(s, peer);
    assert NodeInv(s, n);
    if (peer, n) in s.established {
      assert EntryInv(s, peer, n);
    }
  }

  /** Both `emplace` calls always insert, and a client never finds its peer connected after its request was accepted. */
  lemma EmplaceAlwaysInserts(states: seq<Cluster>, actions: seq<Action>)
    requires IsRun(states, actions) && Init(states[0])
    ensures !states[|actions|].fault
    ensures forall n: NodeId | states[|actions|].Client(n).Waiting? ::
              (n, states[|actions|].Client(n).req.server) !in states[|actions|].established
    ensures forall n: NodeId | states[|actions|].Handler(n).Locked? ::
              (n, states[|actions|].Handler(n).req.client) !in states[|actions|].established
  {
    RunKeepsInv(states, actions, |actions|);
    forall n: NodeId | states[|actions|].Handler(n).Locked?
      ensures (n, states[|actions|].Handler(n).req.client) !in states[|actions|].established
    {
      LockedPeerIsNew(states[|actions|], n);
    }
  }

  /** When a call returns a connection, the peer has stored its end of the same connection or was the one to ask for it
      and has the acceptance on its way. */
  lemma ReturnedConnectionsHavePeers(states: seq<Cluster>, actions: seq<Action>, n: NodeId)
    requires IsRun(states, actions) && Init(states[0])
    requires states[|actions|].Client(n).Leaving? && states[|actions|].Client(n).outcome.Connected?
    ensures var s := states[|actions|];
            var peer := s.Client(n).outcome.peer;
            && (n, peer) in s.established
            && (n != peer ==> !s.established[(n, peer)].Loopback? &&
                              var r := s.established[(n, peer)].req;
                              || s.Has(peer, n, ByHandler(r))
                              || s.Has(peer, n, ByConnect(r))
                              || (s.Client(peer) == Waiting(Connect(n), r) && r in s.accepts)
                              || (s.Client(peer) == Waiting(Connect(n), r) && s.Handler(n) == Inserted(r)))
  {
    RunKeepsInv(states, actions, |actions|);
    assert NodeInv(states[|actions|], n);
    var peer := states[|actions|].Client(n).outcome.peer;
    if n != peer {
      EntriesAgree(states, actions, n, peer);
    }
  }

  lemma NewReject(s: Cluster, a: Action, r: Request)
    requires Inv(s) && Enabled(s, a) && r !in s.rejects && r in Apply(s, a).rejects
    ensures a == Receive(r) && !s.Client(r.server).Outside?
  {
    match a
    case Check(n) => LockedPeerIsNew(s, n);
    case Receive(req) => assert NodeInv(s, req.server);
    case _ =>
  }

  /** A request is turned away only by a node that is itself inside a call; a broker with an idle node accepts it. */
  lemma OnlyBusyNodesReject(states: seq<Cluster>, actions: seq<Action>, i: nat, r: Request)
    requires IsRun(states, actions) && Init(states[0]) && i < |actions|
    requires r !in states[i].rejects && r in states[i + 1].rejects
    ensures actions[i] == Receive(r) && !states[i].Client(r.server).Outside?
  {
    RunKeepsInv(states, actions, i);
    NewReject(states[i], actions[i], r);
  }

  // ---------------------------------------------------------------------------------------------------------------
  // No deadlock
  // ---------------------------------------------------------------------------------------------------------------

  /** The broker finds the lock free or held by its own node, so it never waits for another holder. */
  lemma BrokerNeverSpins(s: Cluster, n: NodeId)
    requires Inv(s) && s.Handler(n).Listening?
    ensures TryAcquire(s.Mu(n), n) != Spinning
    ensures TryAcquire(s.Mu(n), n) == GaveUp <==> !s.Client(n).Outside?
  {
    assert NodeInv(s, n);
  }

  /** Every call returned, every lock is free and nothing is on the wire. */
  ghost predicate AtRest(s: Cluster) {
    && s.calls == multiset{} && s.requests == {} && s.accepts == {} && s.rejects == {}
    && forall n: NodeId {:trigger s.Client(n)} {:trigger s.Handler(n)} ::
         s.Client(n).Outside? && s.Handler(n).Listening? && s.Mu(n) == UNLOCKED
  }

  function ClientWork(c: Client): nat {
    match c
    case Outside => 0
    case Holding(_) => 7
    case Waiting(_, _) => 1
    case Leaving(_, _) => 1
  }

  function HandlerWork(h: Handler): nat {
    match h
    case Listening => 0
    case Locked(_) => 4
    case Inserted(_) => 3
    case Finishing(_) => 1
  }

  ghost function Total<T>(m: map<NodeId, T>, work: T -> nat): nat {
    if m == map[] then 0 else
      var n :| n in m;
      work(m[n]) + Total(m - {n}, work)
  }

  lemma {:induction false} TotalMinus<T>(m: map<NodeId, T>, work: T -> nat, n: NodeId)
    requires n in m
    ensures Total(m, work) == work(m[n]) + Total(m - {n}, work)
  {
    var k :| k in m && Total(m, work) == work(m[k]) + Total(m - {k}, work);
    if k != n {
      TotalMinus(m - {k}, work, n);
      TotalMinus(m - {n}, work, k);
      assert m - {k} - {n} == m - {n} - {k};
    }
  }

  lemma TotalUpdate<T>(m: map<NodeId, T>, work: T -> nat, n: NodeId, v: T)
    ensures Total(m[n := v], work) + (if n in m then work(m[n]) else 0) == Total(m, work) + work(v)
  {
    TotalMinus(m[n := v], work, n);
    assert m[n := v] - {n} == m - {n};
    if n in m {
      TotalMinus(m, work, n);
    } else {
      assert m - {n} == m;
    }
  }

  /** The work still to be done by the calls that have been made so far. */
  ghost function Work(s: Cluster): nat {
    8 * |s.calls| + 5 * |s.requests| + |s.accepts| + |s.rejects|
    + Total(s.clients, ClientWork) + Total(s.handlers, HandlerWork)
  }

  lemma ReceiveWorks(s: Cluster, r: Request)
    requires Enabled(s, Receive(r))
    ensures Work(Apply(s, Receive(r))) < Work(s)
  {
    if TryAcquire(s.Mu(r.server), r.server) != GaveUp {
      TotalUpdate(s.handlers, HandlerWork, r.server, Locked(r));
    }
  }

  lemma HandlerStepsWork(s: Cluster, a: Action)
    requires Enabled(s, a) && (a.Check? || a.Accept? || a.Finish?)
    ensures Work(Apply(s, a)) < Work(s)
  {
    TotalUpdate(s.handlers, HandlerWork, a.n, Apply(s, a).handlers[a.n]);
  }

  lemma DialWorks(s: Cluster, n: NodeId)
    requires Enabled(s, Dial(n))
    ensures Work(Apply(s, Dial(n))) < Work(s)
  {
    TotalUpdate(s.clients, ClientWork, n, Apply(s, Dial(n)).clients[n]);
  }

  /** The answer is taken off the wire. */
  lemma AnswerIsTaken(s: Cluster, a: Action)
    requires Enabled(s, a) && (a.Establish? || a.GetRejected?)
    ensures |Apply(s, a).accepts| + |Apply(s, a).rejects| < |s.accepts| + |s.rejects|
  {
  }

  lemma AnswerWorks(s: Cluster, a: Action)
    requires Enabled(s, a) && (a.Establish? || a.GetRejected?)
    ensures Work(Apply(s, a)) < Work(s)
  {
    var t := Apply(s, a);
    assert a.n in s.clients && s.clients[a.n].Waiting? && t.clients == s.clients[a.n := t.clients[a.n]];
    assert t.clients[a.n].Leaving? && t.calls == s.calls && t.requests == s.requests && t.handlers == s.handlers;
    AnswerIsTaken(s, a);
    hide Apply, Enabled;
    TotalUpdate(s.clients, ClientWork, a.n, t.clients[a.n]);
  }

  lemma ClientStepsWork(s: Cluster, a: Action)
    requires Enabled(s, a) && (a.Hit? || a.Miss? || a.DialSelf? || a.Leave?)
    ensures Work(Apply(s, a)) < Work(s)
  {
    TotalUpdate(s.clients, ClientWork, a.n, Apply(s, a).clients[a.n]);
  }

  /** Every step other than a new call leaves strictly less work. */
  lemma StepsWork(s: Cluster, a: Action)
    requires Enabled(s, a) && !a.Invoke?
    ensures Work(Apply(s, a)) < Work(s)
  {
    match a
    case Enter(n, call) => TotalUpdate(s.clients, ClientWork, n, Holding(call));
    case Refuse(n, call) =>
    case Receive(req) => ReceiveWorks(s, req);
    case Check(_) => HandlerStepsWork(s, a);
    case Accept(_) => HandlerStepsWork(s, a);
    case Finish(_) => HandlerStepsWork(s, a);
    case Dial(n) => DialWorks(s, n);
    case Establish(_) => AnswerWorks(s, a);
    case GetRejected(_) => AnswerWorks(s, a);
    case _ => ClientStepsWork(s, a);
  }

  /** No deadlock: while a call has not returned, a lock is held or a message is in flight, some node can take a step. */
  lemma SomeoneCanStep(s: Cluster) returns (a: Action)
    requires Inv(s) && !AtRest(s)
    ensures !a.Invoke? && Enabled(s, a)
  {
    if n: NodeId :| !s.Handler(n).Listening? {
      a := match s.Handler(n) case Locked(_) => Check(n) case Inserted(_) => Accept(n) case _ => Finish(n);
    } else if r :| r in s.requests {
      BrokerNeverSpins(s, r.server);
      a := Receive(r);
    } else if r :| r in s.accepts {
      a := Establish(r.client);
    } else if r :| r in s.rejects {
      a := GetRejected(r.client);
    } else if n: NodeId :| !s.Client(n).Outside? {
      assert NodeInv(s, n);
      if s.Client(n).Leaving? {
        a := Leave(n);
      } else {
        var call := s.Client(n).call;
        a := if (n, call.peer) in s.established then Hit(n) else if call.Get? then Miss(n)
             else if call.peer == n then DialSelf(n) else Dial(n);
      }
    } else {
      forall n: NodeId
        ensures s.Mu(n) == UNLOCKED
      {
        assert NodeInv(s, n);
      }
      assert s.calls != multiset{};
      var c :| c in s.calls;
      assert NodeInv(s, c.0);
      a := Enter(c.0, c.1);
    }
  }

  ghost predicate NoNewCalls(actions: seq<Action>) {
    forall i | 0 <= i < |actions| :: !actions[i].Invoke?
  }

  lemma {:induction false} RunSpendsWork(states: seq<Cluster>, actions: seq<Action>, i: nat)
    requires IsRun(states, actions) && NoNewCalls(actions) && i < |states|
    ensures i + Work(states[i]) <= Work(states[0])
  {
    if i > 0 {
      RunSpendsWork(states, actions, i - 1);
      StepsWork(states[i - 1], actions[i - 1]);
    }
  }

  /** Once no new calls come in, a run that goes on as long as any node can step is finite, and every call in it has
      returned, whatever the interleaving and however many Connects are mutually simultaneous. */
  lemma RunsComeToRest(before: seq<Cluster>, past: seq<Action>, states: seq<Cluster>, actions: seq<Action>)
    requires IsRun(before, past) && Init(before[0])
    requires IsRun(states, actions) && states[0] == before[|past|] && NoNewCalls(actions)
    ensures |actions| <= Work(before[|past|])
    ensures (forall a: Action | !a.Invoke? :: !Enabled(states[|actions|], a)) ==> AtRest(states[|actions|])
  {
    RunSpendsWork(states, actions, |actions|);
    RunKeepsInv(before, past, |past|);
    RunKeepsInv(states, actions, |actions|);
    if !AtRest(states[|actions|]) {
      var a := SomeoneCanStep(states[|actions|]);
    }
  }

  /** At rest the tables are symmetric: each connected pair holds the two ends of one accepted request. */
  lemma RestIsSymmetric(states: seq<Cluster>, actions: seq<Action>, n: NodeId, peer: NodeId)
    requires IsRun(states, actions) && Init(states[0]) && AtRest(states[|actions|]) && n != peer
    ensures var s := states[|actions|];
            && ((n, peer) in s.established <==> (peer, n) in s.established)
            && ((n, peer) in s.established ==>
                  var e, f := s.established[(n, peer)], s.established[(peer, n)];
                  !e.Loopback? && !f.Loopback? && e.ByConnect? != f.ByConnect? && e.req == f.req
                  && e.req in s.accepted)
  {
    var s := states[|actions|];
    if (n, peer) in s.established {
      EntriesAgree(states, actions, n, peer);
      assert s.Client(peer).Outside?;
    }
    if (peer, n) in s.established {
      EntriesAgree(states, actions, peer, n);
      assert s.Client(n).Outside?;
    }
  }
}
