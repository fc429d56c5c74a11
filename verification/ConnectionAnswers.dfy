/** What the calls of a run return: every call gets one answer, and the answer fits what it asked for. */
module ConnectionAnswers {
  import opened ConnectionProtocol
  import opened ConnectionTheorems

  /** The step from s to r settles the call of client c of node n with this outcome. A connection is the one stored for
      the very peer that the call names: it was there before, or it is the loopback of a Connect to the node itself, or
      it is made for the client's own request, which was accepted. Nothing is found only for a GetConnection whose peer
      has no entry, and a Connect is turned down only when its own request to that peer was rejected. */
  ghost predicate Fits(s: Cluster, r: Cluster, n: NodeId, c: Client, outcome: Outcome) {
    && (c.Holding? || c.Waiting?)
    && match outcome
       case Connected(p) =>
         && p == c.call.peer && (n, p) in r.established
         && (c.Holding? ==>
               if (n, p) in s.established then r.established[(n, p)] == s.established[(n, p)]
               else c.call == Connect(n) && r.established[(n, p)] == Loopback)
         && (c.Waiting? ==>
               && (n, p) !in s.established && c.req in s.accepts && c.req.client == n && c.req.server == p
               && r.established[(n, p)] == ByConnect(c.req))
       case NotFound => c.Holding? && c.call.Get? && (n, c.call.peer) !in s.established
       case Unavailable => c.Waiting? && c.call == Connect(c.req.server) && c.req.client == n && c.req in s.rejects
  }

  /** A client stays as it is, or takes the free lock for a call that waits for it, or asks the peer of its Connect, or
      is settled, or returns what it was settled with. */
  ghost predicate Progresses(s: Cluster, r: Cluster, n: NodeId) {
    var c, d := s.Client(n), r.Client(n);
    || c == d
    || (c.Outside? && d.Holding? && s.Mu(n) == UNLOCKED && (n, d.call) in s.calls)
    || (c.Holding? && d.Waiting? && d.call == c.call == Connect(d.req.server) && d.req.client == n
        && d.req.server != n && (n, d.req.server) !in s.established
        && d.req !in s.requests && d.req !in s.accepted && d.req in r.requests)
    || (d.Leaving? && (c.Holding? || c.Waiting?) && d.call == c.call && Fits(s, r, n, c, d.outcome))
    || (c.Leaving? && d.Outside? && r.answers == s.answers + [Answer(n, c.call, c.outcome)])
  }

  /** Only a client's own steps change it. */
  predicate OwnStep(a: Action, n: NodeId) {
    match a
    case Invoke(_, _) => false
    case Refuse(_, _) => false
    case Receive(_) => false
    case Check(_) => false
    case Accept(_) => false
    case Finish(_) => false
    case _ => a.n == n
  }

  lemma OthersStep(s: Cluster, a: Action, n: NodeId)
    requires Enabled(s, a) && !OwnStep(a, n)
    ensures Apply(s, a).Client(n) == s.Client(n)
  {
  }

  lemma OwnStepProgresses(s: Cluster, a: Action, n: NodeId)
    requires Inv(s) && Enabled(s, a) && OwnStep(a, n)
    ensures Progresses(s, Apply(s, a), n)
  {
    assert NodeInv(s, n);
    hide HandlerInv, EntriesInv, NodesInv;
  }

  lemma StepProgresses(s: Cluster, a: Action, n: NodeId)
    requires Inv(s) && Enabled(s, a)
    ensures Progresses(s, Apply(s, a), n)
  {
    hide Inv, Enabled, Apply, Fits;
    if OwnStep(a, n) {
      OwnStepProgresses(s, a, n);
    } else {
      OthersStep(s, a, n);
    }
  }

  /** In every run, whoever else takes steps, a client goes through its call in these steps only. */
  lemma ClientsProgress(states: seq<Cluster>, actions: seq<Action>, i: nat, n: NodeId)
    requires IsRun(states, actions) && Init(states[0]) && i < |actions|
    ensures Progresses(states[i], states[i + 1], n)
  {
    hide Inv, Enabled, Apply, Progresses, Init;
    StartHasInv(states[0]);
    RunKeepsInv(states, actions, i);
    StepProgresses(states[i], actions[i], n);
  }

  lemma StartHasInv(s: Cluster)
    requires Init(s)
    ensures Inv(s)
  {
  }

  // ---------------------------------------------------------------------------------------------------------------
  // The history of answers
  // ---------------------------------------------------------------------------------------------------------------

  /** The step settles the call of this answer. */
  ghost predicate Settles(s: Cluster, r: Cluster, a: Answer) {
    var c := s.Client(a.n);
    && (c.Holding? || c.Waiting?) && c.call == a.call && r.Client(a.n) == Leaving(a.call, a.outcome)
    && Fits(s, r, a.n, c, a.outcome)
  }

  /** The step turns a Connect away because the node is inside another call. */
  ghost predicate TurnsAway(s: Cluster, r: Cluster, a: Answer) {
    && a.outcome == Unavailable && a.call.Connect? && (a.n, a.call) in s.calls && !s.Client(a.n).Outside?
    && s.Mu(a.n) == a.n
  }

  ghost predicate Returns(s: Cluster, r: Cluster, a: Answer) {
    r.answers == s.answers + [a] && (s.Client(a.n) == Leaving(a.call, a.outcome) || TurnsAway(s, r, a))
  }

  lemma StepReturns(s: Cluster, a: Action)
    requires Inv(s) && Enabled(s, a)
    ensures Apply(s, a).answers == s.answers || exists x :: Returns(s, Apply(s, a), x)
  {
    match a
    case Refuse(n, call) =>
      assert NodeInv(s, n);
      assert Returns(s, Apply(s, a), Answer(n, call, Unavailable));
    case Leave(n) =>
      assert Returns(s, Apply(s, a), Answer(n, s.Client(n).call, s.Client(n).outcome));
    case _ =>
  }

  lemma {:induction false} LeavingWasSettled(states: seq<Cluster>, actions: seq<Action>, m: nat, n: NodeId)
    requires IsRun(states, actions) && Init(states[0]) && m <= |actions| && states[m].Client(n).Leaving?
    ensures exists i | 0 <= i < m ::
              Settles(states[i], states[i + 1], Answer(n, states[m].Client(n).call, states[m].Client(n).outcome))
  {
    hide Apply, Enabled, Fits;
    if m > 0 {
      ClientsProgress(states, actions, m - 1, n);
      if states[m - 1].Client(n) == states[m].Client(n) {
        LeavingWasSettled(states, actions, m - 1, n);
      } else {
        assert Settles(states[m - 1], states[m], Answer(n, states[m].Client(n).call, states[m].Client(n).outcome));
      }
    }
  }

  /** Every answer that was ever returned fits: its call was settled by a step that had the reason for it, or it is a
      Connect turned away because the node was inside another call. */
  lemma {:induction false} AnswersFit(states: seq<Cluster>, actions: seq<Action>, m: nat, k: nat)
    requires IsRun(states, actions) && Init(states[0]) && m <= |actions| && k < |states[m].answers|
    ensures exists i | 0 <= i < m ::
              || Settles(states[i], states[i + 1], states[m].answers[k])
              || TurnsAway(states[i], states[i + 1], states[m].answers[k])
  {
    hide Apply, Enabled, Settles, TurnsAway, Inv;
    if m > 0 {
      StartHasInv(states[0]);
      RunKeepsInv(states, actions, m - 1);
      StepReturns(states[m - 1], actions[m - 1]);
      if k < |states[m - 1].answers| {
        AnswersFit(states, actions, m - 1, k);
      } else {
        var x :| Returns(states[m - 1], states[m], x);
        assert x == states[m].answers[k];
        if states[m - 1].Client(x.n) == Leaving(x.call, x.outcome) {
          LeavingWasSettled(states, actions, m - 1, x.n);
        }
      }
    }
  }

  // ---------------------------------------------------------------------------------------------------------------
  // One answer for each call
  // ---------------------------------------------------------------------------------------------------------------

  ghost function Invoked(actions: seq<Action>, i: nat, n: NodeId, call: Call): nat
    requires i <= |actions|
  {
    if i == 0 then 0 else Invoked(actions, i - 1, n, call) + if actions[i - 1] == Invoke(n, call) then 1 else 0
  }

  function Answered(answers: seq<Answer>, n: NodeId, call: Call): nat {
    if answers == [] then 0
    else
      var last := answers[|answers| - 1];
      Answered(answers[..|answers| - 1], n, call) + if last.n == n && last.call == call then 1 else 0
  }

  function Held(c: Client, call: Call): nat {
    if !c.Outside? && c.call == call then 1 else 0
  }

  lemma OneMoreAnswer(answers: seq<Answer>, a: Answer, n: NodeId, call: Call)
    ensures Answered(answers + [a], n, call) == Answered(answers, n, call) + if a.n == n && a.call == call then 1 else 0
  {
    assert (answers + [a])[..|answers|] == answers;
  }

  /** How often a call was made: it waits, is inside, or was answered. */
  function Counted(s: Cluster, n: NodeId, call: Call): nat {
    s.calls[(n, call)] + Held(s.Client(n), call) + Answered(s.answers, n, call)
  }

  lemma EnterCounts(s: Cluster, m: NodeId, c: Call, n: NodeId, call: Call)
    requires Inv(s) && Enabled(s, Enter(m, c))
    ensures Counted(DoEnter(s, m, c), n, call) == Counted(s, n, call)
  {
    hide Answered, EntriesInv, WireInv, HandlerInv;
    assert NodeInv(s, m);
  }

  lemma LeaveCounts(s: Cluster, m: NodeId, n: NodeId, call: Call)
    requires Enabled(s, Leave(m))
    ensures Counted(DoLeave(s, m), n, call) == Counted(s, n, call)
  {
    hide Answered;
    OneMoreAnswer(s.answers, Answer(m, s.Client(m).call, s.Client(m).outcome), n, call);
  }

  /** A step that neither begins nor ends a call. */
  predicate Inside(a: Action) {
    !a.Invoke? && !a.Enter? && !a.Refuse? && !a.Leave?
  }

  lemma InsideKeepsQueues(s: Cluster, a: Action)
    requires Enabled(s, a) && Inside(a)
    ensures Apply(s, a).calls == s.calls && Apply(s, a).answers == s.answers
  {
  }

  lemma InsideKeepsCall(s: Cluster, a: Action, n: NodeId)
    requires Enabled(s, a) && Inside(a) && OwnStep(a, n)
    ensures !s.Client(n).Outside? && !Apply(s, a).Client(n).Outside? && Apply(s, a).Client(n).call == s.Client(n).call
  {
  }

  lemma InsideCounts(s: Cluster, a: Action, n: NodeId, call: Call)
    requires Enabled(s, a) && Inside(a)
    ensures Counted(Apply(s, a), n, call) == Counted(s, n, call)
  {
    hide Answered, Apply, Enabled, OwnStep, Inside;
    InsideKeepsQueues(s, a);
    if OwnStep(a, n) {
      InsideKeepsCall(s, a, n);
    } else {
      OthersStep(s, a, n);
    }
  }

  lemma StepCounts(s: Cluster, a: Action, n: NodeId, call: Call)
    requires Inv(s) && Enabled(s, a)
    ensures Counted(Apply(s, a), n, call) == Counted(s, n, call) + if a == Invoke(n, call) then 1 else 0
  {
    hide Answered, Held, Inv;
    match a
    case Enter(m, c) => EnterCounts(s, m, c, n, call);
    case Refuse(m, c) => OneMoreAnswer(s.answers, Answer(m, c, Unavailable), n, call);
    case Leave(m) => LeaveCounts(s, m, n, call);
    case Invoke(m, c) =>
    case _ => InsideCounts(s, a, n, call);
  }

  /** Every call that was made still waits for the lock, or is inside, or has been answered, once. */
  lemma {:induction false} CallsAreCounted(states: seq<Cluster>, actions: seq<Action>, i: nat, n: NodeId, call: Call)
    requires IsRun(states, actions) && Init(states[0]) && i <= |actions|
    ensures Invoked(actions, i, n, call)
         == states[i].calls[(n, call)] + Held(states[i].Client(n), call) + Answered(states[i].answers, n, call)
  {
    hide Apply, Enabled, Answered, Held, Inv;
    if i > 0 {
      StartHasInv(states[0]);
      RunKeepsInv(states, actions, i - 1);
      CallsAreCounted(states, actions, i - 1, n, call);
      StepCounts(states[i - 1], actions[i - 1], n, call);
    } else {
      NothingAnswered(states[0], n, call);
    }
  }

  lemma NothingAnswered(s: Cluster, n: NodeId, call: Call)
    requires Init(s)
    ensures s.calls[(n, call)] + Held(s.Client(n), call) + Answered(s.answers, n, call) == 0
  {
  }

  /** At rest every call has had exactly as many answers as it was made times. */
  lemma RestAnswersEverything(states: seq<Cluster>, actions: seq<Action>, n: NodeId, call: Call)
    requires IsRun(states, actions) && Init(states[0]) && AtRest(states[|actions|])
    ensures Answered(states[|actions|].answers, n, call) == Invoked(actions, |actions|, n, call)
  {
    hide Init, Enabled, Apply, Answered;
    CallsAreCounted(states, actions, |actions|, n, call);
    assert states[|actions|].Client(n).Outside?;
  }
}
