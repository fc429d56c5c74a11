/** The order of turns while tasks finish and schedule others: nobody gets a second turn before everybody had one. */
module RoundRobinOrder {
  import opened RoundRobinModel

  /** The unfinished tasks from the current one on, round the ring. */
  function Queue(s: Sched): seq<Task>
    requires Ready(s)
  {
    if s.order == [] then [] else s.order[s.turn..] + s.order[..s.turn]
  }

  function NewTasks(t: Task, canceled: bool): seq<Task> {
    if t.steps == [] || canceled then [] else t.steps[0].scheduled
  }

  function Requeued(t: Task): seq<Task> {
    if t.steps == [] then [] else [Task(t.id, t.steps[1..])]
  }

  lemma QueueBetween(before: seq<Task>, after: seq<Task>)
    ensures Ready(Between(before, after)) && Queue(Between(before, after)) == after + before
  {
  }

  /** A task that had its turn comes before the turn, and new ones come in at the end of the ring. */
  lemma NextIsBetween(s: Sched, canceled: bool)
    requires s.turn < |s.order|
    ensures var before, t, after := s.order[..s.turn], s.order[s.turn], s.order[s.turn + 1..];
            && s == Between(before, [t] + after)
            && Next(s, canceled) == Between(before + Requeued(t), after + NewTasks(t, canceled))
  {
    hide Ready, TasksWeight;
    var before, t, after := s.order[..s.turn], s.order[s.turn], s.order[s.turn + 1..];
    assert before + ([t] + after) == s.order;
    if t.steps == [] {
      assert after + [] == after && before + [] == before;
    } else {
      assert s.order[s.turn := Requeued(t)[0]] + NewTasks(t, canceled)
          == before + Requeued(t) + (after + NewTasks(t, canceled));
    }
  }

  lemma NextQueue(s: Sched, canceled: bool)
    requires s.turn < |s.order|
    ensures var before, t, after := s.order[..s.turn], s.order[s.turn], s.order[s.turn + 1..];
            && Ready(s) && Queue(s) == [t] + after + before
            && Ready(Next(s, canceled))
            && Queue(Next(s, canceled)) == after + NewTasks(t, canceled) + (before + Requeued(t))
  {
    hide Next, Between, Queue, Ready, NewTasks, Requeued;
    var before, t, after := s.order[..s.turn], s.order[s.turn], s.order[s.turn + 1..];
    NextIsBetween(s, canceled);
    QueueBetween(before, [t] + after);
    QueueBetween(before + Requeued(t), after + NewTasks(t, canceled));
  }

  /** Where the waiting task i of the queue is after one more turn. */
  function Place(s: Sched, canceled: bool, i: nat): nat
    requires s.turn < |s.order| && 0 < i
  {
    if i < |s.order| - s.turn then i - 1 else i - 1 + |NewTasks(s.order[s.turn], canceled)|
  }

  /** Tasks that wait keep their order. */
  lemma WaitingKeepOrder(s: Sched, canceled: bool, i: nat, j: nat)
    requires s.turn < |s.order| && 0 < i < j
    ensures Place(s, canceled, i) < Place(s, canceled, j)
  {
  }

  lemma Waiting(s: Sched, canceled: bool, i: nat)
    requires s.turn < |s.order| && 0 < i < |s.order|
    ensures Ready(s) && Ready(Next(s, canceled)) && |Queue(s)| == |s.order|
    ensures Place(s, canceled, i) < |Queue(Next(s, canceled))|
    ensures Queue(Next(s, canceled))[Place(s, canceled, i)] == Queue(s)[i]
  {
    hide Queue, Next, NewTasks;
    NextQueue(s, canceled);
  }

  // ---------------------------------------------------------------------------------------------------------------
  // Tasks are told apart by their identifiers
  // ---------------------------------------------------------------------------------------------------------------

  /** No two tasks, scheduled already or ever to be scheduled, have the same identifier. */
  ghost predicate Unique(s: Sched) {
    forall id: nat :: Asked(s.order, Dropped(id)) <= 1
  }

  lemma NextAsksNoMore(s: Sched, canceled: bool, e: Event)
    requires s.turn < |s.order|
    ensures Asked(Next(s, canceled).order, e) <= Asked(s.order, e)
  {
    NextKeepsAsked(s, e);
    var t := s.order[s.turn];
    if canceled && t.steps != [] {
      var resumed := s.order[s.turn := Task(t.id, t.steps[1..])];
      assert Next(s, true).order == resumed + [] == resumed;
      AskedOfConcat(resumed, t.steps[0].scheduled, e);
    }
  }

  lemma NextKeepsUnique(s: Sched, canceled: bool)
    requires Unique(s) && s.turn < |s.order|
    ensures Unique(Next(s, canceled))
  {
    forall id: nat
      ensures Asked(Next(s, canceled).order, Dropped(id)) <= 1
    {
      NextAsksNoMore(s, canceled, Dropped(id));
    }
  }

  lemma TwiceAsked(ts: seq<Task>, i: nat, j: nat)
    requires i < j < |ts| && ts[i].id == ts[j].id
    ensures Asked(ts, Dropped(ts[i].id)) >= 2
  {
    var e := Dropped(ts[i].id);
    AskedAt(ts, j, e);
    AskedAt(ts[..j], i, e);
  }

  lemma QueueIsDistinct(s: Sched, i: nat, j: nat)
    requires Ready(s) && Unique(s) && i < j < |Queue(s)|
    ensures Queue(s)[i].id != Queue(s)[j].id
  {
    var e := Dropped(Queue(s)[i].id);
    AskedOfConcat(s.order[s.turn..], s.order[..s.turn], e);
    AskedOfConcat(s.order[..s.turn], s.order[s.turn..], e);
    assert s.order[..s.turn] + s.order[s.turn..] == s.order;
    assert Asked(Queue(s), e) == Asked(s.order, e);
    if Queue(s)[i].id == Queue(s)[j].id {
      TwiceAsked(Queue(s), i, j);
    }
  }

  // ---------------------------------------------------------------------------------------------------------------
  // One turn each
  // ---------------------------------------------------------------------------------------------------------------

  predicate IsTurn(e: Event, id: nat) {
    e == Resumed(id) || e == Dropped(id)
  }

  /** Task a has its next turn n events from here. */
  ghost predicate NextTurn(s: Sched, canceled: bool, n: nat, a: nat) {
    && Ready(s) && n < |Trace(s, canceled)|
    && IsTurn(Trace(s, canceled)[n], a) && forall j | 0 <= j < n :: !IsTurn(Trace(s, canceled)[j], a)
  }

  /** How often a task is resumed in the next n events. */
  ghost function Resumes(s: Sched, canceled: bool, n: nat, id: nat): nat {
    if Ready(s) && n <= |Trace(s, canceled)| then multiset(Trace(s, canceled)[..n])[Resumed(id)] else 0
  }

  lemma NextResumesOnce(s: Sched, canceled: bool, n: nat, id: nat)
    requires s.turn < |s.order| && n < |Trace(s, canceled)|
    ensures Resumes(s, canceled, n + 1, id)
         == Resumes(Next(s, canceled), canceled, n, id)
            + if s.order[s.turn].id == id && s.order[s.turn].steps != [] then 1 else 0
  {
    hide Trace, Next;
    TraceStep(s, canceled);
    var rest := Trace(Next(s, canceled), canceled);
    assert Trace(s, canceled)[..n + 1] == [Upcoming(s)] + rest[..n];
    CountOfPrepend(Upcoming(s), rest[..n], Resumed(id));
  }

  lemma NotEnded(s: Sched, canceled: bool)
    requires Ready(s) && Trace(s, canceled) != []
    ensures s.turn < |s.order|
  {
  }

  lemma NextTurnComes(s: Sched, canceled: bool, n: nat, a: nat)
    requires NextTurn(s, canceled, n, a)
    ensures s.turn < |s.order| && (n == 0 <==> s.order[s.turn].id == a)
    ensures n > 0 ==> NextTurn(Next(s, canceled), canceled, n - 1, a)
  {
    hide Trace, Next;
    NotEnded(s, canceled);
    TraceStep(s, canceled);
    assert IsTurn(Trace(s, canceled)[0], a) <==> s.order[s.turn].id == a;
    if n > 0 {
      var rest := Trace(Next(s, canceled), canceled);
      forall j | 0 <= j < |rest|
        ensures rest[j] == Trace(s, canceled)[j + 1]
      {
      }
    }
  }

  /** Task t is at place i of the queue. */
  ghost predicate At(s: Sched, i: nat, t: Task) {
    Ready(s) && i < |Queue(s)| && Queue(s)[i] == t
  }

  /** Task t at place i of the queue has its next turn n events from here. */
  ghost predicate TurnAhead(s: Sched, canceled: bool, n: nat, i: nat, t: Task) {
    NextTurn(s, canceled, n, t.id) && Unique(s) && At(s, i, t)
  }

  lemma FirstIsCurrent(s: Sched, i: nat, t: Task)
    requires Unique(s) && At(s, i, t)
    ensures s.turn < |s.order| && i < |s.order|
    ensures i == 0 <==> s.order[s.turn].id == t.id
    ensures i == 0 ==> s.order[s.turn] == t
  {
    assert Queue(s)[0] == s.order[s.turn];
    if i > 0 {
      QueueIsDistinct(s, 0, i);
    }
  }

  /** A resumed task comes behind all others. */
  lemma Requeues(s: Sched, canceled: bool, u: Task, i: nat)
    requires Unique(s) && At(s, 0, u) && u.steps != [] && 0 < i < |s.order|
    ensures var next := Next(s, canceled);
            && s.turn < |s.order| && Place(s, canceled, i) < |next.order| - 1
            && At(next, |next.order| - 1, Task(u.id, u.steps[1..]))
  {
    hide Next, NewTasks, Unique;
    FirstIsCurrent(s, 0, u);
    NextQueue(s, canceled);
  }

  lemma StaysAt(s: Sched, canceled: bool, i: nat, t: Task)
    requires At(s, i, t) && i > 0
    ensures s.turn < |s.order| && At(Next(s, canceled), Place(s, canceled, i), t)
  {
    assert |Queue(s)| == |s.order|;
    hide Queue, Next, Place;
    Waiting(s, canceled, i);
  }

  /** A task that waits for its turn still waits for it after the turn of another one. */
  lemma TurnComesCloser(s: Sched, canceled: bool, n: nat, i: nat, t: Task)
    requires TurnAhead(s, canceled, n, i, t) && i > 0
    ensures s.turn < |s.order| && n > 0
    ensures TurnAhead(Next(s, canceled), canceled, n - 1, Place(s, canceled, i), t)
  {
    FirstIsCurrent(s, i, t);
    NextTurnComes(s, canceled, n, t.id);
    NextKeepsUnique(s, canceled);
    StaysAt(s, canceled, i, t);
  }

  /** What one event adds to the resumes of task u at place j until the turn of t. */
  lemma OneEvent(s: Sched, canceled: bool, n: nat, i: nat, t: Task, j: nat, u: Task)
    requires TurnAhead(s, canceled, n, i, t) && At(s, j, u)
    ensures s.turn < |s.order| && i < |s.order| && Unique(s) && (n == 0 <==> i == 0)
    ensures n == 0 ==> Resumes(s, canceled, n, u.id) == 0
    ensures n > 0 ==>
              Resumes(s, canceled, n, u.id)
              == Resumes(Next(s, canceled), canceled, n - 1, u.id) + if j == 0 && u.steps != [] then 1 else 0
  {
    FirstIsCurrent(s, i, t);
    FirstIsCurrent(s, j, u);
    NextTurnComes(s, canceled, n, t.id);
    if n > 0 {
      hide Resumes;
      NextResumesOnce(s, canceled, n - 1, u.id);
    }
  }

  /** A task behind t in the queue gets no turn before t. */
  lemma {:induction false} LaterWaits(s: Sched, canceled: bool, n: nat, i: nat, t: Task, j: nat, u: Task)
    requires TurnAhead(s, canceled, n, i, t) && At(s, j, u) && i < j
    ensures Resumes(s, canceled, n, u.id) == 0
    decreases n
  {
    hide Resumes, TurnAhead, At, Next, Place, Unique;
    OneEvent(s, canceled, n, i, t, j, u);
    if n > 0 {
      TurnComesCloser(s, canceled, n, i, t);
      StaysAt(s, canceled, j, u);
      WaitingKeepOrder(s, canceled, i, j);
      LaterWaits(Next(s, canceled), canceled, n - 1, Place(s, canceled, i), t, Place(s, canceled, j), u);
    }
  }

  /** An unfinished task before t in the queue is resumed exactly once before t. */
  lemma {:induction false} EarlierIsResumed(s: Sched, canceled: bool, n: nat, j: nat, u: Task, i: nat, t: Task)
    requires TurnAhead(s, canceled, n, i, t) && At(s, j, u) && j < i && u.steps != []
    ensures Resumes(s, canceled, n, u.id) == 1
    decreases n
  {
    hide Resumes, TurnAhead, At, Next, Place, Unique;
    OneEvent(s, canceled, n, i, t, j, u);
    TurnComesCloser(s, canceled, n, i, t);
    if j == 0 {
      Requeues(s, canceled, u, i);
      var next := Next(s, canceled);
      LaterWaits(next, canceled, n - 1, Place(s, canceled, i), t, |next.order| - 1, Task(u.id, u.steps[1..]));
    } else {
      StaysAt(s, canceled, j, u);
      WaitingKeepOrder(s, canceled, j, i);
      EarlierIsResumed(Next(s, canceled), canceled, n - 1, Place(s, canceled, j), u, Place(s, canceled, i), t);
    }
  }

  /** The state after m iterations. */
  function After(s: Sched, canceled: bool, m: nat): Sched {
    if m == 0 then s else Next(After(s, canceled, m - 1), canceled)
  }

  lemma {:induction false} TraceFrom(s: Sched, canceled: bool, m: nat)
    requires Ready(s) && Unique(s) && m <= |Trace(s, canceled)|
    ensures Ready(After(s, canceled, m)) && Unique(After(s, canceled, m))
    ensures Trace(s, canceled)[m..] == Trace(After(s, canceled, m), canceled)
  {
    if m > 0 {
      TraceFrom(s, canceled, m - 1);
      var before := After(s, canceled, m - 1);
      assert Trace(before, canceled) != [];
      TraceStep(before, canceled);
      NextKeepsUnique(before, canceled);
      assert Trace(s, canceled)[m..] == Trace(s, canceled)[m - 1..][1..];
    }
  }

  lemma PlaceInQueue(s: Sched, p: nat)
    requires p < |s.order| && s.turn < |s.order| && p != s.turn
    ensures var j := if p > s.turn then p - s.turn else p + (|s.order| - s.turn);
            0 < j < |s.order| == |Queue(s)| && Queue(s)[j] == s.order[p]
  {
  }

  /** From a turn of a task to its next one, every other unfinished task is resumed exactly once. */
  lemma FromTurnToTurn(s: Sched, canceled: bool, n: nat, u: Task)
    requires s.turn < |s.order| && Unique(s) && u in s.order && u.steps != []
    requires s.order[s.turn].steps != [] && u.id != s.order[s.turn].id
    requires NextTurn(Next(s, canceled), canceled, n, s.order[s.turn].id)
    ensures Resumes(Next(s, canceled), canceled, n, u.id) == 1
  {
    hide Trace, Next, NextTurn, Place, Unique, Resumes;
    var p :| 0 <= p < |s.order| && s.order[p] == u;
    var j := if p > s.turn then p - s.turn else p + (|s.order| - s.turn);
    PlaceInQueue(s, p);
    NextKeepsUnique(s, canceled);
    assert At(s, 0, s.order[s.turn]);
    StaysAt(s, canceled, j, u);
    Requeues(s, canceled, s.order[s.turn], j);
    var next, t := Next(s, canceled), Task(s.order[s.turn].id, s.order[s.turn].steps[1..]);
    EarlierIsResumed(next, canceled, n, Place(s, canceled, j), u, |next.order| - 1, t);
  }

  lemma TurnFrom(s: Sched, canceled: bool, n: nat, a: nat)
    requires Ready(s) && n + 1 < |Trace(s, canceled)| && Trace(s, canceled)[0] == Resumed(a)
    requires IsTurn(Trace(s, canceled)[n + 1], a) && forall j | 0 < j <= n :: !IsTurn(Trace(s, canceled)[j], a)
    ensures s.turn < |s.order| && s.order[s.turn].id == a && s.order[s.turn].steps != []
    ensures NextTurn(Next(s, canceled), canceled, n, a)
  {
    hide Trace, Next;
    NotEnded(s, canceled);
    TraceStep(s, canceled);
    var rest := Trace(Next(s, canceled), canceled);
    forall j | 0 <= j < |rest|
      ensures rest[j] == Trace(s, canceled)[j + 1]
    {
    }
  }

  lemma SliceAt(trace: seq<Event>, m: nat, n: nat, a: nat)
    requires m < n < |trace| && forall j | m < j < n :: !IsTurn(trace[j], a)
    ensures trace[m..][0] == trace[m] && trace[m..][n - m] == trace[n]
    ensures forall j | 0 < j < n - m :: !IsTurn(trace[m..][j], a)
    ensures trace[m..][..n - m] == trace[m..n]
  {
  }

  lemma TurnsApart(s: Sched, canceled: bool, m: nat, n: nat, a: nat)
    requires Ready(s) && Unique(s) && m < n < |Trace(s, canceled)|
    requires Trace(s, canceled)[m] == Resumed(a) && IsTurn(Trace(s, canceled)[n], a)
    requires forall j | m < j < n :: !IsTurn(Trace(s, canceled)[j], a)
    ensures var here := After(s, canceled, m);
            && here.turn < |here.order| && here.order[here.turn].id == a && here.order[here.turn].steps != []
            && Ready(here) && Unique(here) && NextTurn(Next(here, canceled), canceled, n - m - 1, a)
            && n - m < |Trace(here, canceled)| && Trace(here, canceled)[..n - m] == Trace(s, canceled)[m..n]
  {
    hide Trace, Next, Unique, After, NextTurn, IsTurn;
    TraceFrom(s, canceled, m);
    SliceAt(Trace(s, canceled), m, n, a);
    TurnFrom(After(s, canceled, m), canceled, n - m - 1, a);
  }

  /** Whatever tasks schedule and however they end: between two resumes of one task with no turn of it in between, every
      other task that was unfinished at the first of them is resumed exactly once. */
  lemma ResumesAlternate(s: Sched, canceled: bool, m: nat, n: nat, a: nat, t: Task)
    requires Ready(s) && Unique(s) && m < n < |Trace(s, canceled)|
    requires Trace(s, canceled)[m] == Resumed(a) && Trace(s, canceled)[n] == Resumed(a)
    requires forall j | m < j < n :: !IsTurn(Trace(s, canceled)[j], a)
    requires t in After(s, canceled, m).order && t.id != a && t.steps != []
    ensures multiset(Trace(s, canceled)[m..n])[Resumed(t.id)] == 1
  {
    hide Trace, Next, Unique, After, NextTurn;
    TurnsApart(s, canceled, m, n, a);
    var here := After(s, canceled, m);
    FromTurnToTurn(here, canceled, n - m - 1, t);
    NextResumesOnce(here, canceled, n - m - 1, t.id);
  }
}
