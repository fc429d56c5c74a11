/** Round-robin scheduling on values: tasks in the order they were scheduled, and whose turn it is. */
module RoundRobinModel {

  /** A coroutine: one step a resume; in a step it may schedule other tasks. */
  datatype Task = Task(id: nat, steps: seq<Step>)

  datatype Step = Step(scheduled: seq<Task>)

  /** The unfinished tasks in scheduling order, and the index of the current one. */
  datatype Sched = Sched(order: seq<Task>, turn: nat)

  function Wrap(i: nat, n: nat): nat {
    if i == n then 0 else i
  }

  /** One iteration of Run: a finished task is dropped, another one is resumed. A canceled scheduler takes no tasks. */
  function Next(s: Sched, canceled: bool): Sched {
    if s.turn >= |s.order| then s
    else if s.order[s.turn].steps == [] then
      var rest := s.order[..s.turn] + s.order[s.turn + 1..];
      Sched(rest, Wrap(s.turn, |rest|))
    else
      var t := s.order[s.turn];
      var grown := s.order[s.turn := Task(t.id, t.steps[1..])] + if canceled then [] else t.steps[0].scheduled;
      Sched(grown, Wrap(s.turn + 1, |grown|))
  }

  // ---------------------------------------------------------------------------------------------------------------
  // Running to the end
  // ---------------------------------------------------------------------------------------------------------------

  /** How many iterations a task takes, with the tasks it schedules. */
  function Weight(t: Task): nat
    decreases t
  {
    1 + StepsWeight(t.steps)
  }

  function StepsWeight(steps: seq<Step>): nat
    decreases steps
  {
    if steps == [] then 0 else 1 + TasksWeight(steps[0].scheduled) + StepsWeight(steps[1..])
  }

  function TasksWeight(ts: seq<Task>): nat
    decreases ts
  {
    if ts == [] then 0 else Weight(ts[0]) + TasksWeight(ts[1..])
  }

  lemma {:induction false} WeightOfConcat(a: seq<Task>, b: seq<Task>)
    ensures TasksWeight(a + b) == TasksWeight(a) + TasksWeight(b)
  {
    if a == [] {
      assert a + b == b;
    } else {
      WeightOfConcat(a[1..], b);
      assert (a + b)[1..] == a[1..] + b;
    }
  }

  lemma SplitAt(ts: seq<Task>, i: nat)
    requires i < |ts|
    ensures ts == ts[..i] + [ts[i]] + ts[i + 1..]
    ensures TasksWeight(ts) == TasksWeight(ts[..i]) + Weight(ts[i]) + TasksWeight(ts[i + 1..])
  {
    assert TasksWeight([ts[i]]) == Weight(ts[i]);
    hide TasksWeight, Weight;
    assert ts == ts[..i] + [ts[i]] + ts[i + 1..];
    WeightOfConcat(ts[..i] + [ts[i]], ts[i + 1..]);
    WeightOfConcat(ts[..i], [ts[i]]);
  }

  /** Every iteration takes weight away. */
  lemma NextSpendsWeight(s: Sched, canceled: bool)
    requires s.turn < |s.order|
    ensures TasksWeight(Next(s, canceled).order) < TasksWeight(s.order)
    ensures Next(s, canceled).order == [] || Next(s, canceled).turn < |Next(s, canceled).order|
  {
    var t := s.order[s.turn];
    SplitAt(s.order, s.turn);
    if t.steps == [] {
      WeightOfConcat(s.order[..s.turn], s.order[s.turn + 1..]);
    } else {
      var resumed := s.order[s.turn := Task(t.id, t.steps[1..])];
      SplitAt(resumed, s.turn);
      assert resumed[..s.turn] == s.order[..s.turn] && resumed[s.turn + 1..] == s.order[s.turn + 1..];
      WeightOfConcat(resumed, if canceled then [] else t.steps[0].scheduled);
    }
  }

  ghost predicate Ready(s: Sched) {
    s.order == [] || s.turn < |s.order|
  }

  datatype Event = Resumed(id: nat) | Dropped(id: nat)

  /** The event of the next iteration. */
  function Upcoming(s: Sched): Event {
    if s.turn >= |s.order| then Dropped(0)
    else if s.order[s.turn].steps == [] then Dropped(s.order[s.turn].id)
    else Resumed(s.order[s.turn].id)
  }

  /** What Run does from a state to the end. */
  function Trace(s: Sched, canceled: bool): seq<Event>
    requires Ready(s)
    decreases TasksWeight(s.order)
  {
    if s.order == [] then []
    else
      NextSpendsWeight(s, canceled);
      [Upcoming(s)] + Trace(Next(s, canceled), canceled)
  }

  // ---------------------------------------------------------------------------------------------------------------
  // Nothing is lost
  // ---------------------------------------------------------------------------------------------------------------

  /** How often tasks, with the tasks they schedule, ask for an event: a resume a step, and one drop at the end. */
  function Asked(ts: seq<Task>, e: Event): nat
    decreases ts
  {
    if ts == [] then 0
    else (if e == Dropped(ts[0].id) then 1 else 0) + AskedBySteps(ts[0].id, ts[0].steps, e) + Asked(ts[1..], e)
  }

  function AskedBySteps(id: nat, steps: seq<Step>, e: Event): nat
    decreases steps
  {
    if steps == [] then 0
    else (if e == Resumed(id) then 1 else 0) + Asked(steps[0].scheduled, e) + AskedBySteps(id, steps[1..], e)
  }

  lemma {:induction false} AskedOfConcat(a: seq<Task>, b: seq<Task>, e: Event)
    ensures Asked(a + b, e) == Asked(a, e) + Asked(b, e)
  {
    if a == [] {
      assert a + b == b;
    } else {
      AskedOfConcat(a[1..], b, e);
      assert (a + b)[1..] == a[1..] + b;
    }
  }

  lemma AskedAt(ts: seq<Task>, i: nat, e: Event)
    requires i < |ts|
    ensures Asked(ts, e) == Asked(ts[..i], e) + Asked([ts[i]], e) + Asked(ts[i + 1..], e)
    ensures Asked([ts[i]], e) == (if e == Dropped(ts[i].id) then 1 else 0) + AskedBySteps(ts[i].id, ts[i].steps, e)
  {
    assert ts == ts[..i] + [ts[i]] + ts[i + 1..];
    AskedOfConcat(ts[..i] + [ts[i]], ts[i + 1..], e);
    AskedOfConcat(ts[..i], [ts[i]], e);
    assert [ts[i]][1..] == [];
  }

  lemma NextKeepsAsked(s: Sched, e: Event)
    requires s.turn < |s.order|
    ensures Asked(s.order, e) == Asked(Next(s, false).order, e) + if e == Upcoming(s) then 1 else 0
  {
    var t := s.order[s.turn];
    AskedAt(s.order, s.turn, e);
    if t.steps == [] {
      AskedOfConcat(s.order[..s.turn], s.order[s.turn + 1..], e);
    } else {
      var resumed := s.order[s.turn := Task(t.id, t.steps[1..])];
      AskedAt(resumed, s.turn, e);
      assert resumed[..s.turn] == s.order[..s.turn] && resumed[s.turn + 1..] == s.order[s.turn + 1..];
      AskedOfConcat(resumed, t.steps[0].scheduled, e);
    }
  }

  lemma CountOfPrepend(x: Event, rest: seq<Event>, e: Event)
    ensures multiset([x] + rest)[e] == multiset(rest)[e] + if e == x then 1 else 0
  {
  }

  /** Run resumes every task, scheduled before or while it runs, exactly as often as it asks for, and drops each
      one once. */
  lemma {:induction false} RunServesEveryone(s: Sched, e: Event)
    requires Ready(s)
    ensures multiset(Trace(s, false))[e] == Asked(s.order, e)
    decreases TasksWeight(s.order)
  {
    if s.order != [] {
      NextSpendsWeight(s, false);
      NextKeepsAsked(s, e);
      RunServesEveryone(Next(s, false), e);
      CountOfPrepend(Upcoming(s), Trace(Next(s, false), false), e);
    }
  }

  // ---------------------------------------------------------------------------------------------------------------
  // Rounds
  // ---------------------------------------------------------------------------------------------------------------

  /** Tasks that schedule no others. */
  ghost predicate Closed(ts: seq<Task>) {
    forall t, s | t in ts && s in t.steps :: s.scheduled == []
  }

  /** Round r, counted from 0: in order, the tasks of more than r steps are resumed, those of r steps dropped. */
  function Round(ts: seq<Task>, r: nat): seq<Event> {
    if ts == [] then [] else TurnOf(ts[0], r) + Round(ts[1..], r)
  }

  function TurnOf(t: Task, r: nat): seq<Event> {
    if |t.steps| > r then [Resumed(t.id)] else if |t.steps| == r then [Dropped(t.id)] else []
  }

  function Longest(ts: seq<Task>): nat {
    if ts == [] then 0 else var rest := Longest(ts[1..]); if |ts[0].steps| > rest then |ts[0].steps| else rest
  }

  /** Round r and the ones after it. */
  function Rounds(ts: seq<Task>, r: nat): seq<Event>
    decreases Longest(ts) + 1 - r
  {
    if r > Longest(ts) then [] else Round(ts, r) + Rounds(ts, r + 1)
  }

  /** What is left of tasks after r rounds. */
  function Left(ts: seq<Task>, r: nat): seq<Task> {
    if ts == [] then [] else LeftOf(ts[0], r) + Left(ts[1..], r)
  }

  function LeftOf(t: Task, r: nat): seq<Task> {
    if |t.steps| >= r then [Task(t.id, t.steps[r..])] else []
  }

  lemma {:induction false} LeftOfConcat(a: seq<Task>, t: Task, r: nat)
    ensures Left(a + [t], r) == Left(a, r) + LeftOf(t, r)
  {
    hide LeftOf;
    if a == [] {
      assert a + [t] == [t] && Left([t], r) == LeftOf(t, r) + Left([], r);
    } else {
      LeftOfConcat(a[1..], t, r);
      assert (a + [t])[1..] == a[1..] + [t];
    }
  }

  lemma {:induction false} NoneLeft(ts: seq<Task>, r: nat)
    requires r > Longest(ts)
    ensures Left(ts, r) == []
  {
    if ts != [] {
      NoneLeft(ts[1..], r);
    }
  }

  lemma {:induction false} AllLeft(ts: seq<Task>)
    ensures Left(ts, 0) == ts
  {
    if ts != [] {
      AllLeft(ts[1..]);
    }
  }

  /** In the middle of round r: a has had its turn, and b has not. */
  function Midway(a: seq<Task>, b: seq<Task>, r: nat): Sched {
    var order := Left(a, r + 1) + Left(b, r);
    Sched(order, Wrap(|Left(a, r + 1)|, |order|))
  }

  lemma NextDrops(before: seq<Task>, t: Task, after: seq<Task>, canceled: bool)
    requires t.steps == []
    ensures Next(Sched(before + [t] + after, |before|), canceled) == Sched(before + after, Wrap(|before|, |before + after|))
  {
    var order := before + [t] + after;
    assert order[..|before|] == before && order[|before| + 1..] == after;
  }

  lemma NextResumes(before: seq<Task>, t: Task, after: seq<Task>, canceled: bool)
    requires t.steps != [] && (canceled || t.steps[0].scheduled == [])
    ensures var order := before + [Task(t.id, t.steps[1..])] + after;
            Next(Sched(before + [t] + after, |before|), canceled) == Sched(order, Wrap(|before| + 1, |order|))
  {
    var order := before + [t] + after;
    assert order[|before| := Task(t.id, t.steps[1..])] + [] == before + [Task(t.id, t.steps[1..])] + after;
  }

  function Between(before: seq<Task>, after: seq<Task>): Sched {
    Sched(before + after, Wrap(|before|, |before + after|))
  }

  /** Midway through a round, t is next. */
  lemma MidwayAt(a: seq<Task>, b: seq<Task>, r: nat)
    requires b != []
    ensures Midway(a, b, r) == Between(Left(a, r + 1), LeftOf(b[0], r) + Left(b[1..], r))
    ensures Midway(a + [b[0]], b[1..], r) == Between(Left(a, r + 1) + LeftOf(b[0], r + 1), Left(b[1..], r))
  {
    LeftOfConcat(a, b[0], r + 1);
  }

  lemma TurnResumes(before: seq<Task>, t: Task, after: seq<Task>, r: nat, canceled: bool)
    requires |t.steps| > r && (canceled || t.steps[r].scheduled == [])
    ensures var m := Between(before, LeftOf(t, r) + after);
            && m.turn < |m.order| && Upcoming(m) == Resumed(t.id)
            && Next(m, canceled) == Between(before + LeftOf(t, r + 1), after)
  {
    var now := Task(t.id, t.steps[r..]);
    assert now.steps[1..] == t.steps[r + 1..];
    assert before + ([now] + after) == before + [now] + after;
    NextResumes(before, now, after, canceled);
  }

  lemma TurnDrops(before: seq<Task>, t: Task, after: seq<Task>, r: nat, canceled: bool)
    requires |t.steps| == r
    ensures var m := Between(before, LeftOf(t, r) + after);
            && m.turn < |m.order| && Upcoming(m) == Dropped(t.id)
            && Next(m, canceled) == Between(before + LeftOf(t, r + 1), after)
  {
    var now := Task(t.id, []);
    assert t.steps[r..] == [];
    assert before + ([now] + after) == before + [now] + after && before + [] == before;
    NextDrops(before, now, after, canceled);
  }

  lemma TurnPasses(before: seq<Task>, t: Task, after: seq<Task>, r: nat)
    requires |t.steps| < r
    ensures Between(before, LeftOf(t, r) + after) == Between(before + LeftOf(t, r + 1), after)
  {
    assert [] + after == after && before + [] == before;
  }

  lemma TurnInRound(a: seq<Task>, b: seq<Task>, r: nat, canceled: bool)
    requires b != [] && (canceled || Closed(b))
    ensures var m, n := Midway(a, b, r), Midway(a + [b[0]], b[1..], r);
            if |b[0].steps| >= r
            then m.turn < |m.order| && Next(m, canceled) == n && TurnOf(b[0], r) == [Upcoming(m)]
            else m == n && TurnOf(b[0], r) == []
  {
    var t, before, after := b[0], Left(a, r + 1), Left(b[1..], r);
    MidwayAt(a, b, r);
    assert |t.steps| > r && !canceled ==> t in b && t.steps[r] in t.steps;
    hide Midway, Left, LeftOf, Between, Next, Upcoming;
    if |t.steps| > r {
      TurnResumes(before, t, after, r, canceled);
    } else if |t.steps| == r {
      TurnDrops(before, t, after, r, canceled);
    } else {
      TurnPasses(before, t, after, r);
    }
  }

  lemma TraceStep(s: Sched, canceled: bool)
    requires s.turn < |s.order|
    ensures Ready(Next(s, canceled)) && Trace(s, canceled) == [Upcoming(s)] + Trace(Next(s, canceled), canceled)
  {
    NextSpendsWeight(s, canceled);
  }

  lemma TraceEnds(s: Sched, canceled: bool)
    requires s.order == []
    ensures Trace(s, canceled) == []
  {
  }

  lemma MidwayIsReady(a: seq<Task>, b: seq<Task>, r: nat)
    ensures Ready(Midway(a, b, r))
  {
  }

  lemma {:induction false} RestOfRound(a: seq<Task>, b: seq<Task>, r: nat, canceled: bool)
    requires canceled || Closed(b)
    ensures Ready(Midway(a, b, r)) && Ready(Midway(a + b, [], r))
    ensures Trace(Midway(a, b, r), canceled) == Round(b, r) + Trace(Midway(a + b, [], r), canceled)
    decreases |b|
  {
    MidwayIsReady(a, b, r);
    MidwayIsReady(a + b, [], r);
    hide Trace, Midway, TurnOf;
    if b == [] {
      assert a + b == a;
    } else {
      assert a + [b[0]] + b[1..] == a + b;
      RestOfRound(a + [b[0]], b[1..], r, canceled);
      OneTurn(a, b, r, canceled);
      PutTogether(TurnOf(b[0], r), Round(b[1..], r), Trace(Midway(a + b, [], r), canceled));
    }
  }

  lemma PutTogether(x: seq<Event>, y: seq<Event>, z: seq<Event>)
    ensures x + (y + z) == x + y + z
  {
  }

  lemma OneTurn(a: seq<Task>, b: seq<Task>, r: nat, canceled: bool)
    requires b != [] && (canceled || Closed(b))
    ensures Ready(Midway(a, b, r)) && Ready(Midway(a + [b[0]], b[1..], r))
    ensures Trace(Midway(a, b, r), canceled) == TurnOf(b[0], r) + Trace(Midway(a + [b[0]], b[1..], r), canceled)
  {
    MidwayIsReady(a, b, r);
    MidwayIsReady(a + [b[0]], b[1..], r);
    TurnInRound(a, b, r, canceled);
    hide Trace, Midway, TurnOf, Upcoming, Next;
    if |b[0].steps| >= r {
      TraceStep(Midway(a, b, r), canceled);
    } else {
      assert [] + Trace(Midway(a, b, r), canceled) == Trace(Midway(a, b, r), canceled);
    }
  }

  /** For tasks that schedule no others, or cannot, Run goes round by round. */
  lemma {:induction false} RunGoesInRounds(ts: seq<Task>, r: nat, canceled: bool)
    requires canceled || Closed(ts)
    ensures Trace(Sched(Left(ts, r), 0), canceled) == Rounds(ts, r)
    decreases Longest(ts) + 1 - r
  {
    if r > Longest(ts) {
      NoneLeft(ts, r);
    } else {
      RestOfRound([], ts, r, canceled);
      RoundBounds(ts, r);
      hide Trace, Left, Round, Midway;
      RunGoesInRounds(ts, r + 1, canceled);
    }
  }

  /** A round starts and ends with the first task. */
  lemma RoundBounds(ts: seq<Task>, r: nat)
    ensures Midway([], ts, r) == Sched(Left(ts, r), 0)
    ensures Midway([] + ts, [], r) == Sched(Left(ts, r + 1), 0)
  {
    assert [] + ts == ts && Left(ts, r + 1) + [] == Left(ts, r + 1) && [] + Left(ts, r) == Left(ts, r);
  }

  lemma RunIsRounds(ts: seq<Task>, canceled: bool)
    requires canceled || Closed(ts)
    ensures Trace(Sched(ts, 0), canceled) == Rounds(ts, 0)
  {
    AllLeft(ts);
    RunGoesInRounds(ts, 0, canceled);
  }
}
