/** The round-robin scheduler: a circular list of coroutine wrappers, changed while it is traversed. */
module RoundRobin {
  import opened RoundRobinModel

  class CoroWrapper {
    var handle: Task
    var prev: CoroWrapper?
    var next: CoroWrapper?

    constructor (handle: Task)
      ensures this.handle == handle && prev == null && next == null
    {
      this.handle, prev, next := handle, null, null;
    }
  }

  // ---------------------------------------------------------------------------------------------------------------
  // Rings
  // ---------------------------------------------------------------------------------------------------------------

  /** What the fields of a wrapper hold, and a snapshot of some wrappers. */
  datatype Fields = Fields(handle: Task, prev: CoroWrapper?, next: CoroWrapper?)

  type Store = map<CoroWrapper, Fields>

  ghost function StoreOf(nodes: set<CoroWrapper>): Store
    reads nodes
  {
    map n | n in nodes :: Fields(n.handle, n.prev, n.next)
  }

  function Before(i: nat, n: nat): nat
    requires 0 < n
  {
    if i == 0 then n - 1 else i - 1
  }

  ghost predicate Distinct(ring: seq<CoroWrapper>) {
    forall i, j | 0 <= i < |ring| && 0 <= j < |ring| && i != j :: ring[i] != ring[j]
  }

  /** Wrapper i of the ring is linked with its neighbours. */
  ghost predicate LinkedAt(ring: seq<CoroWrapper>, k: Store, i: nat) {
    i < |ring| ==>
      && ring[i] in k && k[ring[i]].next == ring[Wrap(i + 1, |ring|)] && k[ring[i]].prev == ring[Before(i, |ring|)]
  }

  /** The wrappers are distinct, and linked in a circle in both directions. */
  ghost predicate Linked(ring: seq<CoroWrapper>, k: Store) {
    Distinct(ring) && k.Keys == Members(ring) && forall i: nat :: LinkedAt(ring, k, i)
  }

  ghost function Members(ring: seq<CoroWrapper>): set<CoroWrapper> {
    set n | n in ring
  }

  ghost function HandleAt(ring: seq<CoroWrapper>, k: Store, i: nat): Task {
    if i < |ring| && ring[i] in k then k[ring[i]].handle else Task(0, [])
  }

  ghost function Handles(ring: seq<CoroWrapper>, k: Store): (h: seq<Task>)
    ensures |h| == |ring|
  {
    seq(|ring|, i requires 0 <= i < |ring| => HandleAt(ring, k, i))
  }

  /** The store after a wrapper n is linked in behind the last one. */
  ghost function LinkedIn(k: Store, last: CoroWrapper, n: CoroWrapper, task: Task): Store
    requires last in k && k[last].next != null && k[last].next in k
  {
    var k1 := k[n := Fields(task, last, k[last].next)];
    var k2 := k1[k[last].next := k1[k[last].next].(prev := n)];
    k2[last := k2[last].(next := n)]
  }

  lemma LinkInAt(ring: seq<CoroWrapper>, k: Store, n: CoroWrapper, task: Task, i: nat)
    requires ring != [] && Linked(ring, k) && n !in k && n !in ring
    ensures var last := ring[|ring| - 1];
            && last in k && k[last].next == ring[0] && ring[0] in k
            && LinkedAt(ring + [n], LinkedIn(k, last, n, task), i)
            && (i < |ring| ==> HandleAt(ring + [n], LinkedIn(k, last, n, task), i) == HandleAt(ring, k, i))
            && HandleAt(ring + [n], LinkedIn(k, last, n, task), |ring|) == task
            && LinkedIn(k, last, n, task).Keys == k.Keys + {n}
  {
    var last := |ring| - 1;
    assert LinkedAt(ring, k, last) && LinkedAt(ring, k, 0) && LinkedAt(ring, k, i);
    hide Linked;
  }

  lemma AppendMember(ring: seq<CoroWrapper>, n: CoroWrapper)
    requires Distinct(ring) && n !in ring
    ensures Distinct(ring + [n]) && Members(ring + [n]) == Members(ring) + {n}
  {
  }

  lemma LinkInLast(ring: seq<CoroWrapper>, k: Store, n: CoroWrapper, task: Task)
    requires ring != [] && Linked(ring, k) && n !in k
    ensures var last := ring[|ring| - 1];
            && last in k && k[last].next == ring[0] && ring[0] in k
            && Linked(ring + [n], LinkedIn(k, last, n, task))
            && Handles(ring + [n], LinkedIn(k, last, n, task)) == Handles(ring, k) + [task]
  {
    assert n !in ring;
    AppendMember(ring, n);
    LinkInAt(ring, k, n, task, 0);
    hide LinkedAt, HandleAt, LinkedIn, Distinct, Members;
    var r2, k2 := ring + [n], LinkedIn(k, ring[|ring| - 1], n, task);
    forall i: nat
      ensures LinkedAt(r2, k2, i) && (i < |ring| ==> HandleAt(r2, k2, i) == HandleAt(ring, k, i))
    {
      LinkInAt(ring, k, n, task, i);
    }
    assert Linked(r2, k2);
  }

  lemma LinkAlone(ring: seq<CoroWrapper>, k: Store, n: CoroWrapper, task: Task)
    requires ring == [] && Linked(ring, k)
    ensures k == map[] && Linked(ring + [n], map[n := Fields(task, n, n)])
    ensures Handles(ring + [n], map[n := Fields(task, n, n)]) == Handles(ring, k) + [task]
  {
  }

  /** The store after a wrapper n is unlinked. */
  ghost function LinkedOut(k: Store, n: CoroWrapper): Store
    requires n in k && k[n].prev != null && k[n].prev in k && k[n].next != null && k[n].next in k
  {
    var k1 := k[k[n].prev := k[k[n].prev].(next := k[n].next)];
    var k2 := k1[k[n].next := k1[k[n].next].(prev := k[n].prev)];
    k2 - {n}
  }

  ghost function Without(ring: seq<CoroWrapper>, c: nat): seq<CoroWrapper>
    requires c < |ring|
  {
    ring[..c] + ring[c + 1..]
  }

  lemma Neighbours(ring: seq<CoroWrapper>, k: Store, c: nat)
    requires c < |ring| && |ring| > 1 && Linked(ring, k)
    ensures var n, p, q := ring[c], ring[Before(c, |ring|)], ring[Wrap(c + 1, |ring|)];
            && n in k && p in k && q in k && k[n].prev == p && k[n].next == q && n != p && n != q
            && q == Without(ring, c)[Wrap(c, |ring| - 1)]
            && (if c == |ring| - 1 then p else ring[|ring| - 1]) == Without(ring, c)[|ring| - 2]
  {
    assert LinkedAt(ring, k, c) && LinkedAt(ring, k, Before(c, |ring|)) && LinkedAt(ring, k, Wrap(c + 1, |ring|));
    hide LinkedAt;
  }

  /** Where wrapper i of the ring without wrapper c was before. */
  function Origin(i: nat, c: nat): nat {
    if i < c then i else i + 1
  }

  lemma WithoutAt(ring: seq<CoroWrapper>, c: nat, i: nat)
    requires c < |ring| && |ring| > 1 && i < |ring| - 1
    ensures var r, j, size := Without(ring, c), Origin(i, c), |ring|;
            && |r| == size - 1 && r[i] == ring[j] && j != c
            && r[Wrap(i + 1, size - 1)] == ring[if Wrap(j + 1, size) == c then Wrap(c + 1, size) else Wrap(j + 1, size)]
            && r[Before(i, size - 1)] == ring[if Before(j, size) == c then Before(c, size) else Before(j, size)]
  {
  }

  lemma LinkOutAt(ring: seq<CoroWrapper>, k: Store, c: nat, i: nat)
    requires c < |ring| && |ring| > 1 && Linked(ring, k) && i < |ring| - 1
    ensures ring[c] in k && k[ring[c]].prev != null && k[ring[c]].prev in k
    ensures k[ring[c]].next != null && k[ring[c]].next in k
    ensures LinkedAt(Without(ring, c), LinkedOut(k, ring[c]), i)
    ensures HandleAt(Without(ring, c), LinkedOut(k, ring[c]), i) == HandleAt(ring, k, Origin(i, c))
  {
    Neighbours(ring, k, c);
    assert LinkedAt(ring, k, Origin(i, c)) && Distinct(ring);
    WithoutAt(ring, c, i);
    hide Linked, Without, LinkedOut, Distinct;
    LinkOutNode(ring, k, c, Origin(i, c));
  }

  lemma LinkOutNode(ring: seq<CoroWrapper>, k: Store, c: nat, j: nat)
    requires c < |ring| && j < |ring| && |ring| > 1 && j != c && Distinct(ring)
    requires ring[j] in k && k[ring[j]].next == ring[Wrap(j + 1, |ring|)] && k[ring[j]].prev == ring[Before(j, |ring|)]
    requires ring[c] in k && k[ring[c]].next == ring[Wrap(c + 1, |ring|)] && k[ring[c]].prev == ring[Before(c, |ring|)]
    requires k[ring[c]].prev in k && k[ring[c]].next in k
    ensures var r := LinkedOut(k, ring[c]);
            && ring[j] in r && r[ring[j]].handle == k[ring[j]].handle
            && r[ring[j]].next == ring[if Wrap(j + 1, |ring|) == c then Wrap(c + 1, |ring|) else Wrap(j + 1, |ring|)]
            && r[ring[j]].prev == ring[if Before(j, |ring|) == c then Before(c, |ring|) else Before(j, |ring|)]
  {
  }

  lemma RemoveMember(ring: seq<CoroWrapper>, c: nat)
    requires c < |ring| && Distinct(ring)
    ensures Distinct(Without(ring, c)) && Members(Without(ring, c)) == Members(ring) - {ring[c]}
  {
    forall n
      ensures n in Without(ring, c) <==> n in ring && n != ring[c]
    {
      if n in ring && n != ring[c] {
        var j :| 0 <= j < |ring| && ring[j] == n;
        assert n == Without(ring, c)[if j < c then j else j - 1];
      }
    }
  }

  lemma LinkOut(ring: seq<CoroWrapper>, k: Store, c: nat)
    requires c < |ring| && |ring| > 1 && Linked(ring, k)
    ensures ring[c] in k && k[ring[c]].prev != null && k[ring[c]].prev in k
    ensures k[ring[c]].next != null && k[ring[c]].next in k
    ensures Linked(Without(ring, c), LinkedOut(k, ring[c]))
    ensures Handles(Without(ring, c), LinkedOut(k, ring[c])) == Handles(ring, k)[..c] + Handles(ring, k)[c + 1..]
  {
    Neighbours(ring, k, c);
    RemoveMember(ring, c);
    assert LinkedOut(k, ring[c]).Keys == k.Keys - {ring[c]};
    hide LinkedAt, HandleAt, LinkedOut, Distinct, Members;
    forall i: nat
      ensures LinkedAt(Without(ring, c), LinkedOut(k, ring[c]), i)
      ensures i < |ring| - 1 ==> HandleAt(Without(ring, c), LinkedOut(k, ring[c]), i) == HandleAt(ring, k, Origin(i, c))
    {
      if i < |ring| - 1 {
        LinkOutAt(ring, k, c, i);
      } else {
        BeyondRing(Without(ring, c), LinkedOut(k, ring[c]), i);
      }
    }
  }

  lemma BeyondRing(ring: seq<CoroWrapper>, k: Store, i: nat)
    requires i >= |ring|
    ensures LinkedAt(ring, k, i)
  {
  }

  // ---------------------------------------------------------------------------------------------------------------
  // The scheduler
  // ---------------------------------------------------------------------------------------------------------------

  /** The fields of a scheduler that has this ring and turn. */
  ghost predicate Coherent(ring: seq<CoroWrapper>, turn: nat, taskCount: int, curr: CoroWrapper?, last: CoroWrapper?,
                           k: Store)
  {
    && Linked(ring, k) && taskCount == |ring|
    && (if ring == [] then curr == null && turn == 0
        else turn < |ring| && curr == ring[turn] && last == ring[|ring| - 1])
  }

  lemma ScheduleFirst(ring: seq<CoroWrapper>, turn: nat, taskCount: int, curr: CoroWrapper?, last: CoroWrapper?, k: Store,
                      n: CoroWrapper, task: Task)
    requires Coherent(ring, turn, taskCount, curr, last, k) && curr == null
    ensures ring == [] && k == map[]
    ensures var after := map[n := Fields(task, n, n)];
            && Coherent(ring + [n], turn, taskCount + 1, n, n, after)
            && Handles(ring + [n], after) == Handles(ring, k) + [task]
  {
    LinkAlone(ring, k, n, task);
  }

  lemma ScheduleNext(ring: seq<CoroWrapper>, turn: nat, taskCount: int, curr: CoroWrapper?, last: CoroWrapper?, k: Store,
                     n: CoroWrapper, task: Task)
    requires Coherent(ring, turn, taskCount, curr, last, k) && curr != null && n !in k
    ensures last != null && last in k && k[last].next != null && k[last].next in k
    ensures var after := LinkedIn(k, last, n, task);
            && Coherent(ring + [n], turn, taskCount + 1, curr, n, after)
            && Handles(ring + [n], after) == Handles(ring, k) + [task]
  {
    LinkInLast(ring, k, n, task);
  }

  /** What the current wrapper tells of the ring. */
  lemma CurrentIs(ring: seq<CoroWrapper>, turn: nat, taskCount: int, curr: CoroWrapper?, last: CoroWrapper?, k: Store)
    requires Coherent(ring, turn, taskCount, curr, last, k)
    ensures curr == null <==> Handles(ring, k) == []
    ensures curr == null ==> k == map[] && taskCount == 0
    ensures Ready(Sched(Handles(ring, k), turn))
    ensures curr != null ==>
              && curr in k && last != null && last in k && turn < |ring| && k[curr].handle == Handles(ring, k)[turn]
              && k[curr].prev != null && k[curr].prev in k && k[curr].next != null && k[curr].next in k
              && (k[curr].next == curr <==> |ring| == 1) && (|ring| == 1 ==> k.Keys == {curr})
              && Coherent(ring, Wrap(turn + 1, |ring|), taskCount, k[curr].next, last, k)
  {
    if curr != null {
      assert LinkedAt(ring, k, turn) && LinkedAt(ring, k, Before(turn, |ring|));
      assert LinkedAt(ring, k, Wrap(turn + 1, |ring|));
      assert LinkedAt(ring, k, |ring| - 1);
      hide LinkedAt;
    }
  }

  lemma AdvanceHandle(ring: seq<CoroWrapper>, turn: nat, taskCount: int, curr: CoroWrapper?, last: CoroWrapper?,
                      k: Store, task: Task)
    requires Coherent(ring, turn, taskCount, curr, last, k) && curr != null && curr in k
    ensures var after := k[curr := k[curr].(handle := task)];
            && Coherent(ring, turn, taskCount, curr, last, after)
            && turn < |ring| && Handles(ring, after) == Handles(ring, k)[turn := task]
  {
    var after := k[curr := k[curr].(handle := task)];
    forall i: nat
      ensures LinkedAt(ring, after, i)
    {
      assert LinkedAt(ring, k, i);
    }
    assert LinkedAt(ring, k, turn);
    hide LinkedAt;
  }

  lemma DropCurrent(ring: seq<CoroWrapper>, turn: nat, taskCount: int, curr: CoroWrapper?, last: CoroWrapper?, k: Store)
    requires Coherent(ring, turn, taskCount, curr, last, k) && curr != null && |ring| > 1
    ensures turn < |ring| && curr in k && k[curr].prev != curr && k[curr].next != curr
    ensures k[curr].prev != null && k[curr].prev in k && k[curr].next != null && k[curr].next in k
    ensures var after := LinkedOut(k, curr);
            && Coherent(Without(ring, turn), Wrap(turn, |ring| - 1), taskCount - 1, k[curr].next,
                        if last == curr then k[curr].prev else last, after)
            && Handles(Without(ring, turn), after) == Handles(ring, k)[..turn] + Handles(ring, k)[turn + 1..]
  {
    LinkOut(ring, k, turn);
    Neighbours(ring, k, turn);
    assert last == curr <==> turn == |ring| - 1;
    hide Linked, LinkedOut, Handles;
  }

  ghost predicate Apart(freed: set<CoroWrapper>, nodes: set<CoroWrapper>) {
    freed !! nodes
  }

  class RoundRobinScheduler {
    var taskCount: int
    var curr: CoroWrapper?
    var last: CoroWrapper?
    var canceled: bool
    /** The ring from last.next round to last, and where curr is in it. */
    ghost var ring: seq<CoroWrapper>
    ghost var turn: nat
    ghost var nodes: set<CoroWrapper>
    /** The wrappers deleted so far, and what Run did. */
    ghost var freed: set<CoroWrapper>
    ghost var events: seq<Event>

    ghost function Snapshot(): Store
      reads this`nodes, nodes
    {
      StoreOf(nodes)
    }

    /** The unfinished tasks in the order they were scheduled, and whose turn it is. */
    ghost function View(): Sched
      reads this`ring, this`turn, this`nodes, nodes
    {
      Sched(Handles(ring, Snapshot()), turn)
    }

    ghost predicate Valid()
      reads this, nodes
    {
      Coherent(ring, turn, taskCount, curr, last, Snapshot()) && Apart(freed, nodes)
    }

    constructor ()
      ensures Valid() && ring == [] && nodes == {} && curr == null && !canceled && freed == {} && events == []
    {
      taskCount, curr, last, canceled := 0, null, null, false;
      ring, turn, nodes, freed, events := [], 0, {}, {}, [];
    }

    /** Schedules a task behind all others, unless the scheduler is canceled. */
    method Schedule(task: Task)
      requires Valid()
      modifies this`taskCount, this`curr, this`last, this`ring, this`nodes, nodes`prev, nodes`next
      ensures Valid() && fresh(nodes - old(nodes)) && old(nodes) <= nodes
      ensures View() == if canceled then old(View()) else Sched(old(View()).order + [task], turn)
      ensures old(curr) != null ==> curr == old(curr)
    {
      if canceled {
        return;
      }
      var coro := new CoroWrapper(task);
      hide RoundRobinScheduler.Valid, RoundRobinScheduler.View;
      if curr == null {
        LinkFirst(coro);
      } else {
        LinkBehind(coro);
      }
    }

    /** The branch of Schedule for an empty ring. */
    method LinkFirst(coro: CoroWrapper)
      requires Valid() && curr == null && coro !in nodes && coro !in freed
      modifies this`taskCount, this`curr, this`last, this`ring, this`nodes, coro`prev, coro`next
      ensures Valid() && nodes == old(nodes) + {coro}
      ensures View() == Sched(old(View()).order + [coro.handle], turn)
    {
      ScheduleFirst(ring, turn, taskCount, curr, last, Snapshot(), coro, coro.handle);
      assert nodes == Snapshot().Keys == {};
      hide Coherent, Handles;
      coro.prev := coro;
      coro.next := coro;
      curr := coro;
      last := curr;
      taskCount, ring, nodes := taskCount + 1, ring + [coro], nodes + {coro};
      assert Snapshot() == map[coro := Fields(coro.handle, coro, coro)];
    }

    /** The branch of Schedule for a ring with tasks. */
    method LinkBehind(coro: CoroWrapper)
      requires Valid() && curr != null && coro !in nodes && coro !in freed
      modifies this`taskCount, this`last, this`ring, this`nodes, coro`prev, coro`next, nodes`prev, nodes`next
      ensures Valid() && nodes == old(nodes) + {coro}
      ensures View() == Sched(old(View()).order + [coro.handle], turn)
    {
      LinkedInAhead(coro);
      hide Coherent, Handles, StoreOf, RoundRobinScheduler.Linking, Apart;
      RelinkLast(coro);
      TakeIn(coro);
    }

    /** The linked wrapper becomes the last one. */
    method TakeIn(coro: CoroWrapper)
      requires Coherent(ring + [coro], turn, taskCount + 1, curr, coro, StoreOf(nodes + {coro}))
      modifies this`taskCount, this`last, this`ring, this`nodes
      ensures nodes == old(nodes) + {coro} && Coherent(ring, turn, taskCount, curr, last, Snapshot())
      ensures View() == Sched(Handles(old(ring) + [coro], StoreOf(old(nodes) + {coro})), turn)
    {
      hide Coherent, Handles;
      last := coro;
      taskCount, ring, nodes := taskCount + 1, ring + [coro], nodes + {coro};
    }

    /** The snapshot once a wrapper is linked in behind the last one. */
    ghost function Linking(coro: CoroWrapper): Store
      reads this`nodes, this`last, nodes, coro`handle
    {
      var k := Snapshot();
      if last != null && last in k && k[last].next != null && k[last].next in k
      then LinkedIn(k, last, coro, coro.handle) else map[]
    }

    method RelinkLast(coro: CoroWrapper)
      requires coro !in nodes && last != null && last in nodes && last.next != null && last.next in nodes
      modifies coro`prev, coro`next, nodes`prev, nodes`next
      ensures StoreOf(nodes + {coro}) == old(Linking(coro))
    {
      coro.prev := last;
      coro.next := last.next;
      last.next.prev := coro;
      last.next := coro;
    }

    /** What linking a wrapper in leaves, seen before it. */
    lemma LinkedInAhead(coro: CoroWrapper)
      requires Valid() && curr != null && coro !in nodes && coro !in freed
      ensures Apart(freed, nodes + {coro})
      ensures last != null && last in nodes && last.next != null && last.next in nodes
      ensures Coherent(ring + [coro], turn, taskCount + 1, curr, coro, Linking(coro))
      ensures Handles(ring + [coro], Linking(coro)) == View().order + [coro.handle]
    {
      ScheduleNext(ring, turn, taskCount, curr, last, Snapshot(), coro, coro.handle);
      hide Coherent, Handles, LinkedIn;
    }

    lemma CurrentAhead()
      requires Valid()
      ensures Ready(View()) && (curr == null <==> View().order == []) && (curr == null ==> nodes == {} && taskCount == 0)
      ensures curr != null ==>
                && curr in nodes && last != null && last in nodes
                && turn < |View().order| && curr.handle == View().order[turn]
                && curr.prev != null && curr.prev in nodes && curr.next != null && curr.next in nodes
                && (curr.next == curr <==> |ring| == 1) && (|ring| == 1 ==> nodes == {curr})
                && Upcoming(View()) == if curr.handle.steps == [] then Dropped(curr.handle.id) else Resumed(curr.handle.id)
    {
      assert Snapshot().Keys == nodes;
      CurrentIs(ring, turn, taskCount, curr, last, Snapshot());
    }

    /** delete, of a wrapper that was not deleted before. */
    method Delete(coro: CoroWrapper)
      requires Coherent(ring, turn, taskCount, curr, last, Snapshot())
      requires Apart(freed, nodes) && coro !in freed && coro !in nodes
      modifies this`freed, this`events
      ensures Valid() && freed == old(freed) + {coro} && events == old(events) + [Dropped(coro.handle.id)]
    {
      hide Coherent;
      freed, events := freed + {coro}, events + [Dropped(coro.handle.id)];
    }

    /** Run's branch for a finished task that is the only one left. */
    method DropOnly()
      requires Valid() && curr != null && curr.next == curr && curr.handle.steps == []
      modifies this`taskCount, this`curr, this`last, this`ring, this`turn, this`nodes, this`freed, this`events
      ensures Valid() && View() == Next(old(View()), canceled)
      ensures nodes == old(nodes) - {old(curr)}
      ensures freed == old(freed) + {old(curr)} && events == old(events) + [Dropped(old(curr.handle.id))]
    {
      CurrentAhead();
      assert View().order[..0] + View().order[1..] == [];
      taskCount := taskCount - 1;
      freed, events := freed + {curr}, events + [Dropped(curr.handle.id)];
      last := null;
      curr := null;
      ring, turn, nodes := [], 0, {};
    }

    /** The snapshot once the current wrapper is unlinked. */
    ghost function Unlinking(): Store
      reads this`nodes, this`curr, nodes
    {
      var k := Snapshot();
      if curr != null && curr in k
         && k[curr].prev != null && k[curr].prev in k && k[curr].next != null && k[curr].next in k
      then LinkedOut(k, curr) else map[]
    }

    /** The last wrapper once the current one is unlinked. */
    ghost function Tail(): CoroWrapper?
      reads this`last, this`curr, curr
    {
      if curr != null && last == curr then curr.prev else last
    }

    /** What unlinking the current wrapper leaves, seen before it. */
    lemma DropAhead() returns (next: Sched)
      requires Valid() && curr != null && curr.next != curr && curr.handle.steps == []
      ensures turn < |ring| && curr in nodes && last != null && curr.prev != curr
      ensures curr.prev != null && curr.prev in nodes && curr.next != null && curr.next in nodes
      ensures Coherent(Without(ring, turn), next.turn, taskCount - 1, curr.next, Tail(), Unlinking())
      ensures next == Next(View(), canceled) && next.order == Handles(Without(ring, turn), Unlinking())
    {
      CurrentAhead();
      DropCurrent(ring, turn, taskCount, curr, last, Snapshot());
      next := Next(View(), canceled);
      hide Coherent, Handles, LinkedOut, Without;
    }

    /** Run's branch for another finished task, but for the deletion of its wrapper. */
    method DropOne() returns (temp: CoroWrapper)
      requires Valid() && curr != null && curr.next != curr && curr.handle.steps == []
      modifies this`taskCount, this`curr, this`last, this`ring, this`turn, this`nodes, nodes`prev, nodes`next
      ensures Coherent(ring, turn, taskCount, curr, last, Snapshot()) && View() == Next(old(View()), canceled)
      ensures temp == old(curr) && temp in old(nodes) && nodes == old(nodes) - {temp}
    {
      ghost var next := DropAhead();
      hide Coherent, Handles, StoreOf, Without, Next, Apart, RoundRobinScheduler.Unlinking, RoundRobinScheduler.Tail;
      ghost var rest, left := Without(ring, turn), nodes - {curr};
      Unlink();
      temp := curr;
      MoveOn(rest, next.turn, left);
    }

    /** The turn passes from the unlinked wrapper to the next one. */
    method MoveOn(ghost ring: seq<CoroWrapper>, ghost turn: nat, ghost nodes: set<CoroWrapper>)
      requires curr != null && Coherent(ring, turn, taskCount - 1, curr.next, last, StoreOf(nodes))
      modifies this`curr, this`taskCount, this`ring, this`turn, this`nodes
      ensures this.nodes == nodes && Coherent(this.ring, this.turn, taskCount, curr, last, Snapshot())
      ensures View() == Sched(Handles(ring, StoreOf(nodes)), turn)
    {
      hide Coherent, Handles;
      curr := curr.next;
      taskCount := taskCount - 1;
      this.ring, this.turn, this.nodes := ring, turn, nodes;
    }

    /** Links the neighbours of the current wrapper with each other, and moves the tail off it. */
    method Unlink()
      requires curr != null && curr in nodes
      requires curr.prev != null && curr.prev in nodes && curr.next != null && curr.next in nodes
      requires curr.next != curr && curr.prev != curr
      modifies this`last, nodes`prev, nodes`next
      ensures last == old(Tail()) && curr.next == old(curr.next)
      ensures StoreOf(nodes - {curr}) == old(Unlinking())
    {
      curr.prev.next := curr.next;
      curr.next.prev := curr.prev;
      if last == curr {
        last := curr.prev;
      }
    }

    /** Run's branch for a task that is not finished: it runs to its next suspension, scheduling others as it goes. */
    method ResumeCurrent()
      requires Valid() && curr != null && curr.handle.steps != []
      modifies this`taskCount, this`curr, this`last, this`ring, this`turn, this`nodes, this`events, nodes
      ensures Valid() && View() == Next(old(View()), canceled)
      ensures old(nodes) <= nodes && fresh(nodes - old(nodes))
      ensures events == old(events) + [Upcoming(old(View()))]
    {
      ResumeAhead();
      AdvanceHandle(ring, turn, taskCount, curr, last, Snapshot(), Task(curr.handle.id, curr.handle.steps[1..]));
      ghost var k := Snapshot();
      hide Coherent, Handles;
      var step := curr.handle.steps[0];
      events := events + [Resumed(curr.handle.id)];
      curr.handle := Task(curr.handle.id, curr.handle.steps[1..]);
      assert Snapshot() == k[curr := k[curr].(handle := curr.handle)];
      ScheduleAll(step.scheduled);
      PassTurn();
    }

    lemma ResumeAhead()
      requires Valid() && curr != null && curr.handle.steps != []
      ensures var t := curr.handle;
              && curr in nodes && turn < |View().order| && Upcoming(View()) == Resumed(t.id)
              && var grown := View().order[turn := Task(t.id, t.steps[1..])] + if canceled then [] else t.steps[0].scheduled;
                 Next(View(), canceled) == Sched(grown, Wrap(turn + 1, |grown|))
    {
      CurrentAhead();
    }

    /** What a task does with the scheduler between two suspensions. */
    method ScheduleAll(tasks: seq<Task>)
      requires Valid() && curr != null
      modifies this`taskCount, this`curr, this`last, this`ring, this`nodes, nodes`prev, nodes`next
      ensures Valid() && curr == old(curr) && old(nodes) <= nodes && fresh(nodes - old(nodes))
      ensures View() == Sched(old(View()).order + if canceled then [] else tasks, turn)
    {
      var i := 0;
      ghost var order := View().order;
      hide Coherent, Handles;
      while i < |tasks|
        invariant 0 <= i <= |tasks| && Valid() && curr == old(curr)
        invariant old(nodes) <= nodes && fresh(nodes - old(nodes))
        invariant View() == Sched(order + if canceled then [] else tasks[..i], turn)
      {
        Schedule(tasks[i]);
        assert !canceled ==> order + tasks[..i] + [tasks[i]] == order + tasks[..i + 1];
        i := i + 1;
      }
      assert tasks[..i] == tasks;
    }

    /** curr_ = curr_->next. */
    method PassTurn()
      requires Valid() && curr != null
      modifies this`curr, this`turn
      ensures Valid() && View() == Sched(old(View()).order, Wrap(old(turn) + 1, |old(View()).order|))
    {
      CurrentIs(ring, turn, taskCount, curr, last, Snapshot());
      hide Coherent, Handles;
      turn := Wrap(turn + 1, |ring|);
      curr := curr.next;
    }

    /** One iteration of Run. */
    method Iterate()
      requires Valid() && curr != null
      modifies this`taskCount, this`curr, this`last, this`ring, this`turn, this`nodes, this`freed, this`events, nodes
      ensures Valid() && View() == Next(old(View()), canceled)
      ensures events == old(events) + [Upcoming(old(View()))]
      ensures old(nodes) + old(freed) <= nodes + freed && fresh(nodes - old(nodes))
    {
      CurrentAhead();
      hide RoundRobinScheduler.Valid, RoundRobinScheduler.View, Next, Upcoming;
      if curr.handle.steps == [] {
        if curr.next == curr {
          DropOnly();
        } else {
          var temp := DropOne();
          Delete(temp);
        }
      } else {
        ResumeCurrent();
      }
    }

    /** Run: every scheduled coroutine runs to its end, in the order of the round-robin model; at the end every
        wrapper is deleted. */
    method Run()
      requires Valid() && curr != null
      modifies this`taskCount, this`curr, this`last, this`ring, this`turn, this`nodes, this`freed, this`events, nodes
      ensures Valid() && curr == null && taskCount == 0 && nodes == {} && old(nodes) + old(freed) <= freed
      ensures Ready(old(View())) && events == old(events) + Trace(old(View()), canceled)
    {
      CurrentAhead();
      hide RoundRobinScheduler.Valid, RoundRobinScheduler.View, Next, Upcoming, Ready, Trace, TasksWeight;
      ghost var goal := events + Trace(View(), canceled);
      while curr != null
        invariant Valid() && Ready(View()) && events + Trace(View(), canceled) == goal
        invariant old(nodes) + old(freed) <= nodes + freed && fresh(nodes - old(nodes))
        decreases TasksWeight(View().order)
      {
        CurrentAhead();
        ghost var before, view := events, View();
        NextSpendsWeight(view, canceled);
        TraceStep(view, canceled);
        PutTogether(before, [Upcoming(view)], Trace(Next(view, canceled), canceled));
        Iterate();
      }
      CurrentAhead();
      TraceEnds(View(), canceled);
    }
  }
}
