/** The compare-and-swap loop that moves `head_` down, run by any number of threads in any interleaving. */
module BumpPointer {

  datatype Demand = Demand(bytes: nat, alignment: nat)

  /** A thread between its read of `head_` and the outcome of its compare-and-swap; `successes` is history: how many
      regions had been handed out when it read. */
  datatype Thread = Outside | Loaded(seen: int, demand: Demand, successes: nat)

  datatype Region = Region(start: int, demand: Demand)

  /** `handed` lists the regions in the order in which their compare-and-swaps succeeded. */
  datatype Bump = Bump(lo: nat, hi: nat, head: int, threads: map<nat, Thread>, handed: seq<Region>)
  {
    function Thread(t: nat): Thread { if t in threads then threads[t] else Outside }
  }

  datatype Action = Load(t: nat, demand: Demand) | Attempt(t: nat)

  predicate ValidDemand(d: Demand) {
    0 < d.alignment <= d.bytes
  }

  function Target(head: int, d: Demand): int
    requires d.alignment > 0
  {
    head - head % d.alignment - d.bytes
  }

  predicate Enabled(s: Bump, a: Action) {
    match a
    case Load(t, demand) => s.Thread(t).Outside? && ValidDemand(demand)
    case Attempt(t) => s.Thread(t).Loaded? && s.Thread(t).demand.alignment > 0
  }

  /** The last case is `compare_exchange_strong` storing the current head in the expected value. */
  function Apply(s: Bump, a: Action): Bump
    requires Enabled(s, a)
  {
    match a
    case Load(t, demand) => s.(threads := s.threads[t := Loaded(s.head, demand, |s.handed|)])
    case Attempt(t) =>
      var th := s.Thread(t);
      var d := Target(th.seen, th.demand);
      if d < s.lo then s.(threads := s.threads[t := Outside])
      else if s.head == th.seen then
        s.(head := d, threads := s.threads[t := Outside], handed := s.handed + [Region(d, th.demand)])
      else s.(threads := s.threads[t := Loaded(s.head, th.demand, |s.handed|)])
  }

  ghost predicate IsRun(states: seq<Bump>, actions: seq<Action>) {
    && |states| == |actions| + 1
    && states[0].lo <= states[0].hi && states[0].head == states[0].hi
    && states[0].threads == map[] && states[0].handed == []
    && forall i | 0 <= i < |actions| :: Enabled(states[i], actions[i]) && states[i + 1] == Apply(states[i], actions[i])
  }

  ghost predicate AllValid(handed: seq<Region>) {
    forall i | 0 <= i < |handed| :: ValidDemand(handed[i].demand)
  }

  /** Where a single thread that serves the demands one after the other has its head after the first n of them. */
  ghost function SequentialHead(hi: int, handed: seq<Region>, n: nat): int
    requires n <= |handed| && AllValid(handed)
  {
    if n == 0 then hi else Target(SequentialHead(hi, handed, n - 1), handed[n - 1].demand)
  }

  lemma {:induction false} SequentialHeadOfPrefix(hi: int, handed: seq<Region>, r: Region, n: nat)
    requires n <= |handed| && ValidDemand(r.demand) && AllValid(handed)
    ensures AllValid(handed + [r])
    ensures SequentialHead(hi, handed + [r], n) == SequentialHead(hi, handed, n)
  {
    if n > 0 {
      SequentialHeadOfPrefix(hi, handed, r, n - 1);
    }
  }

  lemma {:induction false} SequentialHeadFalls(hi: int, handed: seq<Region>, m: nat, n: nat)
    requires m <= n <= |handed| && AllValid(handed)
    ensures SequentialHead(hi, handed, n) <= SequentialHead(hi, handed, m)
  {
    if m < n {
      SequentialHeadFalls(hi, handed, m, n - 1);
    }
  }

  /** Region n lies below the head as it was after the first m of the regions before it. */
  lemma RegionBelow(hi: int, handed: seq<Region>, m: nat, n: nat)
    requires m <= n < |handed| && AllValid(handed)
    ensures SequentialHead(hi, handed, n + 1) + handed[n].demand.bytes <= SequentialHead(hi, handed, m)
  {
    SequentialHeadFalls(hi, handed, m, n);
  }

  ghost predicate ThreadInv(s: Bump, t: nat)
    requires AllValid(s.handed)
  {
    match s.Thread(t)
    case Outside => true
    case Loaded(seen, demand, successes) =>
      ValidDemand(demand) && successes <= |s.handed| && seen == SequentialHead(s.hi, s.handed, successes)
  }

  ghost predicate Inv(s: Bump) {
    && AllValid(s.handed)
    && s.head == SequentialHead(s.hi, s.handed, |s.handed|)
    && (forall i | 0 <= i < |s.handed| ::
          s.lo <= s.handed[i].start == SequentialHead(s.hi, s.handed, i + 1))
    && (forall t: nat :: ThreadInv(s, t))
  }

  /** A compare-and-swap succeeds exactly when nobody else has succeeded since the thread read the head: a stale value
      never compares equal. */
  lemma StaleNeverMatches(s: Bump, t: nat)
    requires Inv(s) && s.Thread(t).Loaded?
    ensures s.head == s.Thread(t).seen <==> s.Thread(t).successes == |s.handed|
    ensures s.Thread(t).successes < |s.handed| ==> s.head < s.Thread(t).seen
  {
    assert ThreadInv(s, t);
    var n, m := |s.handed|, s.Thread(t).successes;
    if m < n {
      RegionBelow(s.hi, s.handed, m, n - 1);
    }
  }

  lemma SuccessKeepsInv(s: Bump, t: nat)
    requires Inv(s) && s.Thread(t).Loaded? && s.Thread(t).seen == s.head
    requires ValidDemand(s.Thread(t).demand) && Target(s.head, s.Thread(t).demand) >= s.lo
    ensures Inv(Apply(s, Attempt(t)))
  {
    hide Target;
    var s' := Apply(s, Attempt(t));
    var r := Region(Target(s.head, s.Thread(t).demand), s.Thread(t).demand);
    assert s'.handed == s.handed + [r];
    forall n | 0 <= n <= |s.handed|
      ensures SequentialHead(s'.hi, s'.handed, n) == SequentialHead(s.hi, s.handed, n)
    {
      SequentialHeadOfPrefix(s.hi, s.handed, r, n);
    }
    assert ThreadInv(s, t);
    forall u: nat
      ensures ThreadInv(s', u)
    {
      assert ThreadInv(s, u);
    }
  }

  lemma StepKeepsInv(s: Bump, a: Action)
    requires Inv(s) && Enabled(s, a)
    ensures Inv(Apply(s, a))
  {
    hide Target;
    assert ThreadInv(s, a.t);
    if a.Attempt? && s.Thread(a.t).seen == s.head && Target(s.head, s.Thread(a.t).demand) >= s.lo {
      SuccessKeepsInv(s, a.t);
    } else {
      forall u: nat
        ensures ThreadInv(Apply(s, a), u)
      {
        assert ThreadInv(s, u);
      }
    }
  }

  lemma {:induction false} RunKeepsInv(states: seq<Bump>, actions: seq<Action>, i: nat)
    requires IsRun(states, actions) && i <= |actions|
    ensures Inv(states[i])
  {
    if i > 0 {
      RunKeepsInv(states, actions, i - 1);
      StepKeepsInv(states[i - 1], actions[i - 1]);
    }
  }

  /** Whatever the interleaving, the regions handed out are the ones a single thread hands out for the same demands in
      the order of success; they are inside the arena and pairwise disjoint. */
  lemma RegionsAreSequentialAndDisjoint(states: seq<Bump>, actions: seq<Action>, i: nat, j: nat)
    requires IsRun(states, actions) && i < j < |states[|actions|].handed|
    ensures var s := states[|actions|];
            && AllValid(s.handed)
            && s.handed[i].start == SequentialHead(s.hi, s.handed, i + 1)
            && s.handed[j].start == SequentialHead(s.hi, s.handed, j + 1)
            && s.lo <= s.handed[j].start
            && s.handed[j].start + s.handed[j].demand.bytes <= s.handed[i].start
            && s.handed[i].start + s.handed[i].demand.bytes <= s.hi
            && s.head <= s.handed[j].start
  {
    RunKeepsInv(states, actions, |actions|);
    var s := states[|actions|];
    assert SequentialHead(s.hi, s.handed, 0) == s.hi;
    hide IsRun, SequentialHead, AllValid, Target;
    RegionBelow(s.hi, s.handed, 0, i);
    RegionBelow(s.hi, s.handed, i + 1, j);
    SequentialHeadFalls(s.hi, s.handed, j + 1, |s.handed|);
  }

  lemma TargetIsAligned(head: int, d: Demand)
    requires ValidDemand(d)
    ensures (Target(head, d) + d.bytes) % d.alignment == 0
    ensures Target(head, d) + d.bytes <= head < Target(head, d) + d.bytes + d.alignment
  {
    var q := head / d.alignment;
    assert head - head % d.alignment == d.alignment * q;
    MultipleIsAligned(q, d.alignment);
  }

  lemma MultipleIsAligned(q: int, a: nat)
    requires a > 0
    ensures (a * q) % a == 0
  {
    var x := a * q;
    var e := q - x / a;
    assert x == a * (x / a) + x % a;
    assert a * e == a * q - a * (x / a);
    assert e == 0;
  }

  /** Every region ends at a multiple of its alignment, and loses less than that to the region handed out before it. */
  lemma RegionsAreAligned(states: seq<Bump>, actions: seq<Action>, i: nat)
    requires IsRun(states, actions) && i < |states[|actions|].handed|
    ensures var s := states[|actions|];
            var r, above := s.handed[i], if i == 0 then s.hi else s.handed[i - 1].start;
            && 0 < r.demand.alignment <= r.demand.bytes && (r.start + r.demand.bytes) % r.demand.alignment == 0
            && r.start + r.demand.bytes <= above < r.start + r.demand.bytes + r.demand.alignment
  {
    RunKeepsInv(states, actions, |actions|);
    var s := states[|actions|];
    assert SequentialHead(s.hi, s.handed, i + 1) == Target(SequentialHead(s.hi, s.handed, i), s.handed[i].demand);
    hide IsRun, Target;
    TargetIsAligned(SequentialHead(s.hi, s.handed, i), s.handed[i].demand);
  }

  /** A region is handed out by a thread's own compare-and-swap, for what the thread asked for. */
  lemma SuccessServes(states: seq<Bump>, actions: seq<Action>, i: nat)
    requires IsRun(states, actions) && i < |actions| && states[i + 1].handed != states[i].handed
    ensures var s, r, t := states[i], states[i + 1], actions[i].t;
            && actions[i] == Attempt(t) && s.Thread(t).Loaded? && r.Thread(t).Outside?
            && r.handed == s.handed + [Region(r.head, s.Thread(t).demand)]
  {
  }

  /** A thread's demand is the one it loaded the head for, as long as it is in the loop. */
  lemma {:induction false} DemandIsKept(states: seq<Bump>, actions: seq<Action>, i: nat, j: nat, t: nat, demand: Demand)
    requires IsRun(states, actions) && i < j <= |actions| && actions[i] == Load(t, demand)
    requires forall m | i < m <= j :: states[m].Thread(t).Loaded?
    ensures states[j].Thread(t).demand == demand
  {
    if i + 1 < j {
      DemandIsKept(states, actions, i, j - 1, t, demand);
    }
  }

  /** No thread ever waits: outside the loop it can ask for anything, and in the loop it can try. */
  lemma ThreadsNeverWait(s: Bump, t: nat, demand: Demand)
    requires Inv(s) && 0 < demand.alignment <= demand.bytes
    ensures s.Thread(t).Outside? ==> Enabled(s, Load(t, demand))
    ensures s.Thread(t).Loaded? ==> Enabled(s, Attempt(t))
  {
    assert ThreadInv(s, t);
  }

  /** The head strictly falls on every success, and on no other step. */
  lemma HeadFallsOnSuccess(states: seq<Bump>, actions: seq<Action>, i: nat)
    requires IsRun(states, actions) && i < |actions|
    ensures if |states[i + 1].handed| > |states[i].handed| then states[i + 1].head < states[i].head
            else states[i + 1].head == states[i].head
  {
    RunKeepsInv(states, actions, i);
    assert ThreadInv(states[i], actions[i].t);
  }

  /** Lock freedom: an attempt that has to go round the loop again was overtaken by another thread's success. */
  lemma RetryMeansProgress(states: seq<Bump>, actions: seq<Action>, i: nat, t: nat)
    requires IsRun(states, actions) && i < |actions| && actions[i] == Attempt(t)
    requires states[i + 1].Thread(t).Loaded?
    ensures states[i].Thread(t).successes < |states[i].handed|
  {
    RunKeepsInv(states, actions, i);
    assert ThreadInv(states[i], t);
    StaleNeverMatches(states[i], t);
  }
}
