/** Threads that swap and compare-and-swap one remote word, each through a memory pool of its own. The adapter executes
    one compare-and-swap at a time; a thread polls its answer later. */
module RemoteWord {
  import opened MachineWords

  type Word = n: nat | n < TWO_TO_THE_64

  type Thread = nat

  datatype Call =
    | Swap(value: Word)
    | CompareAndSwap(expected: Word, value: Word)

  /** What a thread is doing: nothing, waiting for the work request of call `id` to be executed, or holding its answer
      in prev_. `seen` is how many effective operations there were when the compared value was read from the word, if
      it was, and `at` how many when the request was executed. */
  datatype Phase =
    | Idle
    | Posted(id: nat, call: Call, compare: Word, seen: Seen)
    | Answered(id: nat, call: Call, compare: Word, prev: Word, at: nat)

  datatype Seen = Guessed | After(count: nat)

  /** An operation that took effect: the call it was for, and the word around it. */
  datatype Effect = Effect(id: nat, before: Word, after: Word)

  /** What a call returned, and how many effective operations there were when it was executed for the last time. */
  datatype Return = Return(call: Call, result: Word, at: nat)

  datatype State = State(initial: Word, word: Word, threads: map<Thread, Phase>, calls: nat, log: seq<Effect>,
                         returned: map<nat, Return>) {
    function Thread(t: Thread): Phase {
      if t in threads then threads[t] else Idle
    }
  }

  function Init(word: Word): State {
    State(word, word, map[], 0, [], map[])
  }

  datatype Action =
    | StartSwap(t: Thread, value: Word, hint: Word)
    | StartCompareAndSwap(t: Thread, expected: Word, value: Word)
    | Execute(t: Thread)
    | Poll(t: Thread)

  predicate Enabled(s: State, a: Action) {
    match a
    case StartSwap(t, _, _) => s.Thread(t) == Idle
    case StartCompareAndSwap(t, _, _) => s.Thread(t) == Idle
    case Execute(t) => s.Thread(t).Posted?
    case Poll(t) => s.Thread(t).Answered?
  }

  function Start(s: State, t: Thread, call: Call, compare: Word): State {
    s.(threads := s.threads[t := Posted(s.calls, call, compare, Guessed)], calls := s.calls + 1)
  }

  /** The adapter's atomic step: the old word comes back, and the new one goes in if the old one is the compared one. */
  function DoExecute(s: State, t: Thread): State
    requires Enabled(s, Execute(t))
  {
    var p := s.Thread(t);
    var hit := s.word == p.compare;
    s.(threads := s.threads[t := Answered(p.id, p.call, p.compare, s.word, |s.log|)],
       word := if hit then p.call.value else s.word,
       log := if hit then s.log + [Effect(p.id, s.word, p.call.value)] else s.log)
  }

  /** The thread sees the answer: a swap that missed is posted again with the value it saw; all else returns. */
  function DoPoll(s: State, t: Thread): State
    requires Enabled(s, Poll(t))
  {
    var p := s.Thread(t);
    if p.call.Swap? && p.prev != p.compare then
      s.(threads := s.threads[t := Posted(p.id, p.call, p.prev, After(p.at))])
    else
      s.(threads := s.threads[t := Idle], returned := s.returned[p.id := Return(p.call, p.prev, p.at)])
  }

  function Apply(s: State, a: Action): State
    requires Enabled(s, a)
  {
    match a
    case StartSwap(t, value, hint) => Start(s, t, Swap(value), hint)
    case StartCompareAndSwap(t, expected, value) => Start(s, t, CompareAndSwap(expected, value), expected)
    case Execute(t) => DoExecute(s, t)
    case Poll(t) => DoPoll(s, t)
  }

  // ---------------------------------------------------------------------------------------------------------------
  // Invariant
  // ---------------------------------------------------------------------------------------------------------------

  /** The word after the first n effective operations. */
  function WordAfter(initial: Word, log: seq<Effect>, n: nat): Word
    requires n <= |log|
  {
    if n == 0 then initial else log[n - 1].after
  }

  /** The effective operations are one chain from the initial word to the current one. */
  ghost predicate ChainInv(s: State) {
    && s.word == WordAfter(s.initial, s.log, |s.log|)
    && (forall i | 0 <= i < |s.log| :: s.log[i].before == WordAfter(s.initial, s.log, i))
  }

  function Times(log: seq<Effect>, id: nat): nat {
    if log == [] then 0 else Times(log[..|log| - 1], id) + if log[|log| - 1].id == id then 1 else 0
  }

  /** The one effect that call `id` had, after `at` others. */
  ghost predicate Had(log: seq<Effect>, id: nat, call: Call, before: Word, at: nat) {
    Times(log, id) == 1 && at < |log| && log[at] == Effect(id, before, call.value)
  }

  ghost predicate PhaseInv(s: State, p: Phase) {
    match p
    case Idle => true
    case Posted(id, call, compare, seen) =>
      && id < s.calls && id !in s.returned && Times(s.log, id) == 0
      && (call.CompareAndSwap? ==> compare == call.expected)
      && (seen.After? ==> seen.count <= |s.log| && compare == WordAfter(s.initial, s.log, seen.count))
    case Answered(id, call, compare, prev, at) =>
      && id < s.calls && id !in s.returned && (call.CompareAndSwap? ==> compare == call.expected)
      && (if prev == compare then Had(s.log, id, call, prev, at) else Times(s.log, id) == 0)
      && at <= |s.log| && prev == WordAfter(s.initial, s.log, at)
  }

  ghost predicate ReturnInv(s: State, id: nat) {
    id in s.returned ==>
      var r := s.returned[id];
      && id < s.calls && r.at <= |s.log| && r.result == WordAfter(s.initial, s.log, r.at)
      && if r.call.Swap? || r.result == r.call.expected then Had(s.log, id, r.call, r.result, r.at)
         else Times(s.log, id) == 0
  }

  /** No two threads work on the same call. */
  ghost predicate OwnCalls(s: State, t: Thread, u: Thread) {
    t != u && s.Thread(t) != Idle && s.Thread(u) != Idle ==> s.Thread(t).id != s.Thread(u).id
  }

  ghost predicate KnownCalls(s: State) {
    forall i | 0 <= i < |s.log| :: s.log[i].id < s.calls
  }

  ghost predicate Inv(s: State) {
    && ChainInv(s)
    && (forall t: Thread :: PhaseInv(s, s.Thread(t)))
    && (forall t: Thread, u: Thread :: OwnCalls(s, t, u))
    && (forall id: nat :: ReturnInv(s, id))
    && KnownCalls(s)
  }

  lemma {:induction false} NoEffectYet(log: seq<Effect>, id: nat)
    requires forall i | 0 <= i < |log| :: log[i].id != id
    ensures Times(log, id) == 0
  {
    if log != [] {
      NoEffectYet(log[..|log| - 1], id);
    }
  }

  lemma OneMoreEffect(log: seq<Effect>, e: Effect, id: nat)
    ensures Times(log + [e], id) == Times(log, id) + if e.id == id then 1 else 0
  {
    assert (log + [e])[..|log|] == log;
  }

  /** An effect of another call changes nothing for this one. */
  lemma OthersEffect(log: seq<Effect>, e: Effect, id: nat, call: Call, before: Word, at: nat)
    requires e.id != id
    ensures Times(log + [e], id) == Times(log, id)
    ensures Had(log, id, call, before, at) ==> Had(log + [e], id, call, before, at)
  {
    OneMoreEffect(log, e, id);
  }

  lemma OwnEffect(log: seq<Effect>, id: nat, call: Call, before: Word)
    requires Times(log, id) == 0
    ensures Had(log + [Effect(id, before, call.value)], id, call, before, |log|)
  {
    OneMoreEffect(log, Effect(id, before, call.value), id);
  }

  lemma StartKeepsInv(s: State, t: Thread, call: Call, compare: Word)
    requires Inv(s) && s.Thread(t) == Idle && (call.CompareAndSwap? ==> compare == call.expected)
    ensures Inv(Start(s, t, call, compare))
  {
    hide Had, Times;
    var r := Start(s, t, call, compare);
    NoEffectYet(s.log, s.calls);
    assert ReturnInv(s, s.calls);
    forall u: Thread
      ensures PhaseInv(r, r.Thread(u))
    {
      assert PhaseInv(s, s.Thread(u));
    }
    forall id: nat
      ensures ReturnInv(r, id)
    {
      assert ReturnInv(s, id);
    }
    forall u: Thread, v: Thread
      ensures OwnCalls(r, u, v)
    {
      assert PhaseInv(s, s.Thread(u)) && PhaseInv(s, s.Thread(v)) && OwnCalls(s, u, v);
    }
  }

  lemma WordAfterPrefix(initial: Word, log: seq<Effect>, longer: seq<Effect>, n: nat)
    requires n <= |log| && log <= longer
    ensures WordAfter(initial, longer, n) == WordAfter(initial, log, n)
  {
  }

  lemma WordAfterLast(initial: Word, log: seq<Effect>, e: Effect)
    ensures WordAfter(initial, log + [e], |log| + 1) == e.after
  {
  }

  lemma LogGrows(s: State, t: Thread)
    requires ChainInv(s) && KnownCalls(s) && Enabled(s, Execute(t)) && s.Thread(t).id < s.calls
    ensures var r := DoExecute(s, t);
            && s.log <= r.log && r.initial == s.initial && ChainInv(r) && KnownCalls(r)
            && r.word == WordAfter(r.initial, r.log, |r.log|)
            && forall n | 0 <= n <= |s.log| :: WordAfter(r.initial, r.log, n) == WordAfter(s.initial, s.log, n)
  {
    hide WordAfter;
    var r := DoExecute(s, t);
    forall n | 0 <= n <= |s.log|
      ensures WordAfter(r.initial, r.log, n) == WordAfter(s.initial, s.log, n)
    {
      WordAfterPrefix(s.initial, s.log, r.log, n);
    }
    if r.log != s.log {
      WordAfterLast(r.initial, s.log, r.log[|s.log|]);
    }
  }

  lemma ExecuteOwnPhase(s: State, t: Thread)
    requires Inv(s) && Enabled(s, Execute(t))
    ensures PhaseInv(DoExecute(s, t), DoExecute(s, t).Thread(t))
  {
    var p, r := s.Thread(t), DoExecute(s, t);
    assert PhaseInv(s, p);
    LogGrows(s, t);
    OwnEffect(s.log, p.id, p.call, s.word);
    hide Inv, WordAfter, Times, Had;
  }

  lemma ExecuteOtherPhase(s: State, t: Thread, u: Thread)
    requires Inv(s) && Enabled(s, Execute(t)) && u != t
    ensures PhaseInv(DoExecute(s, t), DoExecute(s, t).Thread(u))
  {
    var p, q := s.Thread(t), s.Thread(u);
    assert PhaseInv(s, p) && PhaseInv(s, q) && OwnCalls(s, t, u);
    LogGrows(s, t);
    hide Inv, WordAfter, Had, Times;
    if q != Idle {
      OthersEffect(s.log, Effect(p.id, s.word, p.call.value), q.id, q.call, if q.Answered? then q.prev else s.word,
                   if q.Answered? then q.at else 0);
    }
  }

  lemma ExecuteReturn(s: State, t: Thread, id: nat)
    requires Inv(s) && Enabled(s, Execute(t))
    ensures ReturnInv(DoExecute(s, t), id)
  {
    var p := s.Thread(t);
    assert PhaseInv(s, p) && ReturnInv(s, id);
    LogGrows(s, t);
    hide Inv, WordAfter, Had, Times;
    if id in s.returned {
      var r := s.returned[id];
      OthersEffect(s.log, Effect(p.id, s.word, p.call.value), id, r.call, r.result, r.at);
    }
  }

  lemma ExecuteKeepsInv(s: State, t: Thread)
    requires Inv(s) && Enabled(s, Execute(t))
    ensures Inv(DoExecute(s, t))
  {
    var r := DoExecute(s, t);
    assert PhaseInv(s, s.Thread(t));
    LogGrows(s, t);
    hide PhaseInv, ReturnInv, ChainInv, KnownCalls, WordAfter;
    forall u: Thread
      ensures PhaseInv(r, r.Thread(u))
    {
      if u == t {
        ExecuteOwnPhase(s, t);
      } else {
        ExecuteOtherPhase(s, t, u);
      }
    }
    forall id: nat
      ensures ReturnInv(r, id)
    {
      ExecuteReturn(s, t, id);
    }
    forall u: Thread, v: Thread
      ensures OwnCalls(r, u, v)
    {
      assert OwnCalls(s, u, v);
    }
  }

  lemma PollPhase(s: State, t: Thread, u: Thread)
    requires Inv(s) && Enabled(s, Poll(t))
    ensures PhaseInv(DoPoll(s, t), DoPoll(s, t).Thread(u))
  {
    hide Had, Times, WordAfter;
    assert PhaseInv(s, s.Thread(t)) && PhaseInv(s, s.Thread(u)) && OwnCalls(s, t, u);
    hide Inv;
  }

  lemma PollReturn(s: State, t: Thread, id: nat)
    requires Inv(s) && Enabled(s, Poll(t))
    ensures ReturnInv(DoPoll(s, t), id)
  {
    hide Had, Times, WordAfter;
    assert PhaseInv(s, s.Thread(t)) && ReturnInv(s, id);
    hide Inv;
  }

  lemma PollKeepsLog(s: State, t: Thread)
    requires ChainInv(s) && KnownCalls(s) && Enabled(s, Poll(t))
    ensures ChainInv(DoPoll(s, t)) && KnownCalls(DoPoll(s, t))
  {
    hide WordAfter;
  }

  lemma PollOwnCalls(s: State, t: Thread, u: Thread, v: Thread)
    requires OwnCalls(s, u, v) && Enabled(s, Poll(t))
    ensures OwnCalls(DoPoll(s, t), u, v)
  {
  }

  lemma PollKeepsInv(s: State, t: Thread)
    requires Inv(s) && Enabled(s, Poll(t))
    ensures Inv(DoPoll(s, t))
  {
    var r := DoPoll(s, t);
    PollKeepsLog(s, t);
    hide PhaseInv, ReturnInv, ChainInv, KnownCalls, OwnCalls;
    forall u: Thread
      ensures PhaseInv(r, r.Thread(u))
    {
      PollPhase(s, t, u);
    }
    forall id: nat
      ensures ReturnInv(r, id)
    {
      PollReturn(s, t, id);
    }
    forall u: Thread, v: Thread
      ensures OwnCalls(r, u, v)
    {
      PollOwnCalls(s, t, u, v);
    }
  }

  lemma InitHasInv(word: Word)
    ensures Inv(Init(word)) && Init(word).initial == word
  {
  }

  lemma StepKeepsInv(s: State, a: Action)
    requires Inv(s) && Enabled(s, a)
    ensures Inv(Apply(s, a)) && Apply(s, a).initial == s.initial
  {
    hide Inv;
    match a
    case StartSwap(t, value, hint) => StartKeepsInv(s, t, Swap(value), hint);
    case StartCompareAndSwap(t, expected, value) => StartKeepsInv(s, t, CompareAndSwap(expected, value), expected);
    case Execute(t) => ExecuteKeepsInv(s, t);
    case Poll(t) => PollKeepsInv(s, t);
  }

  lemma {:induction false} TimesCounts(log: seq<Effect>, id: nat, k: nat, m: nat)
    requires k <= m < |log| && log[k].id == id && log[m].id == id
    ensures Times(log, id) >= if k < m then 2 else 1
    decreases |log|
  {
    var last := |log| - 1;
    if m < last {
      TimesCounts(log[..last], id, k, m);
    } else if k < m {
      TimesCounts(log[..last], id, k, k);
    }
  }

  /** Every effect is of a call that returned, or whose answer a thread holds. */
  ghost predicate EffectKnown(s: State, k: nat) {
    k < |s.log| ==>
      || s.log[k].id in s.returned
      || exists t: Thread :: s.Thread(t).Answered? && s.Thread(t).id == s.log[k].id
  }

  lemma StepKeepsEffects(s: State, a: Action, k: nat)
    requires Inv(s) && Enabled(s, a) && EffectKnown(s, k)
    ensures EffectKnown(Apply(s, a), k)
  {
    var r := Apply(s, a);
    assert PhaseInv(s, s.Thread(a.t));
    hide Inv, PhaseInv, Times, Had;
    if a.Execute? && k == |s.log| {
      if k < |r.log| {
        assert r.Thread(a.t).Answered? && r.Thread(a.t).id == r.log[k].id;
      }
    } else if k < |s.log| && s.log[k].id !in s.returned {
      var t: Thread :| s.Thread(t).Answered? && s.Thread(t).id == s.log[k].id;
      if t == a.t && a.Poll? {
        MissedHasNoEffect(s, t, k);
      } else {
        assert r.Thread(t) == s.Thread(t);
      }
    }
  }

  lemma MissedHasNoEffect(s: State, t: Thread, k: nat)
    requires PhaseInv(s, s.Thread(t)) && s.Thread(t).Answered? && k < |s.log| && s.log[k].id == s.Thread(t).id
    ensures s.Thread(t).prev == s.Thread(t).compare
  {
    TimesCounts(s.log, s.log[k].id, k, k);
  }

  ghost predicate IsRun(run: seq<State>, word: Word) {
    && run != [] && run[0] == Init(word)
    && forall i | 0 <= i < |run| - 1 :: exists a :: Enabled(run[i], a) && run[i + 1] == Apply(run[i], a)
  }

  lemma {:induction false} RunKeepsInv(run: seq<State>, word: Word, i: nat)
    requires IsRun(run, word) && i < |run|
    ensures Inv(run[i]) && run[i].initial == word && forall k: nat :: EffectKnown(run[i], k)
  {
    if i == 0 {
      InitHasInv(word);
    } else {
      hide Inv, Apply, Enabled, EffectKnown;
      RunKeepsInv(run, word, i - 1);
      var a :| Enabled(run[i - 1], a) && run[i] == Apply(run[i - 1], a);
      StepKeepsInv(run[i - 1], a);
      forall k: nat
        ensures EffectKnown(run[i], k)
      {
        StepKeepsEffects(run[i - 1], a, k);
      }
    }
  }

  // ---------------------------------------------------------------------------------------------------------------
  // Theorems
  // ---------------------------------------------------------------------------------------------------------------

  /** A swap that returned took effect exactly once, and what it returned is the word right before. */
  lemma SwapTakesEffectOnce(run: seq<State>, word: Word, i: nat, id: nat)
    requires IsRun(run, word) && i < |run| && id in run[i].returned && run[i].returned[id].call.Swap?
    ensures var s, r := run[i], run[i].returned[id];
            && Times(s.log, id) == 1
            && exists k :: 0 <= k < |s.log| && s.log[k] == Effect(id, r.result, r.call.value)
                           && WordAfter(s.initial, s.log, k) == r.result
  {
    RunKeepsInv(run, word, i);
    assert ReturnInv(run[i], id);
  }

  /** A compare-and-swap that returned took effect, once, exactly when it returned the expected value; the effect put its
      value in place of the expected one. Hit or miss, it returned the word of some moment. */
  lemma CompareAndSwapTellsItsEffect(run: seq<State>, word: Word, i: nat, id: nat)
    requires IsRun(run, word) && i < |run| && id in run[i].returned && run[i].returned[id].call.CompareAndSwap?
    ensures var s, r := run[i], run[i].returned[id];
            && Times(s.log, id) == (if r.result == r.call.expected then 1 else 0)
            && (exists k: nat :: k <= |s.log| && r.result == WordAfter(word, s.log, k))
            && (r.result == r.call.expected ==>
                  exists k :: 0 <= k < |s.log| && s.log[k] == Effect(id, r.call.expected, r.call.value))
  {
    hide Inv, Times, IsRun, WordAfter;
    RunKeepsInv(run, word, i);
    ReturnedInv(run[i], id);
  }

  lemma ReturnedInv(s: State, id: nat)
    requires Inv(s) && id in s.returned
    ensures ReturnInv(s, id)
  {
  }

  /** A swap that misses again misses because another operation took effect since it last saw the word. */
  lemma MissMeansProgress(run: seq<State>, word: Word, i: nat, t: Thread)
    requires IsRun(run, word) && i < |run| && run[i].Thread(t).Posted?
    requires run[i].Thread(t).seen.After? && run[i].word != run[i].Thread(t).compare
    ensures run[i].Thread(t).seen.count < |run[i].log|
  {
    RunKeepsInv(run, word, i);
    hide IsRun, Had, Times, WordAfter;
    assert PhaseInv(run[i], run[i].Thread(t));
  }

  function Found(e: Effect): Word { e.before }

  function Put(e: Effect): Word { e.after }

  function Words(log: seq<Effect>, w: Effect -> Word): multiset<Word> {
    if log == [] then multiset{} else Words(log[..|log| - 1], w) + multiset{w(log[|log| - 1])}
  }

  lemma WordsNext(log: seq<Effect>, n: nat, w: Effect -> Word)
    requires 0 < n <= |log|
    ensures Words(log[..n], w) == Words(log[..n - 1], w) + multiset{w(log[n - 1])}
  {
    assert log[..n][..n - 1] == log[..n - 1];
  }

  lemma Exchange(found: multiset<Word>, initial: multiset<Word>, put: multiset<Word>, more: multiset<Word>)
    requires found == initial + put
    ensures found + more == initial + (put + more)
  {
  }

  lemma {:induction false} ChainConserves(s: State, n: nat)
    requires ChainInv(s) && n <= |s.log|
    ensures Words(s.log[..n], Found) + multiset{WordAfter(s.initial, s.log, n)}
         == multiset{s.initial} + Words(s.log[..n], Put)
  {
    if n > 0 {
      ChainConserves(s, n - 1);
      assert s.log[n - 1].before == WordAfter(s.initial, s.log, n - 1);
      assert s.log[n - 1].after == WordAfter(s.initial, s.log, n);
      hide Words, WordAfter, ChainInv;
      WordsNext(s.log, n, Found);
      WordsNext(s.log, n, Put);
      Exchange(Words(s.log[..n - 1], Found) + multiset{s.log[n - 1].before}, multiset{s.initial},
               Words(s.log[..n - 1], Put), multiset{s.log[n - 1].after});
    }
  }

  /** No value is lost or made up at any moment: the words that the effective operations found, with the current one, are
      the initial word with what they put in. */
  lemma ValuesAreConserved(run: seq<State>, word: Word, i: nat)
    requires IsRun(run, word) && i < |run|
    ensures Words(run[i].log, Found) + multiset{run[i].word} == multiset{word} + Words(run[i].log, Put)
  {
    RunKeepsInv(run, word, i);
    ChainConserves(run[i], |run[i].log|);
    assert run[i].log[..|run[i].log|] == run[i].log;
  }

  lemma TheOneEffect(log: seq<Effect>, id: nat, call: Call, before: Word, at: nat, k: nat)
    requires Had(log, id, call, before, at) && k < |log| && log[k].id == id
    ensures log[k] == Effect(id, before, call.value)
  {
    TimesCounts(log, id, if at < k then at else k, if at < k then k else at);
  }

  /** Once every call returned, the effective operations are calls of their own, and the words they found are the values
      those calls returned. */
  lemma RestReturnsEverything(run: seq<State>, word: Word, i: nat, k: nat)
    requires IsRun(run, word) && i < |run| && (forall t: Thread :: run[i].Thread(t) == Idle) && k < |run[i].log|
    ensures var s := run[i];
            && s.log[k].id in s.returned && Times(s.log, s.log[k].id) == 1
            && s.log[k].before == s.returned[s.log[k].id].result
            && s.log[k].after == s.returned[s.log[k].id].call.value
  {
    var s, id := run[i], run[i].log[k].id;
    RunKeepsInv(run, word, i);
    assert EffectKnown(s, k) && ReturnInv(s, id);
    TimesCounts(s.log, id, k, k);
    TheOneEffect(s.log, id, s.returned[id].call, s.returned[id].result, s.returned[id].at, k);
  }

  predicate Effective(r: Return) {
    r.call.Swap? || r.result == r.call.expected
  }

  function Result(r: Return): Word { r.result }

  function Given(r: Return): Word { r.call.value }

  /** One word of each of the first n calls that returned and took effect. */
  function Returned(returned: map<nat, Return>, n: nat, w: Return -> Word): multiset<Word> {
    if n == 0 then multiset{}
    else Returned(returned, n - 1, w)
         + if n - 1 in returned && Effective(returned[n - 1]) then multiset{w(returned[n - 1])} else multiset{}
  }

  /** The words of the effects of calls below n. */
  function WordsBelow(log: seq<Effect>, n: nat, w: Effect -> Word): multiset<Word> {
    if log == [] then multiset{}
    else WordsBelow(log[..|log| - 1], n, w)
         + if log[|log| - 1].id < n then multiset{w(log[|log| - 1])} else multiset{}
  }

  function WordsOf(log: seq<Effect>, id: nat, w: Effect -> Word): multiset<Word> {
    if log == [] then multiset{}
    else WordsOf(log[..|log| - 1], id, w)
         + if log[|log| - 1].id == id then multiset{w(log[|log| - 1])} else multiset{}
  }

  lemma {:induction false} WordsBelowNone(log: seq<Effect>, w: Effect -> Word)
    ensures WordsBelow(log, 0, w) == multiset{}
  {
    if log != [] {
      WordsBelowNone(log[..|log| - 1], w);
    }
  }

  lemma {:induction false} WordsBelowNext(log: seq<Effect>, n: nat, w: Effect -> Word)
    ensures WordsBelow(log, n + 1, w) == WordsBelow(log, n, w) + WordsOf(log, n, w)
  {
    if log != [] {
      WordsBelowNext(log[..|log| - 1], n, w);
    }
  }

  lemma {:induction false} WordsBelowAll(log: seq<Effect>, n: nat, w: Effect -> Word)
    requires forall k | 0 <= k < |log| :: log[k].id < n
    ensures WordsBelow(log, n, w) == Words(log, w)
  {
    if log != [] {
      WordsBelowAll(log[..|log| - 1], n, w);
    }
  }

  lemma {:induction false} WordsOfNone(log: seq<Effect>, id: nat, w: Effect -> Word)
    requires Times(log, id) == 0
    ensures WordsOf(log, id, w) == multiset{}
  {
    if log != [] {
      WordsOfNone(log[..|log| - 1], id, w);
    }
  }

  lemma {:induction false} WordsOfOne(log: seq<Effect>, id: nat, k: nat, w: Effect -> Word)
    requires Times(log, id) == 1 && k < |log| && log[k].id == id
    ensures WordsOf(log, id, w) == multiset{w(log[k])}
  {
    var last := |log| - 1;
    if k < last {
      TimesCounts(log[..last], id, k, k);
      WordsOfOne(log[..last], id, k, w);
    } else {
      WordsOfNone(log[..last], id, w);
    }
  }

  /** A call that did not return has no effect when all threads are idle; the others have what they tell. */
  lemma RestWordsOf(s: State, id: nat, w: Effect -> Word, v: Return -> Word)
    requires Inv(s) && (forall k: nat :: EffectKnown(s, k)) && (forall t: Thread :: s.Thread(t) == Idle)
    requires id in s.returned ==> w(Effect(id, s.returned[id].result, s.returned[id].call.value)) == v(s.returned[id])
    ensures WordsOf(s.log, id, w)
         == if id in s.returned && Effective(s.returned[id]) then multiset{v(s.returned[id])} else multiset{}
  {
    assert ReturnInv(s, id);
    hide Inv, Times, WordsOf;
    if id in s.returned && Effective(s.returned[id]) {
      WordsOfOne(s.log, id, s.returned[id].at, w);
    } else if id in s.returned {
      WordsOfNone(s.log, id, w);
    } else {
      forall k | 0 <= k < |s.log|
        ensures s.log[k].id != id
      {
        assert EffectKnown(s, k);
      }
      NoEffectYet(s.log, id);
      WordsOfNone(s.log, id, w);
    }
  }

  lemma {:induction false} RestWords(s: State, n: nat, w: Effect -> Word, v: Return -> Word)
    requires Inv(s) && (forall k: nat :: EffectKnown(s, k)) && (forall t: Thread :: s.Thread(t) == Idle)
    requires forall id, r: Return :: w(Effect(id, r.result, r.call.value)) == v(r)
    ensures WordsBelow(s.log, n, w) == Returned(s.returned, n, v)
  {
    hide Inv, EffectKnown, WordsBelow, WordsOf, Effective;
    if n == 0 {
      WordsBelowNone(s.log, w);
    } else {
      RestWords(s, n - 1, w, v);
      WordsBelowNext(s.log, n - 1, w);
      RestWordsOf(s, n - 1, w, v);
    }
  }

  /** Once every call returned, no value is lost or made up between the callers: what the effective calls returned, with
      the word, is the initial word with the values they were given. */
  lemma CallsConserveValues(run: seq<State>, word: Word, i: nat)
    requires IsRun(run, word) && i < |run| && (forall t: Thread :: run[i].Thread(t) == Idle)
    ensures var s := run[i];
            && Returned(s.returned, s.calls, Result) + multiset{s.word}
            == multiset{word} + Returned(s.returned, s.calls, Given)
            && forall id | id in s.returned :: id < s.calls
  {
    var s := run[i];
    RunKeepsInv(run, word, i);
    ValuesAreConserved(run, word, i);
    forall id | id in s.returned
      ensures id < s.calls
    {
      assert ReturnInv(s, id);
    }
    hide IsRun, WordAfter, Had, Times, Words, WordsBelow, Returned;
    WordsBelowAll(s.log, s.calls, Found);
    WordsBelowAll(s.log, s.calls, Put);
    RestWords(s, s.calls, Found, Result);
    RestWords(s, s.calls, Put, Given);
  }
}
