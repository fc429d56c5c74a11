/** The calls of a run on a remote word: each of them behaves as if it had happened at one moment between its start and
    its return, and goes back to the thread that made it. */
module RemoteCalls {
  import opened RemoteWord

  /** A run, and the action of each step. */
  ghost predicate Follows(run: seq<State>, actions: seq<Action>, word: Word) {
    && |run| == |actions| + 1 && run[0] == Init(word)
    && forall i | 0 <= i < |actions| :: Enabled(run[i], actions[i]) && run[i + 1] == Apply(run[i], actions[i])
  }

  lemma {:induction false} FollowsKeepsInv(run: seq<State>, actions: seq<Action>, word: Word, i: nat)
    requires Follows(run, actions, word) && i < |run|
    ensures Inv(run[i]) && run[i].initial == word
  {
    hide Inv, Apply, Enabled;
    if i == 0 {
      InitHasInv(word);
    } else {
      FollowsKeepsInv(run, actions, word, i - 1);
      StepKeepsInv(run[i - 1], actions[i - 1]);
    }
  }

  lemma StepKeepsLog(s: State, a: Action)
    requires Enabled(s, a)
    ensures s.log <= Apply(s, a).log
  {
  }

  lemma {:induction false} LogsExtend(run: seq<State>, actions: seq<Action>, word: Word, i: nat, j: nat)
    requires Follows(run, actions, word) && i <= j < |run|
    ensures run[i].log <= run[j].log
  {
    hide Apply, Enabled;
    if i < j {
      LogsExtend(run, actions, word, i, j - 1);
      StepKeepsLog(run[j - 1], actions[j - 1]);
    }
  }

  // ---------------------------------------------------------------------------------------------------------------
  // One moment for each call
  // ---------------------------------------------------------------------------------------------------------------

  /** The calls from number `start` on were executed after `count` effective operations. */
  ghost predicate Late(s: State, start: nat, count: nat) {
    && count <= |s.log|
    && (forall t: Thread :: s.Thread(t).Answered? && s.Thread(t).id >= start ==> s.Thread(t).at >= count)
    && (forall id | id in s.returned && id >= start :: s.returned[id].at >= count)
  }

  lemma StepKeepsLate(s: State, a: Action, start: nat, count: nat)
    requires Late(s, start, count) && Enabled(s, a)
    ensures Late(Apply(s, a), start, count)
  {
    var r := Apply(s, a);
    forall t: Thread | r.Thread(t).Answered? && r.Thread(t).id >= start
      ensures r.Thread(t).at >= count
    {
      assert t != a.t ==> r.Thread(t) == s.Thread(t);
    }
  }

  lemma NewCallsAreLate(s: State)
    requires Inv(s)
    ensures Late(s, s.calls, |s.log|)
  {
    hide ChainInv, Had, Times, WordAfter;
    forall t: Thread
      ensures s.Thread(t).Answered? ==> s.Thread(t).id < s.calls
    {
      assert PhaseInv(s, s.Thread(t));
    }
    forall id | id in s.returned
      ensures id < s.calls
    {
      assert ReturnInv(s, id);
    }
  }

  lemma {:induction false} RunKeepsLate(run: seq<State>, actions: seq<Action>, word: Word, i: nat, j: nat)
    requires Follows(run, actions, word) && i <= j < |run|
    ensures Late(run[j], run[i].calls, |run[i].log|)
  {
    hide Late, Apply, Enabled, Inv;
    if i == j {
      FollowsKeepsInv(run, actions, word, i);
      NewCallsAreLate(run[i]);
    } else {
      RunKeepsLate(run, actions, word, i, j - 1);
      StepKeepsLate(run[j - 1], actions[j - 1], run[i].calls, |run[i].log|);
    }
  }

  /** A call that began after moment i and had returned by moment j returned the word of a moment between the two; and if
      it took effect, it did so at that very moment. */
  lemma CallsAreAtomic(run: seq<State>, actions: seq<Action>, word: Word, i: nat, j: nat, id: nat)
    requires Follows(run, actions, word) && i <= j < |run| && run[i].calls <= id && id in run[j].returned
    ensures var s, r := run[j], run[j].returned[id];
            exists k: nat ::
              && |run[i].log| <= k <= |s.log| && r.result == WordAfter(word, s.log, k)
              && (r.call.Swap? || r.result == r.call.expected ==>
                    k < |s.log| && s.log[k] == Effect(id, r.result, r.call.value))
  {
    hide Follows, Inv, WordAfter, Times;
    FollowsKeepsInv(run, actions, word, j);
    RunKeepsLate(run, actions, word, i, j);
    ReturnedInv(run[j], id);
  }

  // ---------------------------------------------------------------------------------------------------------------
  // Every call goes back to its thread
  // ---------------------------------------------------------------------------------------------------------------

  predicate IsCall(a: Action, call: Call) {
    match a
    case StartSwap(_, value, _) => call == Swap(value)
    case StartCompareAndSwap(_, expected, value) => call == CompareAndSwap(expected, value)
    case _ => false
  }

  /** Call `id` is this one, and no other thread works on it. */
  ghost predicate Belongs(s: State, id: nat, t: Thread, call: Call) {
    && id < s.calls
    && (forall u: Thread :: s.Thread(u) != Idle && s.Thread(u).id == id ==> u == t && s.Thread(u).call == call)
    && (id in s.returned ==> s.returned[id].call == call)
  }

  lemma StartBelongs(s: State, a: Action, call: Call)
    requires Inv(s) && Enabled(s, a) && IsCall(a, call)
    ensures Belongs(Apply(s, a), s.calls, a.t, call)
  {
    hide ChainInv, Had, Times, WordAfter;
    var r := Apply(s, a);
    assert ReturnInv(s, s.calls);
    forall u: Thread
      ensures r.Thread(u) != Idle && r.Thread(u).id == s.calls ==> u == a.t && r.Thread(u).call == call
    {
      assert PhaseInv(s, s.Thread(u));
    }
  }

  lemma StepKeepsBelongs(s: State, a: Action, id: nat, t: Thread, call: Call)
    requires Belongs(s, id, t, call) && Enabled(s, a)
    ensures Belongs(Apply(s, a), id, t, call)
    ensures id !in s.returned && id in Apply(s, a).returned ==> a == Poll(t)
  {
    var r := Apply(s, a);
    forall u: Thread
      ensures r.Thread(u) != Idle && r.Thread(u).id == id ==> u == t && r.Thread(u).call == call
    {
      assert u != a.t ==> r.Thread(u) == s.Thread(u);
    }
  }

  /** What is returned for a call is what was asked for, by the thread that asked. */
  lemma {:induction false} CallsKeepTheirValues(run: seq<State>, actions: seq<Action>, word: Word, i: nat, j: nat,
                                                call: Call)
    requires Follows(run, actions, word) && i < j < |run| && IsCall(actions[i], call)
    ensures Belongs(run[j], run[i].calls, actions[i].t, call)
    ensures run[i].calls !in run[j - 1].returned && run[i].calls in run[j].returned ==> actions[j - 1] == Poll(actions[i].t)
  {
    hide Inv, Belongs, Apply, Enabled, IsCall;
    FollowsKeepsInv(run, actions, word, i);
    if j == i + 1 {
      StartBelongs(run[i], actions[i], call);
      StartReturnsNothing(run[i], actions[i], call);
    } else {
      CallsKeepTheirValues(run, actions, word, i, j - 1, call);
      StepKeepsBelongs(run[j - 1], actions[j - 1], run[i].calls, actions[i].t, call);
    }
  }

  lemma StartReturnsNothing(s: State, a: Action, call: Call)
    requires Enabled(s, a) && IsCall(a, call)
    ensures Apply(s, a).returned == s.returned
  {
  }

  // ---------------------------------------------------------------------------------------------------------------
  // What each execution does
  // ---------------------------------------------------------------------------------------------------------------

  /** Thread t takes no step between two moments. */
  predicate Rests(actions: seq<Action>, i: nat, j: nat, t: Thread) {
    forall m | i < m < j && m < |actions| :: actions[m].t != t
  }

  lemma {:induction false} RestingThread(run: seq<State>, actions: seq<Action>, word: Word, i: nat, j: nat, t: Thread)
    requires Follows(run, actions, word) && i < j < |run| && Rests(actions, i, j, t)
    ensures run[j].Thread(t) == run[i + 1].Thread(t)
  {
    hide Apply, Enabled;
    if i + 1 < j {
      RestingThread(run, actions, word, i, j - 1, t);
      OthersLeaveThread(run[j - 1], actions[j - 1], t);
    }
  }

  lemma OthersLeaveThread(s: State, a: Action, t: Thread)
    requires Enabled(s, a) && a.t != t
    ensures Apply(s, a).Thread(t) == s.Thread(t)
  {
  }

  lemma ExecuteSwaps(s: State, t: Thread)
    requires Enabled(s, Execute(t))
    ensures var p, r := s.Thread(t), Apply(s, Execute(t));
            && r.word == (if s.word == p.compare then p.call.value else s.word)
            && (r.log == s.log <==> s.word != p.compare)
  {
  }

  /** A compare-and-swap replaces exactly the expected word. */
  lemma CompareAndSwapCompares(run: seq<State>, actions: seq<Action>, word: Word, i: nat, j: nat, t: Thread,
                               expected: Word, value: Word)
    requires Follows(run, actions, word) && i < j < |actions| && Rests(actions, i, j, t)
    requires actions[i] == StartCompareAndSwap(t, expected, value) && actions[j] == Execute(t)
    ensures run[j + 1].word == if run[j].word == expected then value else run[j].word
  {
    RestingThread(run, actions, word, i, j, t);
    ExecuteSwaps(run[j], t);
  }

  /** A swap whose hint is right needs one execution. */
  lemma RightHintHits(run: seq<State>, actions: seq<Action>, word: Word, i: nat, j: nat, t: Thread, value: Word, hint: Word)
    requires Follows(run, actions, word) && i < j < |actions| && Rests(actions, i, j, t)
    requires actions[i] == StartSwap(t, value, hint) && actions[j] == Execute(t)
    ensures run[j + 1].word == if run[j].word == hint then value else run[j].word
    ensures run[j + 1].log == run[j].log <==> run[j].word != hint
  {
    RestingThread(run, actions, word, i, j, t);
    ExecuteSwaps(run[j], t);
  }

  /** A swap that missed holds the word it found, or compares with it. */
  ghost predicate Retries(p: Phase, call: Call, found: Word) {
    match p
    case Idle => false
    case Posted(_, c, compare, _) => c == call && compare == found
    case Answered(_, c, compare, prev, _) => c == call && prev == found && prev != compare
  }

  lemma StepRetries(s: State, a: Action, t: Thread, call: Call, found: Word)
    requires Enabled(s, a) && call.Swap? && Retries(s.Thread(t), call, found) && a != Execute(t)
    ensures Retries(Apply(s, a).Thread(t), call, found)
  {
    if a.t != t {
      OthersLeaveThread(s, a, t);
    }
  }

  lemma {:induction false} RunRetries(run: seq<State>, actions: seq<Action>, word: Word, i: nat, j: nat, t: Thread,
                                      call: Call)
    requires Follows(run, actions, word) && i < j < |run| && (forall m | i < m < j :: actions[m] != Execute(t))
    requires actions[i] == Execute(t) && run[i].Thread(t).Posted? && run[i].Thread(t).call == call && call.Swap?
    requires run[i + 1].log == run[i].log
    ensures Retries(run[j].Thread(t), call, run[i].word)
  {
    if j == i + 1 {
      ExecuteSwaps(run[i], t);
    } else {
      hide Apply, Enabled, Retries;
      RunRetries(run, actions, word, i, j - 1, t, call);
      StepRetries(run[j - 1], actions[j - 1], t, call, run[i].word);
    }
  }

  /** A swap that missed compares, when it is executed again, with the word it found; so it misses again only when another
      operation took effect in between. */
  lemma RetryUsesTheWord(run: seq<State>, actions: seq<Action>, word: Word, i: nat, j: nat, t: Thread, value: Word)
    requires Follows(run, actions, word) && i < j < |actions| && (forall m | i < m < j :: actions[m] != Execute(t))
    requires actions[i] == Execute(t) && actions[j] == Execute(t)
    requires run[i].Thread(t).Posted? && run[i].Thread(t).call == Swap(value) && run[i + 1].log == run[i].log
    ensures run[j + 1].word == if run[j].word == run[i].word then value else run[j].word
    ensures run[j + 1].log == run[j].log ==> |run[i].log| < |run[j].log|
  {
    RunRetries(run, actions, word, i, j, t, Swap(value));
    ExecuteSwaps(run[j], t);
    hide Apply;
    LogsExtend(run, actions, word, i, j);
    FollowsKeepsInv(run, actions, word, i);
    FollowsKeepsInv(run, actions, word, j);
    SameLogSameWord(run[i], run[j]);
  }

  lemma SameLogSameWord(s: State, r: State)
    requires Inv(s) && Inv(r) && s.initial == r.initial
    ensures s.log == r.log ==> s.word == r.word
  {
  }

  /** A thread never has to wait for another one: the adapter can execute what it posted, whatever the word is, it can
      poll what was answered, and with no call under way it can begin any. */
  lemma ThreadsNeverWait(s: State, t: Thread, value: Word, other: Word)
    ensures s.Thread(t).Posted? ==> Enabled(s, Execute(t)) && Apply(s, Execute(t)).Thread(t).Answered?
    ensures s.Thread(t).Answered? ==> Enabled(s, Poll(t)) && !Apply(s, Poll(t)).Thread(t).Answered?
    ensures s.Thread(t).Idle? ==> Enabled(s, StartSwap(t, value, other)) && Enabled(s, StartCompareAndSwap(t, other, value))
  {
  }
}
