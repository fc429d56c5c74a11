/** The backoff of a node over the rejections of its requests, in the unsigned 32-bit arithmetic of the source. */
module ConnectionBackoff {
  import opened MachineWords
  import opened ConnectionProtocol
  import opened ConnectionTheorems
  import opened ConnectionAnswers
  import SlabClasses

  /** The backoff of node n after k rejections. */
  function BackoffAfter(n: NodeId, k: nat): int {
    if k == 0 then 0 else NextBackoff(BackoffAfter(n, k - 1), n)
  }

  /** The steps of a run that turn down a request of node n. */
  ghost function Rejections(states: seq<Cluster>, i: nat, n: NodeId): nat
    requires i < |states|
  {
    if i == 0 then 0
    else
      Rejections(states, i - 1, n)
      + if states[i - 1].Client(n).Waiting? && states[i].Client(n) == Leaving(states[i - 1].Client(n).call, Unavailable)
        then 1 else 0
  }

  lemma StepBacksOff(s: Cluster, a: Action, n: NodeId)
    requires Inv(s) && Enabled(s, a)
    ensures var c, r := s.Client(n), Apply(s, a);
            r.Backoff(n) == if c.Waiting? && r.Client(n) == Leaving(c.call, Unavailable)
                            then NextBackoff(s.Backoff(n), n) else s.Backoff(n)
  {
    hide Inv, NextBackoff, TryAcquire;
    if !OwnStep(a, n) {
      OthersStep(s, a, n);
    }
  }

  /** Whatever else happens, the backoff of a node depends on the number of its rejections alone. */
  lemma {:induction false} BackoffCountsRejections(states: seq<Cluster>, actions: seq<Action>, i: nat, n: NodeId)
    requires IsRun(states, actions) && Init(states[0]) && i <= |actions|
    ensures states[i].Backoff(n) == BackoffAfter(n, Rejections(states, i, n))
  {
    hide Apply, Enabled, Inv, NextBackoff;
    if i > 0 {
      StartHasInv(states[0]);
      RunKeepsInv(states, actions, i - 1);
      BackoffCountsRejections(states, actions, i - 1, n);
      StepBacksOff(states[i - 1], actions[i - 1], n);
    }
  }

  /** How far 200 times the identifier is below the next multiple of 2^32. */
  function Gap(n: NodeId): (d: int)
    ensures 0 < d <= TWO_TO_THE_32
  {
    TWO_TO_THE_32 - 200 * n % TWO_TO_THE_32
  }

  /** The doubled backoff wraps around exactly when it reaches the gap. */
  lemma NextByGap(b: int, n: NodeId)
    requires 0 <= b <= 5_000_000
    ensures b == 0 ==> NextBackoff(b, n) == 100
    ensures 0 < b && 2 * b < Gap(n) ==>
              NextBackoff(b, n) == if 2 * b + TWO_TO_THE_32 - Gap(n) < 5_000_000 then 2 * b + TWO_TO_THE_32 - Gap(n)
                                   else 5_000_000
    ensures 0 < b && 2 * b >= Gap(n) ==>
              NextBackoff(b, n) == if 2 * b - Gap(n) < 5_000_000 then 2 * b - Gap(n) else 5_000_000
  {
    var c, w := 200 * n % TWO_TO_THE_32, 200 * n / TWO_TO_THE_32;
    assert (b + 100 * n) * 2 == w * TWO_TO_THE_32 + (2 * b + c);
    Remainder(w, 2 * b + c);
  }

  lemma Remainder(w: int, x: int)
    requires 0 <= x < 2 * TWO_TO_THE_32
    ensures (w * TWO_TO_THE_32 + x) % TWO_TO_THE_32 == if x < TWO_TO_THE_32 then x else x - TWO_TO_THE_32
  {
    if x >= TWO_TO_THE_32 {
      assert w * TWO_TO_THE_32 + x == (w + 1) * TWO_TO_THE_32 + (x - TWO_TO_THE_32);
    }
  }

  lemma {:induction false} BackoffBounds(n: NodeId, k: nat)
    ensures 0 <= BackoffAfter(n, k) <= 5_000_000 && BackoffAfter(n, 0) == 0 && BackoffAfter(n, 1) == 100
  {
    hide NextBackoff;
    assert BackoffAfter(n, 1) == NextBackoff(BackoffAfter(n, 0), n);
    NextByGap(0, n);
    if k > 0 {
      BackoffBounds(n, k - 1);
      NextByGap(BackoffAfter(n, k - 1), n);
    }
  }

  /** The gaps for which wrapping around never makes the backoff fall. */
  predicate FarEnough(d: int) {
    !(100 < d <= 200) && !(5_000_000 < d <= 10_000_000)
  }

  lemma SecondBackoff(n: NodeId)
    ensures Gap(n) > 200 && Gap(n) <= 10_000_000 ==> BackoffAfter(n, 2) == 5_000_000
    ensures Gap(n) <= 200 ==> BackoffAfter(n, 2) == 200 - Gap(n)
  {
    hide NextBackoff;
    BackoffBounds(n, 1);
    assert BackoffAfter(n, 2) == NextBackoff(100, n);
    NextByGap(100, n);
  }

  lemma {:induction false} Settled(n: NodeId, k: nat)
    requires 200 < Gap(n) <= 5_000_000 && k >= 2
    ensures BackoffAfter(n, k) == 5_000_000
  {
    hide NextBackoff;
    SecondBackoff(n);
    if k > 2 {
      Settled(n, k - 1);
      NextByGap(5_000_000, n);
    }
  }

  lemma {:induction false} AtLeastFirst(n: NodeId, k: nat)
    requires Gap(n) <= 100 && k >= 1
    ensures BackoffAfter(n, k) >= 100
  {
    hide NextBackoff;
    BackoffBounds(n, k - 1);
    if k > 1 {
      AtLeastFirst(n, k - 1);
      NextByGap(BackoffAfter(n, k - 1), n);
    }
  }

  lemma BackoffGrows(n: NodeId, k: nat)
    requires FarEnough(Gap(n))
    ensures BackoffAfter(n, k) <= BackoffAfter(n, k + 1)
  {
    hide NextBackoff;
    BackoffBounds(n, k);
    NextByGap(BackoffAfter(n, k), n);
    if k >= 1 && Gap(n) <= 100 {
      AtLeastFirst(n, k);
    } else if k >= 1 && Gap(n) <= 5_000_000 {
      if k >= 2 {
        Settled(n, k);
      }
      Settled(n, k + 1);
    }
  }

  /** Over any number of rejections the backoff of a node never falls exactly when its identifier is far enough from
      where the arithmetic wraps around. */
  lemma BackoffNeverFalls(n: NodeId)
    ensures (forall k: nat :: BackoffAfter(n, k) <= BackoffAfter(n, k + 1)) <==> FarEnough(Gap(n))
  {
    hide BackoffAfter, NextBackoff;
    if FarEnough(Gap(n)) {
      forall k: nat
        ensures BackoffAfter(n, k) <= BackoffAfter(n, k + 1)
      {
        BackoffGrows(n, k);
      }
    } else {
      BackoffFalls(n);
    }
  }

  lemma BackoffFalls(n: NodeId)
    requires !FarEnough(Gap(n))
    ensures BackoffAfter(n, 2) < BackoffAfter(n, 1) || BackoffAfter(n, 3) < BackoffAfter(n, 2)
  {
    hide NextBackoff;
    BackoffBounds(n, 1);
    SecondBackoff(n);
    if Gap(n) > 200 {
      assert BackoffAfter(n, 3) == NextBackoff(5_000_000, n);
      NextByGap(5_000_000, n);
    }
  }

  lemma DoubledPower(x: nat, j: nat)
    ensures x * SlabClasses.Pow2(j + 1) == 2 * (x * SlabClasses.Pow2(j)) && x * SlabClasses.Pow2(j) >= x
  {
    var p := SlabClasses.Pow2(j);
    assert x * (2 * p) == 2 * (x * p);
    assert x * (p - 1) == x * p - x && x * (p - 1) >= 0;
  }

  lemma SmallGap(n: NodeId)
    requires n <= 21_424_836
    ensures Gap(n) == TWO_TO_THE_32 - 200 * n
  {
  }

  /** Up to this identifier nothing wraps around: the backoff doubles, with a share of the node, up to the greatest. */
  lemma {:induction false} BackoffDoubles(n: NodeId, k: nat)
    requires n <= 21_424_836 && k >= 1
    ensures var exact := (100 + 200 * n) * SlabClasses.Pow2(k - 1) - 200 * n;
            BackoffAfter(n, k) == if exact < 5_000_000 then exact else 5_000_000
  {
    hide NextBackoff, Gap;
    if k == 1 {
      BackoffBounds(n, 1);
    } else {
      hide SlabClasses.Pow2;
      BackoffDoubles(n, k - 1);
      BackoffBounds(n, k - 1);
      DoubledPower(100 + 200 * n, k - 2);
      SmallGap(n);
      NextByGap(BackoffAfter(n, k - 1), n);
    }
  }
}
