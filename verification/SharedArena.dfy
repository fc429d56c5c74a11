/** The whole allocator, run by any number of threads: each has freelists of its own, all share the bump pointer, and a
    block may be freed by another thread than the one that allocated it. */
module SharedArena {
  import opened MachineWords
  import opened SlabClasses
  import opened SlabArena
  import opened SlabTheorems
  import BumpPointer

  type Thread = nat

  /** `asked` are the sizes of the requests that are in the compare-and-swap loop. `carved`, `live` and `home` are
      history, as in the arena of one thread; the home of a freed block is a list of the thread that freed it. */
  datatype Shared = Shared(bump: BumpPointer.Bump, lists: map<Thread, seq<seq<nat>>>, asked: map<Thread, RequestSize>,
                           carved: map<nat, BlockSize>, live: map<nat, RequestSize>, home: map<nat, (Thread, nat)>)
  {
    function Lists(t: Thread): seq<seq<nat>> {
      if t in lists then lists[t] else seq(NUM_SLAB_CLASSES, _ => [])
    }
  }

  datatype Action =
    | Request(t: Thread, bytes: nat)             // do_allocate up to the read of head_
    | Attempt(t: Thread)                         // compare_exchange_strong
    | GiveBack(t: Thread, ptr: nat, bytes: nat)  // do_deallocate

  predicate Enabled(s: Shared, a: Action) {
    match a
    case Request(t, bytes) => s.bump.Thread(t).Outside? && bytes < TWO_TO_THE_32
    case Attempt(t) => t in s.asked && BumpPointer.Enabled(s.bump, BumpPointer.Attempt(t))
    case GiveBack(t, p, bytes) => s.bump.Thread(t).Outside? && p in s.live && s.live[p] == bytes && bytes > 0
  }

  function DemandOf(bytes: nat): BumpPointer.Demand {
    BumpPointer.Demand(Widen(bytes), ALIGNMENT)
  }

  /** A block comes from the thread's own list. */
  function Reuse(s: Shared, t: Thread, i: nat, bytes: RequestSize): Shared
    requires i < |s.Lists(t)| && s.Lists(t)[i] != []
  {
    var p := s.Lists(t)[i][0];
    s.(lists := s.lists[t := s.Lists(t)[i := s.Lists(t)[i][1..]]], live := s.live[p := bytes], home := s.home - {p})
  }

  /** The thread reads the shared head. */
  function Enter(s: Shared, t: Thread, bytes: RequestSize): Shared
    requires s.bump.Thread(t).Outside?
  {
    s.(bump := BumpPointer.Apply(s.bump, BumpPointer.Load(t, DemandOf(bytes))), asked := s.asked[t := bytes])
  }

  /** The thread's compare-and-swap succeeds, and the block is its own. */
  predicate Wins(s: Shared, t: Thread)
    requires BumpPointer.Enabled(s.bump, BumpPointer.Attempt(t))
  {
    var th := s.bump.Thread(t);
    BumpPointer.Target(th.seen, th.demand) >= s.bump.lo && th.seen == s.bump.head
  }

  function Try(s: Shared, t: Thread): Shared
    requires t in s.asked && BumpPointer.Enabled(s.bump, BumpPointer.Attempt(t))
  {
    var next := s.(bump := BumpPointer.Apply(s.bump, BumpPointer.Attempt(t)));
    if Wins(s, t) then
      var d, bytes := next.bump.head, s.asked[t];
      ClassRange(Widen(bytes));
      next.(asked := s.asked - {t}, carved := s.carved[d := Widen(bytes)], live := s.live[d := bytes])
    else if next.bump.Thread(t).Outside? then next.(asked := s.asked - {t})
    else next
  }

  function Return(s: Shared, t: Thread, p: nat, bytes: nat): Shared
    requires bytes > 0
  {
    var i := ClassIndex(bytes);
    if i < |s.Lists(t)| then
      s.(lists := s.lists[t := s.Lists(t)[i := s.Lists(t)[i] + [p]]], live := s.live - {p}, home := s.home[p := (t, i)])
    else s
  }

  function Apply(s: Shared, a: Action): Shared
    requires Enabled(s, a)
  {
    match a
    case Request(t, bytes) =>
      var i := ClassIndex(Widen(bytes));
      ClassRange(Widen(bytes));
      if i >= NUM_SLAB_CLASSES then s
      else if i < |s.Lists(t)| && s.Lists(t)[i] != [] then Reuse(s, t, i, bytes)
      else Enter(s, t, bytes)
    case Attempt(t) => Try(s, t)
    case GiveBack(t, p, bytes) => Return(s, t, p, bytes)
  }

  /** What a step tells the caller: nothing while the thread is in the loop, then the reply of the call. */
  datatype Answer = Pending | Returned(reply: Reply) | Done

  function AnswerOf(s: Shared, a: Action): Answer
    requires Enabled(s, a)
  {
    match a
    case Request(t, bytes) =>
      var i := ClassIndex(Widen(bytes));
      if i >= NUM_SLAB_CLASSES then Returned(Aborted)
      else if i < |s.Lists(t)| && s.Lists(t)[i] != [] then Returned(Ok(s.Lists(t)[i][0]))
      else Pending
    case Attempt(t) =>
      if Wins(s, t) then Returned(Ok(Try(s, t).bump.head))
      else if Try(s, t).bump.Thread(t).Outside? then Returned(OutOfMemory)
      else Pending
    case GiveBack(t, p, bytes) => Done
  }

  // ---------------------------------------------------------------------------------------------------------------
  // Each thread sees the allocator of one thread
  // ---------------------------------------------------------------------------------------------------------------

  /** What thread t sees: the shared arena with its own lists. */
  ghost function View(s: Shared, t: Thread): Arena {
    Arena(s.bump.lo, s.bump.hi, s.bump.head, s.Lists(t), s.carved, s.live, HomeOf(s.home, t))
  }

  ghost function HomeOf(home: map<nat, (Thread, nat)>, t: Thread): map<nat, nat> {
    map a | a in home && home[a].0 == t :: home[a].1
  }

  /** A thread in the loop found its own list empty, and asks for the widened size. */
  ghost predicate CallInv(s: Shared, t: Thread) {
    s.bump.Thread(t).Loaded? ==>
      && t in s.asked && s.bump.Thread(t).demand == DemandOf(s.asked[t])
      && ClassIndex(Widen(s.asked[t])) < |s.Lists(t)| && s.Lists(t)[ClassIndex(Widen(s.asked[t]))] == []
  }

  ghost predicate SeenInv(s: Shared, t: Thread) {
    SlabArena.Inv(View(s, t))
  }

  ghost predicate Inv(s: Shared) {
    BumpPointer.Inv(s.bump) && forall t: Thread :: SeenInv(s, t) && CallInv(s, t)
  }

  lemma HomeWithout(home: map<nat, (Thread, nat)>, t: Thread, p: nat)
    ensures HomeOf(home - {p}, t) == HomeOf(home, t) - {p}
    ensures p in home && home[p].0 != t ==> HomeOf(home - {p}, t) == HomeOf(home, t)
  {
    if p in home && home[p].0 != t {
      assert p !in HomeOf(home, t);
    }
  }

  lemma HomeWith(home: map<nat, (Thread, nat)>, t: Thread, p: nat, i: nat, u: Thread)
    ensures HomeOf(home[p := (t, i)], t) == HomeOf(home, t)[p := i]
    ensures u != t && p !in home ==> HomeOf(home[p := (t, i)], u) == HomeOf(home, u)
  {
  }

  /** A step of another thread leaves this one's lists, and takes none of the blocks on them. */
  ghost predicate Undisturbed(v: Arena, w: Arena) {
    && v.lists == w.lists && v.home == w.home && v.lo == w.lo && v.hi == w.hi
    && (forall a | a in v.carved :: a in w.carved && w.carved[a] == v.carved[a])
    && (forall a | a in w.live :: a !in v.home)
  }

  /** What holds of the carved and live blocks holds for everybody. */
  lemma UndisturbedKeepsInv(v: Arena, w: Arena, mine: Arena)
    requires SlabArena.Inv(v) && Undisturbed(v, w) && SlabArena.Inv(mine)
    requires mine.lo == w.lo && mine.hi == w.hi && mine.head == w.head && mine.carved == w.carved && mine.live == w.live
    ensures SlabArena.Inv(w)
  {
    hide ListOk, ClassIndex;
  }

  // ---------------------------------------------------------------------------------------------------------------
  // The steps, seen by the thread that takes them and by the others
  // ---------------------------------------------------------------------------------------------------------------

  lemma ReuseSeen(s: Shared, t: Thread, i: nat, bytes: RequestSize)
    requires SlabArena.Inv(View(s, t)) && ClassIndex(Widen(bytes)) == i < NUM_SLAB_CLASSES && s.Lists(t)[i] != []
    ensures (View(Reuse(s, t, i, bytes), t), Ok(s.Lists(t)[i][0])) == Alloc(View(s, t), bytes)
  {
    hide ListOk, ClassIndex;
    HomeWithout(s.home, t, s.Lists(t)[i][0]);
  }

  lemma FreedBy(s: Shared, t: Thread, i: nat)
    requires SlabArena.Inv(View(s, t)) && i < NUM_SLAB_CLASSES && s.Lists(t)[i] != []
    ensures var p := s.Lists(t)[i][0]; p in s.home && s.home[p].0 == t
  {
    assert ListOk(s.Lists(t)[i], i, HomeOf(s.home, t));
  }

  lemma ReuseUndisturbed(s: Shared, t: Thread, i: nat, bytes: RequestSize, u: Thread)
    requires SlabArena.Inv(View(s, t)) && i < NUM_SLAB_CLASSES && s.Lists(t)[i] != []
    requires SlabArena.Inv(View(s, u)) && u != t
    ensures Undisturbed(View(s, u), View(Reuse(s, t, i, bytes), u))
  {
    hide ListOk, ClassIndex;
    FreedBy(s, t, i);
    HomeWithout(s.home, u, s.Lists(t)[i][0]);
  }

  /** Where a successful compare-and-swap carves the block. */
  lemma WinSeen(s: Shared, t: Thread)
    requires BumpPointer.Enabled(s.bump, BumpPointer.Attempt(t)) && Wins(s, t)
    requires SlabArena.Inv(View(s, t)) && CallInv(s, t)
    ensures Try(s, t).bump.head >= 0
    ensures (View(Try(s, t), t), Ok(Try(s, t).bump.head)) == Alloc(View(s, t), s.asked[t])
    ensures |Try(s, t).bump.handed| == |s.bump.handed| + 1
  {
    hide SlabArena.Inv, ListOk, ClassIndex;
    ClassRange(Widen(s.asked[t]));
  }

  lemma WinUndisturbed(s: Shared, t: Thread, u: Thread)
    requires BumpPointer.Enabled(s.bump, BumpPointer.Attempt(t)) && Wins(s, t)
    requires SlabArena.Inv(View(s, u)) && CallInv(s, t)
    ensures Undisturbed(View(s, u), View(Try(s, t), u))
  {
    hide ListOk, ClassIndex, ListsInv;
    var d := Try(s, t).bump.head;
    assert d < s.bump.head;
    assert d !in s.carved;
  }

  lemma LossSeen(s: Shared, t: Thread, u: Thread)
    requires BumpPointer.Enabled(s.bump, BumpPointer.Attempt(t)) && t in s.asked && !Wins(s, t)
    ensures View(Try(s, t), u) == View(s, u) && Try(s, t).bump.handed == s.bump.handed
  {
  }

  lemma ReturnSeen(s: Shared, t: Thread, p: nat, bytes: nat)
    requires SlabArena.Inv(View(s, t)) && p in s.live && s.live[p] == bytes && bytes > 0
    ensures ClassIndex(bytes) < NUM_SLAB_CLASSES && View(s, t).live == s.live
    ensures View(Return(s, t, p, bytes), t) == Free(View(s, t), p, bytes)
  {
    FreedSizeClass(bytes);
    HomeWith(s.home, t, p, ClassIndex(bytes), t);
  }

  lemma FreedIsNotLive(s: Shared, p: nat)
    requires Inv(s) && p in s.home
    ensures p in s.carved && p !in s.live
  {
    var t := s.home[p].0;
    assert SeenInv(s, t) && p in View(s, t).home;
  }

  lemma ReturnUndisturbed(s: Shared, t: Thread, p: nat, bytes: nat, u: Thread)
    requires Inv(s) && p in s.live && s.live[p] == bytes && bytes > 0 && u != t
    ensures Undisturbed(View(s, u), View(Return(s, t, p, bytes), u))
  {
    hide ListOk, ClassIndex, ListsInv;
    assert SeenInv(s, u);
    if p in s.home {
      FreedIsNotLive(s, p);
    }
    HomeWith(s.home, t, p, ClassIndex(bytes), u);
  }

  // ---------------------------------------------------------------------------------------------------------------
  // Every step keeps the invariant
  // ---------------------------------------------------------------------------------------------------------------

  /** What the others see is kept when the thread's own step keeps what it sees. */
  lemma ViewsStay(s: Shared, r: Shared, t: Thread)
    requires (forall u: Thread :: SeenInv(s, u)) && SeenInv(r, t)
    requires forall u: Thread | u != t :: Undisturbed(View(s, u), View(r, u))
    ensures forall u: Thread :: SeenInv(r, u)
  {
    hide SlabArena.Inv, Undisturbed;
    forall u: Thread
      ensures SeenInv(r, u)
    {
      assert SeenInv(s, u);
      if u != t {
        UndisturbedKeepsInv(View(s, u), View(r, u), View(r, t));
      }
    }
  }

  lemma ReuseKeepsInv(s: Shared, t: Thread, i: nat, bytes: RequestSize)
    requires Inv(s) && s.bump.Thread(t).Outside?
    requires ClassIndex(Widen(bytes)) == i < NUM_SLAB_CLASSES && i < |s.Lists(t)| && s.Lists(t)[i] != []
    ensures Inv(Reuse(s, t, i, bytes))
  {
    hide SlabArena.Inv, BumpPointer.Inv, ClassIndex, View, Undisturbed, Alloc;
    var r := Reuse(s, t, i, bytes);
    assert SeenInv(s, t);
    ReuseSeen(s, t, i, bytes);
    AllocKeepsInv(View(s, t), bytes);
    forall u: Thread | u != t
      ensures Undisturbed(View(s, u), View(r, u))
    {
      assert SeenInv(s, u);
      ReuseUndisturbed(s, t, i, bytes, u);
    }
    ViewsStay(s, r, t);
    forall u: Thread
      ensures CallInv(r, u)
    {
      assert CallInv(s, u);
    }
  }

  lemma EnterKeepsInv(s: Shared, t: Thread, bytes: RequestSize)
    requires Inv(s) && s.bump.Thread(t).Outside? && ClassIndex(Widen(bytes)) < |s.Lists(t)|
    requires s.Lists(t)[ClassIndex(Widen(bytes))] == []
    ensures Inv(Enter(s, t, bytes))
  {
    hide SlabArena.Inv, BumpPointer.Inv, ClassIndex;
    BumpPointer.StepKeepsInv(s.bump, BumpPointer.Load(t, DemandOf(bytes)));
    var r := Enter(s, t, bytes);
    forall u: Thread
      ensures SeenInv(r, u) && CallInv(r, u)
    {
      assert SeenInv(s, u) && CallInv(s, u) && View(r, u) == View(s, u);
    }
  }

  lemma OthersCallInv(s: Shared, t: Thread, u: Thread)
    requires t in s.asked && BumpPointer.Enabled(s.bump, BumpPointer.Attempt(t)) && CallInv(s, t) && CallInv(s, u)
    ensures CallInv(Try(s, t), u)
  {
    hide ClassIndex;
  }

  lemma TryKeepsInv(s: Shared, t: Thread)
    requires Inv(s) && t in s.asked && BumpPointer.Enabled(s.bump, BumpPointer.Attempt(t))
    ensures Inv(Try(s, t))
  {
    hide SlabArena.Inv, BumpPointer.Inv, ClassIndex, View, Undisturbed, Alloc, Wins, CallInv;
    var r := Try(s, t);
    assert SeenInv(s, t) && CallInv(s, t);
    BumpPointer.StepKeepsInv(s.bump, BumpPointer.Attempt(t));
    forall u: Thread
      ensures CallInv(r, u)
    {
      assert CallInv(s, u);
      OthersCallInv(s, t, u);
    }
    if Wins(s, t) {
      WinSeen(s, t);
      AllocKeepsInv(View(s, t), s.asked[t]);
      forall u: Thread | u != t
        ensures Undisturbed(View(s, u), View(r, u))
      {
        assert SeenInv(s, u);
        WinUndisturbed(s, t, u);
      }
      ViewsStay(s, r, t);
    } else {
      forall u: Thread
        ensures SeenInv(r, u)
      {
        assert SeenInv(s, u);
        LossSeen(s, t, u);
      }
    }
  }

  lemma ReturnKeepsInv(s: Shared, t: Thread, p: nat, bytes: nat)
    requires Inv(s) && s.bump.Thread(t).Outside? && p in s.live && s.live[p] == bytes && bytes > 0
    ensures Inv(Return(s, t, p, bytes))
  {
    hide SlabArena.Inv, BumpPointer.Inv, ClassIndex, View, Undisturbed, Free;
    var r := Return(s, t, p, bytes);
    assert SeenInv(s, t);
    ReturnSeen(s, t, p, bytes);
    FreeKeepsInv(View(s, t), p, bytes);
    forall u: Thread | u != t
      ensures Undisturbed(View(s, u), View(r, u))
    {
      ReturnUndisturbed(s, t, p, bytes, u);
    }
    ViewsStay(s, r, t);
    forall u: Thread
      ensures CallInv(r, u)
    {
      assert CallInv(s, u);
    }
  }

  lemma RequestKeepsInv(s: Shared, t: Thread, bytes: nat)
    requires Inv(s) && Enabled(s, Request(t, bytes))
    ensures Inv(Apply(s, Request(t, bytes)))
  {
    hide Inv, ClassIndex, Reuse, Enter;
    var i := ClassIndex(Widen(bytes));
    ClassRange(Widen(bytes));
    AllClasses(s, t);
    if i < NUM_SLAB_CLASSES {
      if s.Lists(t)[i] != [] {
        ReuseKeepsInv(s, t, i, bytes);
      } else {
        EnterKeepsInv(s, t, bytes);
      }
    }
  }

  lemma AllClasses(s: Shared, t: Thread)
    requires Inv(s)
    ensures |s.Lists(t)| == NUM_SLAB_CLASSES
  {
    assert SeenInv(s, t);
  }

  /** Every step of any thread keeps the invariant. */
  lemma StepKeepsInv(s: Shared, a: Action)
    requires Inv(s) && Enabled(s, a)
    ensures Inv(Apply(s, a))
  {
    hide Inv, Try, Return;
    match a
    case Request(t, bytes) => RequestKeepsInv(s, t, bytes);
    case Attempt(t) => TryKeepsInv(s, t);
    case GiveBack(t, p, bytes) => ReturnKeepsInv(s, t, p, bytes);
  }

  /** A thread that gives up sees a head from which the allocator of one thread gives up too. */
  lemma LoserIsOutOfMemory(s: Shared, t: Thread)
    requires Inv(s) && Enabled(s, Attempt(t)) && !Wins(s, t) && Try(s, t).bump.Thread(t).Outside?
    ensures |s.Lists(t)| == NUM_SLAB_CLASSES && Alloc(View(s, t), s.asked[t]) == (View(s, t), OutOfMemory)
  {
    hide SlabArena.Inv, ListOk, ClassIndex, BumpPointer.SequentialHead;
    AllClasses(s, t);
    assert SeenInv(s, t) && CallInv(s, t);
    ClassRange(Widen(s.asked[t]));
    assert BumpPointer.ThreadInv(s.bump, t);
    BumpPointer.StaleNeverMatches(s.bump, t);
    AlignedLower(s.bump.head, s.bump.Thread(t).seen);
  }

  lemma AlignedLower(head: int, seen: int)
    requires head <= seen
    ensures head - head % ALIGNMENT <= seen - seen % ALIGNMENT
  {
  }

  /** What a call of do_allocate gets, and what its thread then sees, if the answer has come. */
  ghost predicate AllocatesAs(s: Shared, a: Action, bytes: nat)
    requires Enabled(s, a) && |s.Lists(a.t)| == NUM_SLAB_CLASSES && bytes < TWO_TO_THE_32
  {
    match AnswerOf(s, a)
    case Pending => Apply(s, a).bump.Thread(a.t).Loaded? && View(Apply(s, a), a.t) == View(s, a.t)
    case Returned(reply) =>
      Apply(s, a).bump.Thread(a.t).Outside? && (View(Apply(s, a), a.t), reply) == Alloc(View(s, a.t), bytes)
    case Done => false
  }

  /** Every call takes effect at one step, when it returns, and then gives the reply, and does to the arena and to the
      thread's own lists, what the allocator of one thread does; all other steps of the thread change nothing of them. */
  lemma CallsAreAtomic(s: Shared, a: Action)
    requires Inv(s) && Enabled(s, a)
    ensures |s.Lists(a.t)| == NUM_SLAB_CLASSES
    ensures a.Request? ==> AllocatesAs(s, a, a.bytes)
    ensures a.Attempt? ==> AllocatesAs(s, a, s.asked[a.t])
    ensures a.GiveBack? ==>
              && AnswerOf(s, a) == Done && ClassIndex(a.bytes) < NUM_SLAB_CLASSES
              && View(Apply(s, a), a.t) == Free(View(s, a.t), a.ptr, a.bytes)
  {
    hide SlabArena.Inv, BumpPointer.Inv, ClassIndex, Undisturbed;
    assert SeenInv(s, a.t) && CallInv(s, a.t);
    AllClasses(s, a.t);
    match a
    case Request(t, bytes) =>
      var i := ClassIndex(Widen(bytes));
      ClassRange(Widen(bytes));
      if i < NUM_SLAB_CLASSES && s.Lists(t)[i] != [] {
        ReuseSeen(s, t, i, bytes);
      }
    case Attempt(t) =>
      if Wins(s, t) {
        WinSeen(s, t);
      } else {
        LossSeen(s, t, t);
        if Try(s, t).bump.Thread(t).Outside? {
          LoserIsOutOfMemory(s, t);
        }
      }
    case GiveBack(t, p, bytes) => ReturnSeen(s, t, p, bytes);
  }

  // ---------------------------------------------------------------------------------------------------------------
  // Runs
  // ---------------------------------------------------------------------------------------------------------------

  ghost predicate IsRun(states: seq<Shared>, actions: seq<Action>) {
    && |states| == |actions| + 1 && Start(states[0])
    && forall i | 0 <= i < |actions| :: Enabled(states[i], actions[i]) && states[i + 1] == Apply(states[i], actions[i])
  }

  /** A new resource, before any thread uses it. */
  ghost predicate Start(s: Shared) {
    && s.bump.lo <= s.bump.hi == s.bump.head && s.bump.threads == map[] && s.bump.handed == []
    && s.lists == map[] && s.asked == map[] && s.carved == map[] && s.live == map[] && s.home == map[]
  }

  lemma StartKeepsInv(s: Shared)
    requires Start(s)
    ensures Inv(s)
  {
    forall t: Thread
      ensures SeenInv(s, t)
    {
      assert HomeOf(s.home, t) == map[];
      NewArenaKeepsInv(View(s, t));
    }
  }

  ghost predicate SafeActions(actions: seq<Action>) {
    forall i | 0 <= i < |actions| && actions[i].Request? :: SafeSize(actions[i].bytes)
  }

  /** Every block is carved, or about to be, as a power of two. */
  ghost predicate RegularShared(s: Shared) {
    && (forall a | a in s.carved :: IsPow2(s.carved[a]))
    && (forall t | t in s.asked :: IsPow2(Widen(s.asked[t])))
  }

  lemma StepKeepsRegular(s: Shared, a: Action)
    requires RegularShared(s) && Enabled(s, a) && (a.Request? ==> SafeSize(a.bytes))
    ensures RegularShared(Apply(s, a))
  {
    hide IsPow2, ClassIndex;
    if a.Request? {
      ClassRange(Widen(a.bytes));
      if a.bytes <= MAX_BYTES {
        RegularSizeWidens(a.bytes);
      }
    }
  }

  lemma {:induction false} RunKeepsInv(states: seq<Shared>, actions: seq<Action>, i: nat)
    requires IsRun(states, actions) && i <= |actions|
    ensures Inv(states[i]) && (SafeActions(actions) ==> RegularShared(states[i]))
  {
    hide Inv, Apply, Enabled, Start, RegularShared;
    if i > 0 {
      RunKeepsInv(states, actions, i - 1);
      StepKeepsInv(states[i - 1], actions[i - 1]);
      if SafeActions(actions) {
        StepKeepsRegular(states[i - 1], actions[i - 1]);
      }
    } else {
      StartKeepsInv(states[0]);
      StartIsRegular(states[0]);
    }
  }

  lemma StartIsRegular(s: Shared)
    requires Start(s)
    ensures RegularShared(s)
  {
  }

  /** Whatever the threads, their interleaving, and who frees whose blocks: with regular sizes, live blocks never overlap
      each other or a freed block, and all of them are inside the arena. */
  lemma SharedBlocksNeverOverlap(states: seq<Shared>, actions: seq<Action>)
    requires IsRun(states, actions) && SafeActions(actions)
    ensures var s := states[|actions|];
            && (forall a: nat | a in s.live :: s.bump.lo <= a && a + s.live[a] <= s.bump.hi)
            && (forall a: nat, b: nat | a in s.live && b in s.live && a < b :: a + s.live[a] <= b)
            && (forall a: nat, f: nat | a in s.live && f in s.home ::
                  f in s.carved && (a + s.live[a] <= f || f + s.carved[f] <= a))
  {
    hide Start, Apply, Enabled;
    var s := states[|actions|];
    RunKeepsInv(states, actions, |actions|);
    RegularViews(s);
  }

  lemma RegularViews(s: Shared)
    requires Inv(s) && RegularShared(s)
    ensures Separated(View(s, 0)) && forall a | a in s.live :: a in s.carved && s.live[a] <= s.carved[a]
    ensures forall a: nat, b: nat | a in s.carved && b in s.carved && a < b :: a + s.carved[a] <= b
    ensures forall f | f in s.home :: f in s.carved && f !in s.live
  {
    hide ListOk, ClassIndex, IsPow2, BumpPointer.Inv;
    assert SeenInv(s, 0);
    RegularIsSeparated(View(s, 0));
    forall f | f in s.home
      ensures f in s.carved && f !in s.live
    {
      FreedIsNotLive(s, f);
    }
  }

  lemma RegularClearing(s: Shared, p: nat, a: nat)
    requires Inv(s) && RegularShared(s) && p in s.live && a in s.live && a != p
    ensures var size := BlockBytes(ClassIndex(Widen(s.live[p])));
            && s.bump.lo <= p && p + size <= s.bump.hi
            && (p + size <= a || a + s.live[a] <= p)
  {
    hide ListOk, ClassIndex, IsPow2, BumpPointer.Inv;
    RegularViews(s);
    assert SeenInv(s, 0);
    ClassHolds(s.carved[p]);
  }

  /** Clearing a recycled block takes place between the step that takes it off its list and the end of the call; at any
      moment at which the block is live it touches no byte of another thread's or call's live block. */
  lemma SharedClearingHitsNobody(states: seq<Shared>, actions: seq<Action>, p: nat, a: nat)
    requires IsRun(states, actions) && SafeActions(actions)
    requires p in states[|actions|].live && a in states[|actions|].live && a != p
    ensures var s := states[|actions|];
            var size := BlockBytes(ClassIndex(Widen(s.live[p])));
            && s.bump.lo <= p && p + size <= s.bump.hi
            && (p + size <= a || a + s.live[a] <= p)
  {
    hide Start, Apply, Enabled;
    RunKeepsInv(states, actions, |actions|);
    RegularClearing(states[|actions|], p, a);
  }

  /** A request that is answered at once with a block of the thread's list clears the block of its own class: it was not
      live, it is afterwards, and no byte of a live block is cleared. */
  lemma ReuseClearsOnlyItsBlock(states: seq<Shared>, actions: seq<Action>, n: nat, t: Thread, bytes: nat, p: nat)
    requires IsRun(states, actions) && SafeActions(actions) && n < |actions| && actions[n] == Request(t, bytes)
    requires AnswerOf(states[n], actions[n]) == Returned(Ok(p))
    ensures var s, r := states[n], states[n + 1];
            && bytes <= MAX_BYTES && p !in s.live && r.live == s.live[p := bytes]
            && forall a | a in s.live ::
                 p + BlockBytes(ClassIndex(Widen(bytes))) <= a || a + s.live[a] <= p
  {
    hide Start, ClassIndex, Inv, RegularShared;
    var s, r := states[n], states[n + 1];
    RunKeepsInv(states, actions, n);
    RunKeepsInv(states, actions, n + 1);
    AllClasses(s, t);
    ClassRange(Widen(bytes));
    TakenIsNotLive(s, t, ClassIndex(Widen(bytes)));
    assert r.live == s.live[p := bytes];
    forall a | a in s.live
      ensures p + BlockBytes(ClassIndex(Widen(bytes))) <= a || a + s.live[a] <= p
    {
      RegularClearing(r, p, a);
    }
  }

  lemma TakenIsNotLive(s: Shared, t: Thread, i: nat)
    requires Inv(s) && i < |s.Lists(t)| && s.Lists(t)[i] != []
    ensures s.Lists(t)[i][0] !in s.live
  {
    assert SeenInv(s, t) && ListOk(s.Lists(t)[i], i, HomeOf(s.home, t));
    FreedIsNotLive(s, s.Lists(t)[i][0]);
  }

  /** A block that was freed is on one list of the thread that freed it, once, and on no list of another thread. */
  lemma FreedOnce(states: seq<Shared>, actions: seq<Action>, t: Thread, i: nat, j: nat, u: Thread, k: nat, l: nat)
    requires IsRun(states, actions)
    requires var s := states[|actions|];
             i < |s.Lists(t)| && j < |s.Lists(t)[i]| && k < |s.Lists(u)| && l < |s.Lists(u)[k]|
    ensures var s := states[|actions|];
            && s.Lists(t)[i][j] in s.carved && s.Lists(t)[i][j] !in s.live
            && (s.Lists(t)[i][j] == s.Lists(u)[k][l] ==> t == u && i == k && j == l)
  {
    hide Start, Apply, Enabled, ClassIndex, BumpPointer.Inv;
    RunKeepsInv(states, actions, |actions|);
    var s := states[|actions|];
    assert SeenInv(s, t) && SeenInv(s, u);
    assert ListOk(s.Lists(t)[i], i, HomeOf(s.home, t)) && ListOk(s.Lists(u)[k], k, HomeOf(s.home, u));
  }

  lemma StepKeepsRequest(s: Shared, a: Action, t: Thread)
    requires Enabled(s, a) && t in s.asked && s.bump.Thread(t).Loaded? && Apply(s, a).bump.Thread(t).Loaded?
    ensures t in Apply(s, a).asked && Apply(s, a).asked[t] == s.asked[t]
  {
    hide ClassIndex;
  }

  lemma RequestIsAsked(s: Shared, t: Thread, bytes: nat)
    requires Enabled(s, Request(t, bytes)) && Apply(s, Request(t, bytes)).bump.Thread(t).Loaded?
    ensures t in Apply(s, Request(t, bytes)).asked && Apply(s, Request(t, bytes)).asked[t] == bytes
  {
    hide ClassIndex;
  }

  /** What a thread in the loop is answered for is what it asked for. */
  lemma {:induction false} RequestIsKept(states: seq<Shared>, actions: seq<Action>, i: nat, j: nat, t: Thread, bytes: nat)
    requires IsRun(states, actions) && i < j <= |actions| && actions[i] == Request(t, bytes)
    requires forall m | i < m <= j :: states[m].bump.Thread(t).Loaded?
    ensures t in states[j].asked && states[j].asked[t] == bytes
  {
    hide Start, Apply, Enabled;
    assert Enabled(states[j - 1], actions[j - 1]) && states[j] == Apply(states[j - 1], actions[j - 1]);
    if j == i + 1 {
      RequestIsAsked(states[i], t, bytes);
    } else {
      RequestIsKept(states, actions, i, j - 1, t, bytes);
      StepKeepsRequest(states[j - 1], actions[j - 1], t);
    }
  }

  /** No thread ever waits: outside the loop it can ask for any size and free any live block, and in the loop it can try. */
  lemma ThreadsNeverWait(s: Shared, t: Thread, bytes: nat)
    requires Inv(s)
    ensures s.bump.Thread(t).Outside? && bytes < TWO_TO_THE_32 ==> Enabled(s, Request(t, bytes))
    ensures forall p | p in s.live && s.live[p] > 0 && s.bump.Thread(t).Outside? :: Enabled(s, GiveBack(t, p, s.live[p]))
    ensures s.bump.Thread(t).Loaded? ==> Enabled(s, Attempt(t))
  {
    hide SlabArena.Inv, ClassIndex;
    assert CallInv(s, t) && BumpPointer.ThreadInv(s.bump, t);
  }
}
