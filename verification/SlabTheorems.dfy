/** What histories of allocations and deallocations guarantee about live blocks and about the space they take. */
module SlabTheorems {
  import opened MachineWords
  import opened SlabClasses
  import opened SlabArena

  /** Where the bump pointer goes for a request of n bytes. */
  function Bump(s: Arena, n: nat): int {
    s.head - s.head % ALIGNMENT - n
  }

  ghost predicate Carves(s: Arena, t: Arena, bytes: RequestSize) {
    && |s.lists| == NUM_SLAB_CLASSES && ClassIndex(Widen(bytes)) < NUM_SLAB_CLASSES
    && s.lists[ClassIndex(Widen(bytes))] == []
    && Bump(s, Widen(bytes)) >= s.lo
    && t == Carve(s, Widen(bytes), bytes, Bump(s, Widen(bytes)))
  }

  /** A step carves a new block or leaves the carved part of the arena alone. */
  lemma ExecCases(s: Arena, op: Op)
    requires Inv(s) && LegalOp(s, op)
    ensures var t := Exec(s, op);
            || (t.carved == s.carved && t.head == s.head && t.hi == s.hi)
            || (op.Allocate? && op.bytes <= MAX_BYTES && Carves(s, t, op.bytes))
  {
    hide ClassIndex;
    if op.Allocate? {
      ClassRange(Widen(op.bytes));
    }
  }

  lemma ExecCarves(s: Arena, bytes: RequestSize)
    requires Inv(s) && ClassIndex(Widen(bytes)) < NUM_SLAB_CLASSES && s.lists[ClassIndex(Widen(bytes))] == []
    requires Bump(s, Widen(bytes)) >= s.lo
    ensures Exec(s, Allocate(bytes)) == Carve(s, Widen(bytes), bytes, Bump(s, Widen(bytes)))
  {
    hide ClassIndex;
    ClassRange(Widen(bytes));
  }

  // ---------------------------------------------------------------------------------------------------------------
  // What each call answers
  // ---------------------------------------------------------------------------------------------------------------

  /** The state t carves, for this many bytes, a block at p that ends at the highest multiple of 64 below the head. */
  ghost predicate TakenBelow(s: Arena, t: Arena, p: nat, bytes: nat) {
    var n := if bytes < 64 then 64 else bytes;
    && p !in s.carved && p in t.carved && t.carved[p] == n && t.carved.Keys == s.carved.Keys + {p}
    && t.head == p && (p + n) % 64 == 0 && p + n <= s.head < p + n + 64 && s.lo <= p && t.lists == s.lists
  }

  /** The state t takes the block at p, the one that waits longest, off the list of class i. */
  ghost predicate TakenOff(s: Arena, t: Arena, p: nat, i: nat) {
    && i < |s.lists| == |t.lists| && s.lists[i] == [p] + t.lists[i]
    && (forall j | 0 <= j < |s.lists| && j != i :: t.lists[j] == s.lists[j])
    && p in s.home && s.home[p] == i && t.carved == s.carved && t.head == s.head
  }

  /** An allocation answers with a block that nobody owns, from the list of the class of its size if there is one and
      else from below the head; it aborts exactly above 2^20 bytes, and finds no memory exactly when the list is empty
      and too little is left. If it gets no block it changes nothing. */
  lemma AllocAnswers(s: Arena, bytes: nat)
    requires Inv(s) && bytes < TWO_TO_THE_32
    ensures var t, r, i := Alloc(s, bytes).0, Alloc(s, bytes).1, ClassIndex(Widen(bytes));
            && (r == Aborted <==> bytes > 0x10_0000)
            && (r == OutOfMemory <==>
                  && bytes <= 0x10_0000 && i < |s.lists| && s.lists[i] == []
                  && s.head - s.head % 64 - s.lo < if bytes < 64 then 64 else bytes)
            && (r.Ok? ==>
                  && bytes <= 0x10_0000 && i < |s.lists| && r.ptr !in s.live && t.live == s.live[r.ptr := bytes]
                  && if s.lists[i] != [] then TakenOff(s, t, r.ptr, i) else TakenBelow(s, t, r.ptr, bytes))
            && (!r.Ok? ==> t == s)
  {
    hide ClassIndex, TakenOff, TakenBelow, CarvedInv, LiveInv, HomeInv, ListOk;
    ClassRange(Widen(bytes));
    var i := ClassIndex(Widen(bytes));
    if i < NUM_SLAB_CLASSES {
      if s.lists[i] != [] {
        RecycleTakesOff(s, i, bytes);
      } else if Bump(s, Widen(bytes)) >= s.lo {
        CarveTakesBelow(s, bytes);
      }
    }
  }

  lemma RecycleTakesOff(s: Arena, i: nat, bytes: RequestSize)
    requires Inv(s) && i < NUM_SLAB_CLASSES && s.lists[i] != []
    ensures s.lists[i][0] !in s.live && TakenOff(s, Recycle(s, i, bytes), s.lists[i][0], i)
  {
    assert ListOk(s.lists[i], i, s.home);
  }

  lemma CarveTakesBelow(s: Arena, bytes: RequestSize)
    requires Inv(s) && Bump(s, Widen(bytes)) >= s.lo
    ensures var d := Bump(s, Widen(bytes));
            && d !in s.live && TakenBelow(s, Carve(s, Widen(bytes), bytes, d), d, bytes)
  {
    hide ListOk, ClassIndex;
    BumpIsAligned(s.head, Widen(bytes));
    CarvedBelow(s, Bump(s, Widen(bytes)));
  }

  lemma BumpIsAligned(head: int, n: nat)
    ensures (head - head % ALIGNMENT - n + n) % ALIGNMENT == 0
  {
  }

  /** The class that a freed block goes to: up to 32 bytes it is one that no allocation takes from. */
  function FreedClass(bytes: nat): nat {
    if bytes <= 8 then 0 else if bytes <= 16 then 1 else if bytes <= 32 then 2 else ClassIndex(Widen(bytes))
  }

  lemma FreedClassIs(bytes: nat)
    requires 0 < bytes <= MAX_BYTES
    ensures ClassIndex(bytes) == FreedClass(bytes)
  {
    FreedSizeClass(bytes);
    if bytes <= 32 {
      CeilLogBounds(bytes);
      SmallPowers();
    }
  }

  /** A freed block goes to the end of one list and belongs to nobody; nothing else changes. */
  lemma FreeAnswers(s: Arena, p: nat, bytes: nat)
    requires Inv(s) && p in s.live && s.live[p] == bytes && bytes > 0
    ensures ClassIndex(bytes) < NUM_SLAB_CLASSES
    ensures var t, i := Free(s, p, bytes), FreedClass(bytes);
            && i < |s.lists| == |t.lists| && t.lists[i] == s.lists[i] + [p]
            && (forall j | 0 <= j < |s.lists| && j != i :: t.lists[j] == s.lists[j])
            && t.live == s.live - {p} && t.home == s.home[p := i]
            && t.carved == s.carved && t.head == s.head && t.lo == s.lo && t.hi == s.hi
  {
    hide ClassIndex, FreedClass;
    FreedSizeClass(bytes);
    FreedClassIs(bytes);
  }

  lemma StepKeepsLost(s: Arena, op: Op, p: nat)
    requires Inv(s) && LegalOp(s, op) && p in s.home && s.home[p] < 3
    ensures p in Exec(s, op).home && Exec(s, op).home[p] < 3 && p !in Exec(s, op).live
  {
    hide CeilLog;
    match op
    case Allocate(bytes) =>
      ClassRange(Widen(bytes));
      var i := ClassIndex(Widen(bytes));
      if i < NUM_SLAB_CLASSES && s.lists[i] != [] {
        assert ListOk(s.lists[i], i, s.home);
      } else if i < NUM_SLAB_CLASSES && Bump(s, Widen(bytes)) >= s.lo {
        CarvedBelow(s, Bump(s, Widen(bytes)));
      }
    case Deallocate(q, bytes) =>
      FreedSizeClass(bytes);
  }

  /** A block of up to 32 bytes is lost once it is freed: no later allocation ever returns it. */
  lemma {:induction false} SmallBlocksAreLost(states: seq<Arena>, ops: seq<Op>, i: nat, j: nat)
    requires IsRun(states, ops) && i < j <= |ops| && ops[i].Deallocate? && ops[i].bytes <= 32
    ensures var p := ops[i].ptr;
            p in states[j].home && states[j].home[p] < 3 && p !in states[j].live
  {
    hide Inv, ClassIndex;
    if j == i + 1 {
      RunKeepsInv(states, ops, i);
      FreeIsLost(states[i], ops[i]);
    } else {
      hide Exec, LegalOp;
      SmallBlocksAreLost(states, ops, i, j - 1);
      RunKeepsInv(states, ops, j - 1);
      StepKeepsLost(states[j - 1], ops[j - 1], ops[i].ptr);
    }
  }

  lemma FreeIsLost(s: Arena, op: Op)
    requires Inv(s) && LegalOp(s, op) && op.Deallocate? && op.bytes <= 32
    ensures op.ptr in Exec(s, op).home && Exec(s, op).home[op.ptr] < 3 && op.ptr !in Exec(s, op).live
  {
    hide CeilLog;
    FreedSizeClass(op.bytes);
  }

  // ---------------------------------------------------------------------------------------------------------------
  // Disjointness
  // ---------------------------------------------------------------------------------------------------------------

  /** The bytes that callers own are inside the arena, and no two live blocks share one. */
  ghost predicate Separated(s: Arena) {
    && (forall a: nat | a in s.live :: s.lo <= a && a + s.live[a] <= s.hi)
    && (forall a: nat, b: nat | a in s.live && b in s.live && a < b :: a + s.live[a] <= b)
  }

  ghost predicate Regular(s: Arena) {
    forall a | a in s.carved :: IsPow2(s.carved[a])
  }

  lemma RegularIsSeparated(s: Arena)
    requires Inv(s) && Regular(s)
    ensures Separated(s)
    ensures forall a | a in s.live :: s.live[a] <= s.carved[a]
  {
    forall a | a in s.live
      ensures s.live[a] <= s.carved[a]
    {
      ClassHolds(Widen(s.live[a]));
      ClassHolds(s.carved[a]);
    }
  }

  lemma RegularSizeWidens(bytes: nat)
    requires RegularSize(bytes)
    ensures IsPow2(Widen(bytes))
  {
    SmallPowers();
    assert ALIGNMENT == Pow2(6);
  }

  /** Regular sizes, and sizes that are refused. */
  ghost predicate SafeSize(bytes: nat) {
    (RegularSize(bytes) || bytes > MAX_BYTES) && bytes < TWO_TO_THE_32
  }

  ghost predicate RegularOps(ops: seq<Op>) {
    forall i | 0 <= i < |ops| && ops[i].Allocate? :: SafeSize(ops[i].bytes)
  }

  lemma {:induction false} RegularRun(states: seq<Arena>, ops: seq<Op>, i: nat)
    requires IsRun(states, ops) && RegularOps(ops) && i <= |ops|
    ensures Regular(states[i])
  {
    if i > 0 {
      RegularRun(states, ops, i - 1);
      RunKeepsInv(states, ops, i - 1);
      ExecCases(states[i - 1], ops[i - 1]);
      if ops[i - 1].Allocate? && ops[i - 1].bytes <= MAX_BYTES {
        RegularSizeWidens(ops[i - 1].bytes);
      }
    }
  }

  /** Whatever the calls and their order, as long as sizes are up to 64, powers of two, or above 2^20, and below 2^32:
      live blocks never overlap each other or a freed block, and all of them are inside the arena. */
  lemma BlocksNeverOverlap(states: seq<Arena>, ops: seq<Op>)
    requires IsRun(states, ops) && RegularOps(ops)
    ensures var s := states[|ops|];
            && Separated(s)
            && (forall a: nat, f: nat | a in s.live && f in s.home ::
                  f in s.carved && (a + s.live[a] <= f || f + s.carved[f] <= a))
  {
    RunKeepsInv(states, ops, |ops|);
    RegularRun(states, ops, |ops|);
    RegularIsSeparated(states[|ops|]);
  }

  /** Clearing a recycled block writes 2^class bytes: they fit the block exactly when it was carved as a power of two. */
  lemma ClearingFits(s: Arena, bytes: nat)
    requires Inv(s) && bytes <= MAX_BYTES
    requires ClassIndex(Widen(bytes)) < NUM_SLAB_CLASSES && s.lists[ClassIndex(Widen(bytes))] != []
    ensures var i := ClassIndex(Widen(bytes));
            var p := s.lists[i][0];
            p in s.carved && (BlockBytes(i) <= s.carved[p] <==> IsPow2(s.carved[p]))
  {
    ClassRange(Widen(bytes));
    var i := ClassIndex(Widen(bytes));
    assert ListOk(s.lists[i], i, s.home);
    ClassHolds(s.carved[s.lists[i][0]]);
  }

  /** After a regular history, clearing a recycled block touches no byte of any live block. */
  lemma ClearingHitsNobody(s: Arena, bytes: nat, a: nat)
    requires Inv(s) && Regular(s) && bytes <= MAX_BYTES && a in s.live
    requires ClassIndex(Widen(bytes)) < NUM_SLAB_CLASSES && s.lists[ClassIndex(Widen(bytes))] != []
    ensures var i := ClassIndex(Widen(bytes));
            var p := s.lists[i][0];
            p + BlockBytes(i) <= a || a + s.live[a] <= p
  {
    ClearingFits(s, bytes);
    RegularIsSeparated(s);
    var i := ClassIndex(Widen(bytes));
    assert ListOk(s.lists[i], i, s.home);
  }

  /** The arena before any call. */
  function Start(lo: nat, hi: nat): Arena {
    Arena(lo, hi, hi, seq(NUM_SLAB_CLASSES, _ => []), map[], map[], map[])
  }

  /** The power of two that a size is recycled as shares its class. */
  function RecycledAs(n: nat): nat
    requires ALIGNMENT <= n
  {
    BlockBytes(ClassIndex(n))
  }

  lemma RecycledAsPower(n: nat)
    requires ALIGNMENT < n <= MAX_BYTES && !IsPow2(n)
    ensures n < RecycledAs(n) <= MAX_BYTES && IsPow2(RecycledAs(n))
    ensures 3 < ClassIndex(n) == ClassIndex(RecycledAs(n)) < NUM_SLAB_CLASSES
  {
    ClassRange(n);
    ClassHolds(n);
    hide CeilLog;
    var c := ClassIndex(n) + MIN_SLAB_CLASS;
    assert RecycledAs(n) == Pow2(c) && IsPow2(RecycledAs(n));
    GreatestClass();
    Pow2Grows(c, NUM_SLAB_CLASSES - 1 + MIN_SLAB_CLASS);
    Pow2Grows(c - 1, c);
    CeilLogUnique(RecycledAs(n), c);
  }

  lemma RunExtends(states: seq<Arena>, ops: seq<Op>, op: Op)
    requires IsRun(states, ops) && LegalOp(states[|ops|], op)
    ensures IsRun(states + [Exec(states[|ops|], op)], ops + [op])
  {
    hide Exec, Inv, LegalOp;
  }

  lemma ExecRecycles(s: Arena, bytes: RequestSize, i: nat)
    requires Inv(s) && ClassIndex(Widen(bytes)) == i < NUM_SLAB_CLASSES && s.lists[i] != []
    ensures Exec(s, Allocate(bytes)) == Recycle(s, i, bytes)
  {
  }

  /** Where the first block ends. */
  function Top(hi: nat): nat {
    hi - hi % ALIGNMENT
  }

  lemma TopIsAligned(hi: nat)
    ensures (Top(hi) - ALIGNMENT) % ALIGNMENT == 0
  {
  }

  ghost predicate NothingFreed(s: Arena) {
    forall i | 0 <= i < |s.lists| :: s.lists[i] == []
  }

  /** A block of 64 bytes and one of n bytes below it are carved. */
  lemma CarveTwo(lo: nat, hi: nat, n: nat) returns (states: seq<Arena>)
    requires ALIGNMENT < n <= MAX_BYTES && lo + ALIGNMENT + n <= Top(hi) && ClassIndex(n) > 3
    ensures IsRun(states, [Allocate(ALIGNMENT), Allocate(n)]) && states[0] == Start(lo, hi)
    ensures var x := Top(hi) - ALIGNMENT;
            && states[2].live == map[x := ALIGNMENT, x - n := n]
            && NothingFreed(states[2])
  {
    hide ClassIndex;
    ClassRange(ALIGNMENT);
    ClassRange(n);
    var s0 := Start(lo, hi);
    NewArenaKeepsInv(s0);
    assert IsRun([s0], []);
    ExecCarves(s0, ALIGNMENT);
    var s1 := Exec(s0, Allocate(ALIGNMENT));
    ExecKeepsInv(s0, Allocate(ALIGNMENT));
    RunExtends([s0], [], Allocate(ALIGNMENT));
    TopIsAligned(hi);
    ExecCarves(s1, n);
    RunExtends([s0, s1], [Allocate(ALIGNMENT)], Allocate(n));
    states := [s0, s1] + [Exec(s1, Allocate(n))];
    assert [Allocate(ALIGNMENT)] + [Allocate(n)] == [Allocate(ALIGNMENT), Allocate(n)];
  }

  lemma FreeOne(s: Arena, y: nat, n: nat)
    requires Inv(s) && NothingFreed(s) && 32 < n <= MAX_BYTES && y in s.live && s.live[y] == n
    ensures var t := Exec(s, Deallocate(y, n));
            && Inv(t) && ClassIndex(n) < |t.lists| == NUM_SLAB_CLASSES && t.lists[ClassIndex(n)] == [y]
            && t.live == s.live - {y}
  {
    FreedSizeClass(n);
    hide ClassIndex;
    ExecKeepsInv(s, Deallocate(y, n));
    assert Exec(s, Deallocate(y, n)) == Free(s, y, n);
  }

  lemma RecycleOne(t: Arena, i: nat, y: nat, m: nat)
    requires Inv(t) && ALIGNMENT <= m <= MAX_BYTES && ClassIndex(m) == i
    requires i < |t.lists| == NUM_SLAB_CLASSES && t.lists[i] == [y]
    ensures Exec(t, Allocate(m)).live == t.live[y := m]
  {
    hide ClassIndex, Exec, Inv;
    ExecRecycles(t, m, i);
  }

  /** A block of n bytes comes back as a greater one, and the others stay. */
  lemma FreeThenRecycle(s: Arena, y: nat, n: nat)
    requires Inv(s) && NothingFreed(s) && ALIGNMENT < n <= MAX_BYTES && !IsPow2(n) && y in s.live && s.live[y] == n
    ensures var u := Exec(Exec(s, Deallocate(y, n)), Allocate(RecycledAs(n)));
            (forall x | x in s.live :: x in u.live) && y in u.live && u.live[y] == RecycledAs(n)
  {
    RecycledAsPower(n);
    FreeOne(s, y, n);
    hide ClassIndex, RecycledAs, Inv, Exec;
    RecycleOne(Exec(s, Deallocate(y, n)), ClassIndex(n), y, RecycledAs(n));
  }

  lemma RunExtendsTwice(states: seq<Arena>, ops: seq<Op>, one: Op, other: Op)
    requires IsRun(states, ops) && LegalOp(states[|ops|], one)
    requires LegalOp(Exec(states[|ops|], one), other)
    ensures var t := Exec(states[|ops|], one);
            IsRun(states + [t, Exec(t, other)], ops + [one, other])
  {
    assert |states| == |ops| + 1;
    hide Exec, LegalOp, IsRun;
    var t := Exec(states[|ops|], one);
    RunExtends(states, ops, one);
    RunExtends(states + [t], ops + [one], other);
    assert states + [t] + [Exec(t, other)] == states + [t, Exec(t, other)];
    assert ops + [one] + [other] == ops + [one, other];
  }

  /** Every size above 64 that is not a power of two breaks it, in every arena with room for it and a neighbour: freed,
      it comes back as a block of the next power of two, which reaches into the neighbour. */
  lemma IrregularSizeOverlaps(lo: nat, hi: nat, n: nat) returns (states: seq<Arena>, ops: seq<Op>)
    requires ALIGNMENT < n <= MAX_BYTES && !IsPow2(n)
    requires lo + ALIGNMENT + n <= Top(hi)
    ensures ops == [Allocate(ALIGNMENT), Allocate(n), Deallocate(Top(hi) - ALIGNMENT - n, n), Allocate(RecycledAs(n))]
    ensures IsPow2(RecycledAs(n)) && IsRun(states, ops) && !Separated(states[4]) && states[0] == Start(lo, hi)
  {
    hide Exec, Inv, ClassIndex, RecycledAs, NothingFreed, Top, IsPow2;
    RecycledAsPower(n);
    var x, y := Top(hi) - ALIGNMENT, Top(hi) - ALIGNMENT - n;
    states := CarveTwo(lo, hi, n);
    ops := [Allocate(ALIGNMENT), Allocate(n)];
    RunKeepsInv(states, ops, 2);
    FreeThenRecycle(states[2], y, n);
    var s, free, again := Exec(states[2], Deallocate(y, n)), Deallocate(y, n), Allocate(RecycledAs(n));
    RunExtendsTwice(states, ops, free, again);
    states, ops := states + [s, Exec(s, again)], ops + [free, again];
    assert x in states[4].live;
  }

  /** Safe sizes, and besides them only n. */
  ghost predicate RegularOpsOr(ops: seq<Op>, n: nat) {
    forall i | 0 <= i < |ops| && ops[i].Allocate? :: SafeSize(ops[i].bytes) || ops[i].bytes == n
  }

  /** Beside regular sizes a size is safe in every history of every arena exactly when it is regular itself, or so large
      that it is refused; another one fails also in an arena so far up that no subtraction from its head can wrap. */
  lemma SafeExactlyForRegularSizes(n: nat)
    requires n < TWO_TO_THE_32
    ensures (forall states: seq<Arena>, ops: seq<Op> | IsRun(states, ops) && RegularOpsOr(ops, n) ::
               Separated(states[|ops|]))
            <==> SafeSize(n)
    ensures !SafeSize(n) ==>
              exists states: seq<Arena>, ops: seq<Op> ::
                && IsRun(states, ops) && RegularOpsOr(ops, n)
                && states[0].lo >= MAX_BYTES && !Separated(states[|ops|])
  {
    if SafeSize(n) {
      forall states: seq<Arena>, ops: seq<Op> | IsRun(states, ops) && RegularOpsOr(ops, n)
        ensures Separated(states[|ops|])
      {
        BlocksNeverOverlap(states, ops);
      }
    } else {
      var states, ops := IrregularSizeOverlaps(MAX_BYTES, MAX_BYTES + 64 * (n + 1), n);
      assert RegularOpsOr(ops, n);
    }
  }

  // ---------------------------------------------------------------------------------------------------------------
  // Space
  // ---------------------------------------------------------------------------------------------------------------

  ghost function LiveIn(s: Arena, i: nat): set<nat> {
    set a | a in s.live && ClassIndex(Widen(s.live[a])) == i
  }

  ghost function CarvedIn(s: Arena, i: nat): set<nat> {
    set a | a in s.carved && ClassIndex(s.carved[a]) == i
  }

  /** The most blocks of class i that were live at the same time in the first k steps. */
  ghost function Peak(states: seq<Arena>, i: nat, k: nat): nat
    requires k < |states|
  {
    var here := |LiveIn(states[k], i)|;
    if k == 0 then here else
      var before := Peak(states, i, k - 1);
      if here > before then here else before
  }

  ghost function Elements(list: seq<nat>): set<nat> {
    set j | 0 <= j < |list| :: list[j]
  }

  lemma {:induction false} DistinctElements(list: seq<nat>)
    requires forall j, k | 0 <= j < k < |list| :: list[j] != list[k]
    ensures |Elements(list)| == |list|
  {
    if list != [] {
      var n := |list| - 1;
      DistinctElements(list[..n]);
      assert Elements(list) == Elements(list[..n]) + {list[n]};
    }
  }

  /** No block is ever lost: it is live, or on the list of its own class. */
  ghost predicate Recyclable(s: Arena) {
    && (forall a | a in s.live :: s.live[a] > 32)
    && (forall a | a in s.home :: s.home[a] >= 3)
    && (forall a | a in s.carved :: a in s.live || a in s.home)
  }

  lemma ListCount(list: seq<nat>, i: nat, home: map<nat, nat>)
    requires ListOk(list, i, home)
    ensures |Elements(list)| == |list|
    ensures forall a :: a in Elements(list) <==> a in home && home[a] == i
  {
    DistinctElements(list);
  }

  lemma ClassMember(s: Arena, i: nat, a: nat)
    requires Inv(s) && Recyclable(s) && i >= 3
    ensures a in CarvedIn(s, i) <==> a in LiveIn(s, i) || (a in s.home && s.home[a] == i)
    ensures !(a in LiveIn(s, i) && a in s.home)
  {
  }

  lemma DisjointCount(whole: set<nat>, one: set<nat>, other: set<nat>)
    requires forall a: nat :: a in whole <==> a in one || a in other
    requires forall a: nat :: !(a in one && a in other)
    ensures |whole| == |one| + |other|
  {
    assert whole == one + other && one !! other;
  }

  lemma ClassCount(s: Arena, i: nat)
    requires Inv(s) && Recyclable(s) && 3 <= i < NUM_SLAB_CLASSES
    ensures |CarvedIn(s, i)| == |LiveIn(s, i)| + |s.lists[i]|
  {
    var freed := Elements(s.lists[i]);
    ListCount(s.lists[i], i, s.home);
    hide ListOk, Elements, CarvedIn, LiveIn;
    forall a: nat
      ensures a in CarvedIn(s, i) <==> a in LiveIn(s, i) || a in freed
      ensures !(a in LiveIn(s, i) && a in freed)
    {
      ClassMember(s, i, a);
    }
    DisjointCount(CarvedIn(s, i), LiveIn(s, i), freed);
  }

  lemma RecycleKeepsRecyclable(s: Arena, i: nat, bytes: RequestSize)
    requires Inv(s) && Recyclable(s) && i < NUM_SLAB_CLASSES && s.lists[i] != [] && bytes > 32
    ensures Recyclable(Recycle(s, i, bytes))
  {
    assert ListOk(s.lists[i], i, s.home);
  }

  lemma StepKeepsRecyclable(s: Arena, op: Op)
    requires Inv(s) && LegalOp(s, op) && Recyclable(s) && (op.Allocate? ==> TightSize(op.bytes))
    ensures Recyclable(Exec(s, op))
  {
    hide CeilLog;
    match op
    case Allocate(bytes) =>
      ClassRange(Widen(bytes));
      var i := ClassIndex(Widen(bytes));
      if i < NUM_SLAB_CLASSES && s.lists[i] != [] {
        ExecRecycles(s, bytes, i);
        RecycleKeepsRecyclable(s, i, bytes);
      }
    case Deallocate(p, bytes) =>
      FreedSizeClass(bytes);
      ClassRange(Widen(bytes));
      assert Exec(s, op) == Free(s, p, bytes);
  }

  lemma CarveCounts(s: Arena, n: BlockSize, bytes: RequestSize, d: nat, i: nat)
    requires d !in s.carved
    ensures |CarvedIn(Carve(s, n, bytes, d), i)| == |CarvedIn(s, i)| + (if ClassIndex(n) == i then 1 else 0)
  {
    hide ClassIndex;
    var t := Carve(s, n, bytes, d);
    assert CarvedIn(t, i) == if ClassIndex(n) == i then CarvedIn(s, i) + {d} else CarvedIn(s, i);
  }

  /** What one step does to the counts of one class. */
  lemma StepCounts(s: Arena, t: Arena, bytes: RequestSize, i: nat)
    requires Inv(s) && Recyclable(s) && Inv(t) && Recyclable(t) && 3 <= i < NUM_SLAB_CLASSES
    requires t.carved == s.carved || Carves(s, t, bytes)
    ensures || |CarvedIn(t, i)| == |CarvedIn(s, i)|
            || |CarvedIn(t, i)| == |LiveIn(t, i)| == |CarvedIn(s, i)| + 1
  {
    ClassCount(t, i);
    if t.carved == s.carved {
      assert CarvedIn(t, i) == CarvedIn(s, i);
    } else {
      CarveCounts(s, Widen(bytes), bytes, t.head, i);
    }
  }

  /** The size that a call may carve a block for. */
  function Served(op: Op): RequestSize {
    if op.Allocate? && op.bytes <= MAX_BYTES then op.bytes else 0
  }

  ghost predicate TightOps(ops: seq<Op>) {
    forall i | 0 <= i < |ops| && ops[i].Allocate? :: TightSize(ops[i].bytes)
  }

  lemma {:induction false} RecyclableRun(states: seq<Arena>, ops: seq<Op>, k: nat)
    requires IsRun(states, ops) && TightOps(ops) && k <= |ops|
    ensures Recyclable(states[k])
  {
    if k > 0 {
      RecyclableRun(states, ops, k - 1);
      RunKeepsInv(states, ops, k - 1);
      StepKeepsRecyclable(states[k - 1], ops[k - 1]);
    }
  }

  /** The blocks ever carved for a class are as many as the most that were live in it at once. */
  lemma {:induction false} CarvedIsPeak(states: seq<Arena>, ops: seq<Op>, i: nat, k: nat)
    requires IsRun(states, ops) && TightOps(ops) && k <= |ops| && 3 <= i < NUM_SLAB_CLASSES
    ensures |CarvedIn(states[k], i)| == Peak(states, i, k)
  {
    RecyclableRun(states, ops, k);
    RunKeepsInv(states, ops, k);
    ClassCount(states[k], i);
    if k > 0 {
      CarvedIsPeak(states, ops, i, k - 1);
      RunKeepsInv(states, ops, k - 1);
      RecyclableRun(states, ops, k - 1);
      ExecCases(states[k - 1], ops[k - 1]);
      StepCounts(states[k - 1], states[k], Served(ops[k - 1]), i);
    }
  }

  /** Bytes of the blocks carved in the first n classes. */
  ghost function Used(s: Arena, n: nat): nat {
    if n == 0 then 0 else Used(s, n - 1) + |CarvedIn(s, n - 1)| * BlockBytes(n - 1)
  }

  ghost function PeakSpace(states: seq<Arena>, k: nat, n: nat): nat
    requires k < |states|
  {
    if n == 0 then 0 else PeakSpace(states, k, n - 1) + Peak(states, n - 1, k) * BlockBytes(n - 1)
  }

  lemma {:induction false} UsedAfterCarve(s: Arena, size: BlockSize, bytes: RequestSize, d: nat, n: nat)
    requires d !in s.carved && IsPow2(size)
    ensures Used(Carve(s, size, bytes, d), n) == Used(s, n) + (if ClassIndex(size) < n then size else 0)
  {
    hide ClassIndex, CarvedIn;
    if n > 0 {
      UsedAfterCarve(s, size, bytes, d, n - 1);
      CarveCounts(s, size, bytes, d, n - 1);
      ClassHolds(size);
    }
  }

  lemma {:induction false} UsedDependsOnCarved(s: Arena, t: Arena, n: nat)
    requires s.carved == t.carved
    ensures Used(s, n) == Used(t, n)
  {
    if n > 0 {
      UsedDependsOnCarved(s, t, n - 1);
      assert CarvedIn(s, n - 1) == CarvedIn(t, n - 1);
    }
  }

  /** The bump pointer has moved by the carved blocks and the alignment of the very first one, and by nothing else. */
  ghost predicate Packed(s: Arena) {
    if s.carved == map[] then s.head == s.hi && Used(s, |s.lists|) == 0
    else s.head % ALIGNMENT == 0 && s.hi - s.head == s.hi % ALIGNMENT + Used(s, |s.lists|)
  }

  lemma PowersAreAligned(n: nat)
    requires IsPow2(n) && n >= ALIGNMENT
    ensures n % ALIGNMENT == 0
  {
    var k: nat :| n == Pow2(k);
    SmallPowers();
    if k < 6 {
      Pow2Grows(k, 5);
    } else {
      assert Pow2(k) == 2 * Pow2(k - 1);
      AlignedPower(k);
    }
  }

  lemma {:induction false} AlignedPower(k: nat)
    requires k >= 6
    ensures Pow2(k) % ALIGNMENT == 0
  {
    SmallPowers();
    if k > 6 {
      AlignedPower(k - 1);
    }
  }

  lemma CarvedBelow(s: Arena, d: nat)
    requires Inv(s) && d < s.head
    ensures d !in s.carved && s.lo <= s.head <= s.hi && |s.lists| == NUM_SLAB_CLASSES
  {
  }

  lemma AlignedBelow(head: int, n: nat)
    requires n % ALIGNMENT == 0
    ensures (head - head % ALIGNMENT - n) % ALIGNMENT == 0
  {
  }

  lemma CarveKeepsPacked(s: Arena, n: BlockSize, bytes: RequestSize)
    requires Inv(s) && Packed(s) && IsPow2(n) && s.head - s.head % ALIGNMENT - n >= s.lo
    ensures Packed(Carve(s, n, bytes, s.head - s.head % ALIGNMENT - n))
  {
    hide Inv, IsPow2, Used, ClassIndex;
    var d := s.head - s.head % ALIGNMENT - n;
    CarvedBelow(s, d);
    PowersAreAligned(n);
    AlignedBelow(s.head, n);
    ClassRange(n);
    UsedAfterCarve(s, n, bytes, d, |s.lists|);
    assert d in Carve(s, n, bytes, d).carved;
  }

  lemma {:induction false} UsedAtStart(s: Arena, n: nat)
    requires s.carved == map[]
    ensures Used(s, n) == 0
  {
    if n > 0 {
      UsedAtStart(s, n - 1);
      assert CarvedIn(s, n - 1) == {};
    }
  }

  lemma StepKeepsPacked(s: Arena, t: Arena, bytes: RequestSize)
    requires Inv(s) && Packed(s) && RegularSize(bytes)
    requires (t.carved == s.carved && t.head == s.head && t.hi == s.hi && |t.lists| == |s.lists|) || Carves(s, t, bytes)
    ensures Packed(t)
  {
    if Carves(s, t, bytes) {
      RegularSizeWidens(bytes);
      CarveKeepsPacked(s, Widen(bytes), bytes);
    } else {
      UsedDependsOnCarved(s, t, |s.lists|);
    }
  }

  lemma {:induction false} PackedRun(states: seq<Arena>, ops: seq<Op>, k: nat)
    requires IsRun(states, ops) && RegularOps(ops) && k <= |ops|
    ensures Packed(states[k])
  {
    if k == 0 {
      UsedAtStart(states[0], |states[0].lists|);
    } else {
      PackedRun(states, ops, k - 1);
      RunKeepsInv(states, ops, k - 1);
      ExecCases(states[k - 1], ops[k - 1]);
      RunKeepsInv(states, ops, k);
      StepKeepsPacked(states[k - 1], states[k], Served(ops[k - 1]));
    }
  }

  lemma {:induction false} UsedIsPeakSpace(states: seq<Arena>, ops: seq<Op>, k: nat, n: nat)
    requires IsRun(states, ops) && TightOps(ops) && k <= |ops| && n <= NUM_SLAB_CLASSES
    ensures Used(states[k], n) == PeakSpace(states, k, n)
  {
    hide ClassIndex, CarvedIn, Peak, BlockBytes;
    if n > 0 {
      UsedIsPeakSpace(states, ops, k, n - 1);
      if n > 3 {
        CarvedIsPeak(states, ops, n - 1, k);
      } else {
        SmallClassesAreEmpty(states, ops, n - 1, k);
      }
      assert |CarvedIn(states[k], n - 1)| == Peak(states, n - 1, k);
    }
  }

  lemma {:induction false} SmallClassesAreEmpty(states: seq<Arena>, ops: seq<Op>, i: nat, k: nat)
    requires IsRun(states, ops) && k <= |ops| && i < 3
    ensures CarvedIn(states[k], i) == {} && Peak(states, i, k) == 0
  {
    forall a | a in states[k].carved
      ensures ClassIndex(states[k].carved[a]) != i
    {
      ClassRange(states[k].carved[a]);
    }
    forall a | a in states[k].live
      ensures ClassIndex(Widen(states[k].live[a])) != i
    {
      ClassRange(Widen(states[k].live[a]));
    }
    assert LiveIn(states[k], i) == {};
    if k > 0 {
      SmallClassesAreEmpty(states, ops, i, k - 1);
    }
  }

  /** The space bound: with sizes that recycle, the bump pointer never takes more than the peak demand of each class, and
      less than 64 bytes to align the first block. */
  lemma SpaceIsPeakDemand(states: seq<Arena>, ops: seq<Op>)
    requires IsRun(states, ops) && TightOps(ops)
    ensures var s := states[|ops|];
            && s.hi - s.head <= PeakSpace(states, |ops|, NUM_SLAB_CLASSES) + 63
            && (s.carved != map[] ==>
                  s.hi - s.head == PeakSpace(states, |ops|, NUM_SLAB_CLASSES) + s.hi % ALIGNMENT)
  {
    PackedRun(states, ops, |ops|);
    RunKeepsInv(states, ops, |ops|);
    UsedIsPeakSpace(states, ops, |ops|, |states[|ops|].lists|);
  }
}
