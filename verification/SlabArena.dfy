/** What the slab allocator does to its arena, as functions, and what whole histories of calls guarantee. */
module SlabArena {
  import opened MachineWords
  import opened SlabClasses

  const ALIGNMENT := 64
  const MIN_SLAB_CLASS := 3
  const NUM_SLAB_CLASSES := 18
  const MAX_BYTES := 0x10_0000

  type BlockSize = n: nat | ALIGNMENT <= n <= MAX_BYTES witness ALIGNMENT
  type RequestSize = n: nat | n <= MAX_BYTES

  /** The arena [lo, hi) is carved from the top down to `head`; `lists` holds the freed blocks of each class. The other
      fields are history: the size every block was carved with, the size last asked for of each live block, and the
      list that each freed block went to. */
  datatype Arena = Arena(lo: nat, hi: nat, head: int, lists: seq<seq<nat>>,
                         carved: map<nat, BlockSize>, live: map<nat, RequestSize>, home: map<nat, nat>)

  datatype Reply = Aborted | OutOfMemory | Ok(ptr: nat)

  datatype Op = Allocate(bytes: nat) | Deallocate(ptr: nat, bytes: nat)

  function Widen(bytes: nat): (n: nat)
    ensures n >= ALIGNMENT && n >= bytes
  {
    if ALIGNMENT > bytes then ALIGNMENT else bytes
  }

  function ClassIndex(bytes: nat): (i: nat)
    requires bytes > 0
  {
    (if CeilLog(bytes) < MIN_SLAB_CLASS then MIN_SLAB_CLASS else CeilLog(bytes)) - MIN_SLAB_CLASS
  }

  function BlockBytes(i: nat): (n: nat) {
    Pow2(i + MIN_SLAB_CLASS)
  }

  function Recycle(s: Arena, i: nat, bytes: RequestSize): Arena
    requires i < |s.lists| && s.lists[i] != []
  {
    var p := s.lists[i][0];
    s.(lists := s.lists[i := s.lists[i][1..]], live := s.live[p := bytes], home := s.home - {p})
  }

  function Carve(s: Arena, n: BlockSize, bytes: RequestSize, d: nat): Arena {
    s.(head := d, carved := s.carved[d := n], live := s.live[d := bytes])
  }

  /** From 2^32 bytes on the source reads past its table, and what it does has no meaning. */
  function Alloc(s: Arena, bytes: nat): (Arena, Reply)
    requires |s.lists| == NUM_SLAB_CLASSES && bytes < TWO_TO_THE_32
  {
    var n := Widen(bytes);
    var i := ClassIndex(n);
    ClassRange(n);
    if i >= NUM_SLAB_CLASSES then (s, Aborted)
    else if s.lists[i] != [] then (Recycle(s, i, bytes), Ok(s.lists[i][0]))
    else
      var d := s.head - s.head % ALIGNMENT - n;
      if d < s.lo then (s, OutOfMemory) else (Carve(s, n, bytes, d), Ok(d))
  }

  function Free(s: Arena, p: nat, bytes: nat): Arena
    requires |s.lists| == NUM_SLAB_CLASSES && bytes > 0
    requires ClassIndex(bytes) < NUM_SLAB_CLASSES
  {
    var i := ClassIndex(bytes);
    s.(lists := s.lists[i := s.lists[i] + [p]], live := s.live - {p}, home := s.home[p := i])
  }

  // ---------------------------------------------------------------------------------------------------------------
  // Sizes
  // ---------------------------------------------------------------------------------------------------------------

  ghost predicate IsPow2(x: nat) {
    exists k: nat :: x == Pow2(k)
  }

  /** Sizes whose block is carved with exactly the size that recycling assumes. */
  ghost predicate RegularSize(bytes: nat) {
    bytes <= ALIGNMENT || IsPow2(bytes)
  }

  /** Regular sizes that freeing puts back in the class that allocation takes from. */
  ghost predicate TightSize(bytes: nat) {
    32 < bytes < TWO_TO_THE_32 && RegularSize(bytes)
  }

  lemma GreatestClass()
    ensures Pow2(NUM_SLAB_CLASSES - 1 + MIN_SLAB_CLASS) == MAX_BYTES
  {
    SmallPowers();
    Pow2Shift(8);
    assert Pow2(20) == 2 * Pow2(19) == 4 * Pow2(18) == 8 * Pow2(17) == 16 * Pow2(16);
  }

  /** Sizes map to a class of the arena exactly up to 2^20 bytes, and only the widened minimum to the class of 64. */
  lemma ClassRange(n: nat)
    requires ALIGNMENT <= n < TWO_TO_THE_32
    ensures ClassIndex(n) >= 3
    ensures ClassIndex(n) < NUM_SLAB_CLASSES <==> n <= MAX_BYTES
    ensures ClassIndex(n) == 3 <==> n == ALIGNMENT
  {
    CeilLogBounds(n);
    SmallPowers();
    var c := CeilLog(n);
    if c < 6 {
      Pow2Grows(c, 5);
    } else if c > 6 {
      Pow2Grows(6, c - 1);
    }
    GreatestClass();
    if c <= 20 {
      Pow2Grows(c, 20);
    } else {
      Pow2Grows(20, c - 1);
    }
  }

  /** A class holds every size that maps to it, and its block size is the size itself exactly for powers of two. */
  lemma ClassHolds(n: nat)
    requires ALIGNMENT <= n < TWO_TO_THE_32
    ensures n <= BlockBytes(ClassIndex(n))
    ensures BlockBytes(ClassIndex(n)) == n <==> IsPow2(n)
  {
    ClassRange(n);
    CeilLogBounds(n);
    if IsPow2(n) {
      var k: nat :| n == Pow2(k);
      CeilLogUnique(n, k);
    }
  }

  lemma FreedSizeClass(bytes: nat)
    requires 0 < bytes <= MAX_BYTES
    ensures ClassIndex(bytes) < NUM_SLAB_CLASSES
    ensures bytes <= 32 ==> ClassIndex(bytes) < 3
    ensures 32 < bytes ==> ClassIndex(bytes) == ClassIndex(Widen(bytes))
  {
    SmallPowers();
    if bytes <= 32 {
      CeilLogBounds(bytes);
      var c := CeilLog(bytes);
      if c > 5 {
        Pow2Grows(5, c - 1);
      }
    } else if bytes < ALIGNMENT {
      CeilLogUnique(bytes, 6);
      CeilLogUnique(64, 6);
    } else {
      ClassRange(bytes);
    }
  }

  // ---------------------------------------------------------------------------------------------------------------
  // What every history keeps
  // ---------------------------------------------------------------------------------------------------------------

  ghost predicate CarvedInv(s: Arena) {
    && s.lo <= s.head <= s.hi
    && (forall a: nat | a in s.carved :: s.head <= a && a + s.carved[a] <= s.hi)
    && (forall a: nat, b: nat | a in s.carved && b in s.carved && a < b :: a + s.carved[a] <= b)
  }

  ghost predicate LiveInv(s: Arena) {
    forall a | a in s.live ::
      && a in s.carved
      && ClassIndex(Widen(s.live[a])) == ClassIndex(s.carved[a])
  }

  ghost predicate HomeInv(s: Arena) {
    forall a | a in s.home ::
      a in s.carved && a !in s.live && (s.home[a] >= 3 ==> ClassIndex(s.carved[a]) == s.home[a])
  }

  /** The i-th freelist holds exactly the blocks that went to it, each of them once. */
  ghost predicate ListOk(list: seq<nat>, i: nat, home: map<nat, nat>) {
    && (forall j | 0 <= j < |list| :: list[j] in home && home[list[j]] == i)
    && (forall j, k | 0 <= j < k < |list| :: list[j] != list[k])
    && (forall a | a in home && home[a] == i :: a in list)
  }

  ghost predicate ListsInv(s: Arena) {
    |s.lists| == NUM_SLAB_CLASSES && forall i | 0 <= i < |s.lists| :: ListOk(s.lists[i], i, s.home)
  }

  ghost predicate Inv(s: Arena) {
    CarvedInv(s) && LiveInv(s) && HomeInv(s) && ListsInv(s)
  }

  lemma PopKeepsList(list: seq<nat>, i: nat, home: map<nat, nat>)
    requires ListOk(list, i, home) && list != []
    ensures ListOk(list[1..], i, home - {list[0]})
  {
    forall a | a in home && home[a] == i && a != list[0]
      ensures a in list[1..]
    {
      var j :| 0 <= j < |list| && list[j] == a;
      assert list[1..][j - 1] == a;
    }
  }

  lemma PushKeepsList(list: seq<nat>, i: nat, home: map<nat, nat>, p: nat)
    requires ListOk(list, i, home) && p !in home
    ensures ListOk(list + [p], i, home[p := i])
  {
  }

  lemma RecycleKeepsLists(s: Arena, i: nat, bytes: RequestSize)
    requires ListsInv(s) && i < NUM_SLAB_CLASSES && s.lists[i] != []
    ensures ListsInv(Recycle(s, i, bytes))
  {
    PopKeepsList(s.lists[i], i, s.home);
    var t := Recycle(s, i, bytes);
    forall k | 0 <= k < |t.lists|
      ensures ListOk(t.lists[k], k, t.home)
    {
      assert ListOk(s.lists[k], k, s.home);
    }
  }

  lemma FreeKeepsLists(s: Arena, p: nat, bytes: nat)
    requires ListsInv(s) && p !in s.home && bytes > 0 && ClassIndex(bytes) < NUM_SLAB_CLASSES
    ensures ListsInv(Free(s, p, bytes))
  {
    var i := ClassIndex(bytes);
    PushKeepsList(s.lists[i], i, s.home, p);
    var t := Free(s, p, bytes);
    forall k | 0 <= k < |t.lists|
      ensures ListOk(t.lists[k], k, t.home)
    {
      assert ListOk(s.lists[k], k, s.home);
    }
  }

  lemma RecycleKeepsInv(s: Arena, i: nat, bytes: RequestSize)
    requires Inv(s) && 3 <= i < NUM_SLAB_CLASSES && s.lists[i] != [] && ClassIndex(Widen(bytes)) == i
    ensures Inv(Recycle(s, i, bytes))
  {
    RecycleKeepsLists(s, i, bytes);
    assert ListOk(s.lists[i], i, s.home) && s.lists[i][0] in s.home;
  }

  lemma CarveKeepsInv(s: Arena, n: BlockSize, bytes: RequestSize, d: nat)
    requires Inv(s) && n == Widen(bytes) && s.lo <= d && d + n <= s.head
    ensures Inv(Carve(s, n, bytes, d))
  {
  }

  lemma AllocKeepsInv(s: Arena, bytes: nat)
    requires Inv(s) && bytes < TWO_TO_THE_32
    ensures Inv(Alloc(s, bytes).0)
  {
    ClassRange(Widen(bytes));
    hide Inv, ClassIndex;
    var t := Alloc(s, bytes).0;
    var i := ClassIndex(Widen(bytes));
    var d := s.head - s.head % ALIGNMENT - Widen(bytes);
    if i >= NUM_SLAB_CLASSES {
      assert t == s;
    } else if s.lists[i] != [] {
      RecycleKeepsInv(s, i, bytes);
      assert t == Recycle(s, i, bytes);
    } else if d >= s.lo {
      CarveKeepsInv(s, Widen(bytes), bytes, d);
      assert t == Carve(s, Widen(bytes), bytes, d);
    }
  }

  lemma FreeKeepsInv(s: Arena, p: nat, bytes: nat)
    requires Inv(s) && p in s.live && s.live[p] == bytes && bytes > 0
    ensures ClassIndex(bytes) < NUM_SLAB_CLASSES
    ensures Inv(Free(s, p, bytes))
  {
    FreedSizeClass(bytes);
    FreeKeepsLists(s, p, bytes);
  }

  // ---------------------------------------------------------------------------------------------------------------
  // Histories
  // ---------------------------------------------------------------------------------------------------------------

  ghost predicate LegalOp(s: Arena, op: Op) {
    match op
    case Allocate(bytes) => bytes < TWO_TO_THE_32
    case Deallocate(p, bytes) => p in s.live && s.live[p] == bytes && bytes > 0
  }

  /** The state after a call; the guards hold of every call in a history. */
  ghost function Exec(s: Arena, op: Op): Arena {
    if |s.lists| != NUM_SLAB_CLASSES then s
    else
      match op
      case Allocate(bytes) => if bytes < TWO_TO_THE_32 then Alloc(s, bytes).0 else s
      case Deallocate(p, bytes) => if 0 < bytes <= MAX_BYTES then FreedSizeClass(bytes); Free(s, p, bytes) else s
  }

  lemma ExecKeepsInv(s: Arena, op: Op)
    requires Inv(s) && LegalOp(s, op)
    ensures Inv(Exec(s, op))
  {
    match op
    case Allocate(bytes) => AllocKeepsInv(s, bytes);
    case Deallocate(p, bytes) => FreeKeepsInv(s, p, bytes);
  }

  /** A history of calls on a new arena: every block is freed at most once per allocation, at its own size. */
  ghost predicate IsRun(states: seq<Arena>, ops: seq<Op>) {
    && |states| == |ops| + 1
    && states[0].lists == seq(NUM_SLAB_CLASSES, _ => []) && states[0].head == states[0].hi >= states[0].lo
    && states[0].carved == map[] && states[0].live == map[] && states[0].home == map[]
    && forall i | 0 <= i < |ops| :: LegalOp(states[i], ops[i]) && states[i + 1] == Exec(states[i], ops[i])
  }

  lemma {:induction false} RunKeepsInv(states: seq<Arena>, ops: seq<Op>, i: nat)
    requires IsRun(states, ops) && i <= |ops|
    ensures Inv(states[i])
  {
    if i > 0 {
      hide Exec, Inv, LegalOp;
      RunKeepsInv(states, ops, i - 1);
      ExecKeepsInv(states[i - 1], ops[i - 1]);
    } else {
      NewArenaKeepsInv(states[0]);
    }
  }

  lemma NewArenaKeepsInv(s: Arena)
    requires s.lists == seq(NUM_SLAB_CLASSES, _ => []) && s.head == s.hi >= s.lo
    requires s.carved == map[] && s.live == map[] && s.home == map[]
    ensures Inv(s)
  {
  }
}
