/** Selection by rank in the augmented tree. */
module PercentileSelection {
  import opened AugmentedTree

  function Repeat(x: real, n: int): (s: seq<real>) {
    if n > 0 then seq(n, _ => x) else []
  }

  /** The samples in order, each key as often as it was counted. */
  ghost function SortedKeys(t: Tree, k: Store): seq<real>
    requires Nodes(t) <= k.Keys
  {
    match t
    case Leaf => []
    case Fork(l, n, r) => SortedKeys(l, k) + Repeat(n.key, k[n].value) + SortedKeys(r, k)
  }

  ghost predicate Nondecreasing(s: seq<real>) {
    forall i, j | 0 <= i < j < |s| :: s[i] <= s[j]
  }

  lemma {:induction false} RepeatIsCopies(x: real, n: int)
    ensures multiset(Repeat(x, n)) == Copies(x, n)
  {
    if n > 0 {
      RepeatIsCopies(x, n - 1);
      assert Repeat(x, n) == Repeat(x, n - 1) + [x];
    }
  }

  lemma SortedConcat(a: seq<real>, x: real, n: int, c: seq<real>)
    requires Nondecreasing(a) && Nondecreasing(c)
    requires (forall y | y in a :: y < x) && (forall y | y in c :: x < y)
    ensures Nondecreasing(a + Repeat(x, n) + c)
  {
    var s := a + Repeat(x, n) + c;
    forall i, j | 0 <= i < j < |s|
      ensures s[i] <= s[j]
    {
      assert i < |a| ==> s[i] in a;
      assert j >= |a| + |Repeat(x, n)| ==> s[j] in c;
    }
  }

  lemma {:induction false} SortedKeysAreSorted(t: Tree, k: Store)
    requires Nodes(t) <= k.Keys && Ordered(t)
    ensures Nondecreasing(SortedKeys(t, k))
    ensures forall y | y in SortedKeys(t, k) :: exists n :: n in Nodes(t) && n.key == y
  {
    if t.Fork? {
      SortedKeysAreSorted(t.left, k);
      SortedKeysAreSorted(t.right, k);
      SortedConcat(SortedKeys(t.left, k), t.node.key, k[t.node].value, SortedKeys(t.right, k));
      forall y | y in SortedKeys(t, k)
        ensures exists n :: n in Nodes(t) && n.key == y
      {
        if y !in SortedKeys(t.left, k) && y !in SortedKeys(t.right, k) {
          assert t.node in Nodes(t) && t.node.key == y;
        }
      }
    }
  }

  /** The sorted keys are the samples, and the root's metadata counts them. */
  lemma {:induction false} SortedKeysAreContents(t: Tree, k: Store)
    requires Nodes(t) <= k.Keys && Augmented(t, k)
    ensures multiset(SortedKeys(t, k)) == Contents(t, k) && |SortedKeys(t, k)| == Meta(t, k)
  {
    if t.Fork? {
      SortedKeysAreContents(t.left, k);
      SortedKeysAreContents(t.right, k);
      RepeatIsCopies(t.node.key, k[t.node].value);
    }
  }

  /** The truncated conversion of a percentile of `size` samples. */
  function Truncated(percentile: real, size: nat): int {
    (percentile / 100.0 * size as real).Floor
  }

  /** The percentile as a rank; truncated, so it is 0 for a single sample and a percentile between 0 and 100. */
  function Rank(percentile: real, size: nat): nat
    requires 0.0 <= percentile <= 100.0
  {
    var r := Truncated(percentile, size);
    if percentile == 0.0 then 1 else r
  }

  /** The samples of a tree in order. */
  ghost function SortedSamples(tree: ATree): seq<real>
    requires tree.Valid()
    reads tree, tree.root, tree.nodes
  {
    SortedKeys(tree.tree, tree.Snapshot())
  }

  lemma SortedSamplesAreSamples(tree: ATree)
    requires tree.Valid()
    ensures Nondecreasing(SortedSamples(tree)) && multiset(SortedSamples(tree)) == tree.Samples()
    ensures SortedSamples(tree) == [] <==> tree.tree.Leaf?
  {
    SortedKeysAreSorted(tree.tree, tree.Snapshot());
    SortedKeysAreContents(tree.tree, tree.Snapshot());
    MetaIsPositive(tree.tree, tree.Snapshot());
  }

  /** PercentileAccessor::GetSize. */
  method GetSize(tree: ATree) returns (size: int)
    requires tree.Valid()
    ensures size == |SortedSamples(tree)| == |tree.Samples()|
  {
    SortedKeysAreContents(tree.tree, tree.Snapshot());
    SortedSamplesAreSamples(tree);
    assert |multiset(SortedSamples(tree))| == |SortedSamples(tree)|;
    hide SortedKeys, Contents, Ordered;
    size := if tree.root.left != null then tree.root.left.metadata else 0;
  }

  /** The subtree t, reached by p, of the snapshot k. */
  ghost predicate Reached(t: Tree, p: Node?, k: Store) {
    Nodes(t) <= k.Keys && Embeds(t, p, k) && Augmented(t, k)
  }

  ghost function MetaAt(p: Node?, k: Store): int {
    if p != null && p in k then k[p].metadata else 0
  }

  lemma ReachedChildren(t: Tree, p: Node?, k: Store)
    requires Reached(t, p, k) && t.Fork?
    ensures p == t.node && p in k
    ensures Nodes(t) <= k.Keys && Nodes(t.left) <= k.Keys && Nodes(t.right) <= k.Keys
    ensures Reached(t.left, k[p].left, k) && (k[p].left == null <==> t.left.Leaf?)
    ensures Reached(t.right, k[p].right, k) && (k[p].right == null <==> t.right.Leaf?)
    ensures k[p].left != null ==> k[p].left in k
    ensures k[p].right != null ==> k[p].right in k
    ensures MetaAt(p, k) == MetaAt(k[p].left, k) + MetaAt(k[p].right, k) + k[p].value && k[p].value >= 1
  {
  }

  lemma ReachedCounts(t: Tree, p: Node?, k: Store)
    requires Reached(t, p, k)
    ensures |SortedKeys(t, k)| == MetaAt(p, k)
  {
    SortedKeysAreContents(t, k);
  }

  /** The element of a rank from 1 to the length. */
  function Pick(s: seq<real>, rank: int): real {
    if 0 < rank <= |s| then s[rank - 1] else 0.0
  }

  lemma PickLeft(left: seq<real>, rest: seq<real>, rank: int)
    requires rank <= |left|
    ensures Pick(left + rest, rank) == Pick(left, rank)
  {
  }

  lemma PickRight(front: seq<real>, right: seq<real>, rank: int)
    requires |front| < rank <= |front| + |right|
    ensures Pick(front + right, rank) == Pick(right, rank - |front|)
  {
  }

  lemma PickMiddle(left: seq<real>, x: real, n: int, rank: int)
    requires |left| < rank <= |left| + n
    ensures Pick(left + Repeat(x, n), rank) == x
  {
  }

  /** The sample of a rank from 1 to the number of samples. */
  ghost function Nth(t: Tree, k: Store, rank: int): real
    requires Nodes(t) <= k.Keys
  {
    Pick(SortedKeys(t, k), rank)
  }

  lemma {:induction false} MetaIsPositive(t: Tree, k: Store)
    requires Nodes(t) <= k.Keys && Augmented(t, k)
    ensures Meta(t, k) >= if t.Leaf? then 0 else 1
  {
    if t.Fork? {
      MetaIsPositive(t.left, k);
      MetaIsPositive(t.right, k);
    }
  }

  lemma ReachedIsPositive(t: Tree, p: Node?, k: Store)
    requires Reached(t, p, k)
    ensures MetaAt(p, k) >= if t.Leaf? then 0 else 1
  {
    MetaIsPositive(t, k);
  }

  lemma SortedKeysOfFork(t: Tree, p: Node?, k: Store)
    requires Reached(t, p, k) && t.Fork?
    ensures p != null && p in k && Nodes(t) <= k.Keys && Nodes(t.left) <= k.Keys && Nodes(t.right) <= k.Keys
    ensures SortedKeys(t, k) == SortedKeys(t.left, k) + Repeat(p.key, k[p].value) + SortedKeys(t.right, k)
  {
    ReachedChildren(t, p, k);
  }

  /** Where the sample of a rank is, told by the metadata of a node and its children. */
  lemma SelectStep(t: Tree, p: Node?, k: Store, rank: int)
    requires Reached(t, p, k) && t.Fork? && p in k
    requires 0 < rank <= MetaAt(p, k)
    ensures Nodes(t) <= k.Keys && Nodes(t.left) <= k.Keys && Nodes(t.right) <= k.Keys
    ensures MetaAt(k[p].left, k) < rank <= MetaAt(p, k) - MetaAt(k[p].right, k) ==> Nth(t, k, rank) == p.key
    ensures rank <= MetaAt(k[p].left, k) ==> Nth(t, k, rank) == Nth(t.left, k, rank)
    ensures MetaAt(p, k) - MetaAt(k[p].right, k) < rank ==>
              Nth(t, k, rank) == Nth(t.right, k, rank - (MetaAt(p, k) - MetaAt(k[p].right, k)))
  {
    ReachedChildren(t, p, k);
    SortedKeysOfFork(t, p, k);
    ReachedCounts(t.left, k[p].left, k);
    ReachedCounts(t.right, k[p].right, k);
    hide Reached, Nodes, Augmented, Embeds, MetaAt, SortedKeys, Pick;
    var left, middle, right := SortedKeys(t.left, k), Repeat(p.key, k[p].value), SortedKeys(t.right, k);
    assert |middle| == k[p].value;
    hide Repeat;
    if rank <= |left| {
      PickLeft(left + middle, right, rank);
      PickLeft(left, middle, rank);
    } else if rank <= |left + middle| {
      PickLeft(left + middle, right, rank);
      PickMiddle(left, p.key, k[p].value, rank);
    } else {
      PickRight(left + middle, right, rank);
    }
  }

  /** The leaf reached by going left where that is possible, and right where only that is. */
  ghost function FirstLeaf(t: Tree): Node
    requires t.Fork?
  {
    if t.left.Fork? then FirstLeaf(t.left) else if t.right.Fork? then FirstLeaf(t.right) else t.node
  }

  /** The search for rank `start` in the whole tree has become the search for `rank` in the subtree t at p. */
  ghost predicate Searching(whole: Tree, start: int, t: Tree, p: Node?, rank: int, k: Store) {
    && t.Fork? && Reached(t, p, k) && p in k && Nodes(whole) <= k.Keys && rank <= MetaAt(p, k)
    && (start > 0 ==> 0 < rank && Nth(t, k, rank) == Nth(whole, k, start))
    && (start <= 0 ==> rank <= 0 && whole.Fork? && FirstLeaf(t) == FirstLeaf(whole))
  }

  lemma SearchInside(whole: Tree, start: int, t: Tree, p: Node?, rank: int, k: Store)
    requires Searching(whole, start, t, p, rank, k)
    ensures p in k && t.Fork?
    ensures (k[p].left != null ==> k[p].left in k) && (k[p].right != null ==> k[p].right in k)
  {
    ReachedChildren(t, p, k);
  }

  lemma SearchEnds(whole: Tree, start: int, t: Tree, p: Node?, rank: int, k: Store)
    requires Searching(whole, start, t, p, rank, k)
    requires || (k[p].left == null && k[p].right == null)
             || MetaAt(k[p].left, k) < rank <= MetaAt(p, k) - MetaAt(k[p].right, k)
    ensures start > 0 ==> p.key == Nth(whole, k, start)
    ensures start <= 0 ==> whole.Fork? && p == FirstLeaf(whole)
  {
    ReachedChildren(t, p, k);
    ReachedIsPositive(t.left, k[p].left, k);
    if start > 0 {
      SelectStep(t, p, k, rank);
    }
    hide Reached, SortedKeys, Nth, Nodes;
  }

  lemma SearchGoesOn(whole: Tree, start: int, t: Tree, p: Node?, rank: int, k: Store)
    requires Searching(whole, start, t, p, rank, k)
    requires k[p].left != null || k[p].right != null
    requires !(MetaAt(k[p].left, k) < rank <= MetaAt(p, k) - MetaAt(k[p].right, k))
    ensures k[p].left != null && MetaAt(k[p].left, k) >= rank ==> Searching(whole, start, t.left, k[p].left, rank, k)
    ensures !(k[p].left != null && MetaAt(k[p].left, k) >= rank) ==>
              && k[p].right != null
              && Searching(whole, start, t.right, k[p].right, rank - (MetaAt(p, k) - MetaAt(k[p].right, k)), k)
  {
    ReachedChildren(t, p, k);
    ReachedIsPositive(t.left, k[p].left, k);
    if start > 0 {
      SelectStep(t, p, k, rank);
    }
    hide Reached, SortedKeys, Nth, Nodes;
  }

  method ConvertToRank(tree: ATree, percentile: real) returns (rank: int)
    requires tree.Valid() && 0.0 <= percentile <= 100.0
    ensures rank == Rank(percentile, |SortedSamples(tree)|)
  {
    hide Truncated, SortedSamples, ATree.Valid, ATree.Samples;
    if percentile == 0.0 {
      rank := 1;
    } else {
      var size := GetSize(tree);
      rank := Truncated(percentile, size);
    }
  }

  /** The search for a rank starts at the root, and what it finds is told by the sorted samples. */
  lemma SearchStarts(tree: ATree, start: int)
    requires tree.Valid() && SortedSamples(tree) != [] && start <= |SortedSamples(tree)|
    ensures var t, k := tree.tree, tree.Snapshot();
            && tree.root.left != null && tree.root.left in tree.nodes && k.Keys == tree.nodes
            && Searching(t, start, t, tree.root.left, start, k) && Nodes(t) <= k.Keys && t.Fork?
            && (start > 0 ==> Nth(t, k, start) == SortedSamples(tree)[start - 1])
  {
    SortedSamplesAreSamples(tree);
    SortedKeysAreContents(tree.tree, tree.Snapshot());
    hide SortedKeys, Contents;
  }

  /** A single sample is the first leaf. */
  lemma SingleIsFirstLeaf(tree: ATree)
    requires tree.Valid() && |SortedSamples(tree)| == 1
    ensures tree.tree.Fork? && FirstLeaf(tree.tree).key == SortedSamples(tree)[0]
  {
    var t, k := tree.tree, tree.Snapshot();
    SortedSamplesAreSamples(tree);
    SortedKeysAreContents(t, k);
    ReachedChildren(t, tree.root.left, k);
    MetaIsPositive(t.left, k);
    MetaIsPositive(t.right, k);
    assert t.left.Leaf? && t.right.Leaf?;
  }

  /** Whether the node with the least key has no right child. */
  ghost predicate LeastIsLeaf(t: Tree) {
    t.Fork? ==> if t.left.Fork? then LeastIsLeaf(t.left) else t.right.Leaf?
  }

  lemma {:induction false} FirstLeafIsInside(t: Tree)
    requires t.Fork?
    ensures FirstLeaf(t) in Nodes(t)
  {
    if t.left.Fork? {
      FirstLeafIsInside(t.left);
    } else if t.right.Fork? {
      FirstLeafIsInside(t.right);
    }
  }

  /** The first leaf has the least key exactly when the node with the least key has no right child. */
  lemma {:induction false} FirstLeafIsLeast(t: Tree)
    requires t.Fork? && Ordered(t)
    ensures LeastIsLeaf(t) <==> forall n | n in Nodes(t) :: FirstLeaf(t).key <= n.key
  {
    FirstLeafIsInside(t);
    if t.left.Fork? {
      FirstLeafIsLeast(t.left);
      FirstLeafIsInside(t.left);
    } else if t.right.Fork? {
      FirstLeafIsInside(t.right);
      assert t.node in Nodes(t);
    }
  }

  /** The loop of FindNthPercentile: the sample of the given rank, or for a rank below 1 the first leaf. */
  method SelectRank(tree: ATree, start: int) returns (curr: Node)
    requires tree.Valid() && SortedSamples(tree) != [] && start <= |SortedSamples(tree)|
    ensures curr in tree.nodes
    ensures start > 0 ==> curr.key == SortedSamples(tree)[start - 1]
    ensures start <= 0 ==> tree.tree.Fork? && curr == FirstLeaf(tree.tree)
  {
    hide Searching, Nodes, Embeds, Augmented, Nth, Linking, SortedSamples, FirstLeaf, ATree.Valid;
    ghost var k, t := tree.Snapshot(), tree.tree;
    SearchStarts(tree, start);
    curr := tree.root.left;
    var left, right, rank := curr.left, curr.right, start;
    while left != null || right != null
      invariant Searching(tree.tree, start, t, curr, rank, k) && curr in k
      invariant left == k[curr].left && right == k[curr].right
      decreases t
    {
      SearchInside(tree.tree, start, t, curr, rank, k);
      if curr.metadata - (if right != null then right.metadata else 0) >= rank
         && (if left != null then left.metadata else 0) < rank {
        break;
      }
      SearchGoesOn(tree.tree, start, t, curr, rank, k);
      if left != null && left.metadata >= rank {
        curr, t := left, t.left;
      } else {
        assert right != null;
        rank := rank - (curr.metadata - right.metadata);
        curr, t := right, t.right;
      }
      left, right := curr.left, curr.right;
    }
    SearchEnds(tree.tree, start, t, curr, rank, k);
  }

  /** The sample of the rank that the percentile converts to; for a rank of 0 the first leaf. */
  method FindNthPercentile(tree: ATree, percentile: real) returns (curr: Node)
    requires tree.Valid() && SortedSamples(tree) != [] && 0.0 <= percentile <= 100.0
    ensures curr in tree.nodes
    ensures var sorted := SortedSamples(tree);
            var rank := Rank(percentile, |sorted|);
            && rank <= |sorted| && |sorted| > 0
            && (rank > 0 ==> curr.key == sorted[rank - 1])
            && (rank == 0 ==> tree.tree.Fork? && curr == FirstLeaf(tree.tree))
    ensures percentile == 0.0 ==> curr.key == SortedSamples(tree)[0]
    ensures forall r: int | percentile > 0.0 && IsCut(percentile, |SortedSamples(tree)|, r) ::
              && 0 <= r <= |SortedSamples(tree)|
              && (r >= 1 ==> curr.key == SortedSamples(tree)[r - 1])
              && (r == 0 ==> tree.tree.Fork? && curr == FirstLeaf(tree.tree))
  {
    hide Rank, SortedSamples, FirstLeaf, ATree.Valid, IsCut;
    RankInRange(percentile, |SortedSamples(tree)|);
    RankIsCut(percentile, |SortedSamples(tree)|);
    var rank := ConvertToRank(tree, percentile);
    curr := SelectRank(tree, rank);
  }

  /** r is p percent of n, with the fraction cut off. */
  ghost predicate IsCut(p: real, n: nat, r: int) {
    100.0 * r as real <= p * n as real < 100.0 * (r + 1) as real
  }

  lemma HundredTimes(p: real, n: real)
    ensures 100.0 * (p / 100.0 * n) == p * n
  {
    assert p / 100.0 * 100.0 == p;
    assert 100.0 * (p / 100.0 * n) == (p / 100.0 * 100.0) * n;
  }

  lemma ShareInside(q: real, n: real)
    requires 0.0 <= q <= 1.0 && n >= 0.0
    ensures 0.0 <= q * n <= n
  {
    assert (1.0 - q) * n >= 0.0;
    assert (1.0 - q) * n == n - q * n;
  }

  lemma FloorInside(x: real, n: nat)
    requires 0.0 <= x <= n as real
    ensures 0 <= x.Floor <= n
  {
    assert x.Floor as real <= x < x.Floor as real + 1.0;
  }

  /** There is exactly one such r, from 0 to n, and it is the rank of every percentile but 0, whose rank is 1. */
  lemma RankIsCut(p: real, n: nat)
    requires 0.0 <= p <= 100.0
    ensures exists r: int :: IsCut(p, n, r)
    ensures forall r: int | IsCut(p, n, r) :: r == (if p == 0.0 then 0 else Rank(p, n)) && 0 <= r <= n
    ensures p == 0.0 ==> Rank(p, n) == 1
  {
    hide IsCut;
    var q, m := p / 100.0, n as real;
    var x := q * m;
    ShareInside(q, m);
    FloorInside(x, n);
    HundredTimes(p, m);
    CutAt(p, n, x);
    assert x.Floor == Truncated(p, n);
  }

  lemma CutAt(p: real, n: nat, x: real)
    requires 100.0 * x == p * n as real
    ensures IsCut(p, n, x.Floor) && forall r: int | IsCut(p, n, r) :: r == x.Floor
  {
    forall r: int
      ensures IsCut(p, n, r) <==> r as real <= x < (r + 1) as real
    {
    }
    assert x.Floor as real <= x < (x.Floor + 1) as real;
  }

  lemma RankInRange(p: real, size: nat)
    requires 0.0 <= p <= 100.0 && size > 0
    ensures Rank(p, size) <= size
  {
    ShareInside(p / 100.0, size as real);
  }

  lemma TruncatedTenth()
    ensures Rank(10.0, 2) == 0
  {
  }

  lemma TwoSamples(samples: multiset<real>, sorted: seq<real>)
    requires samples == With(With(multiset{}, 1.0, 1), 2.0, 1) && multiset(sorted) == samples
    ensures |sorted| == 2 && 1.0 in samples && 2.0 in samples
  {
    assert |samples| == 2;
    assert |multiset(sorted)| == |sorted|;
  }

  lemma GreaterGoesRight(one: Tree, two: Tree)
    requires Lookup(one, 1.0) != null && one == InsertAt(Leaf, 1.0, Lookup(one, 1.0))
    requires Lookup(two, 2.0) != null && two == InsertAt(one, 2.0, Lookup(two, 2.0))
    ensures two.Fork? && FirstLeaf(two).key == 2.0 && !LeastIsLeaf(two)
  {
    PathFacts(one, 1.0);
    PathFacts(two, 2.0);
  }

  /** A tree whose first leaf is not the least sample: after 1.0 and 2.0, the 10th percentile has rank 0 and is 2.0. */
  method MissTheLeast() returns (tree: ATree, tenth: real)
    ensures tree.Valid() && |SortedSamples(tree)| == 2 && 1.0 in tree.Samples() && tenth == 2.0
    ensures !LeastIsLeaf(tree.tree)
  {
    hide ATree.Samples, SortedSamples, ATree.Valid, With, Rank, InsertAt, Lookup, FirstLeaf, LeastIsLeaf;
    tree := new ATree();
    tree.NoSamples();
    AbsentKeys();
    var one := tree.Insert(1.0, 1, 1);
    ghost var before := tree.tree;
    var two := tree.Insert(2.0, 1, 1);
    GreaterGoesRight(before, tree.tree);
    SortedSamplesAreSamples(tree);
    TwoSamples(tree.Samples(), SortedSamples(tree));
    TruncatedTenth();
    var node := FindNthPercentile(tree, 10.0);
    tenth := node.key;
  }

  lemma AbsentKeys()
    ensures 1.0 !in multiset{} && 2.0 !in With(multiset{}, 1.0, 1)
  {
  }
}
