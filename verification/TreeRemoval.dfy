/** Removal from the augmented tree: right for a node without children, and for no other. */
module TreeRemoval {
  import opened AugmentedTree

  /** The subtree of a key, and the tree without it. */
  ghost function SubtreeAt(t: Tree, key: real): Tree {
    match t
    case Leaf => Leaf
    case Fork(l, n, r) => if n.key == key then t else if key > n.key then SubtreeAt(r, key) else SubtreeAt(l, key)
  }

  ghost function PruneAt(t: Tree, key: real): Tree {
    match t
    case Leaf => Leaf
    case Fork(l, n, r) =>
      if n.key == key then Leaf
      else if key > n.key then Fork(l, n, PruneAt(r, key)) else Fork(PruneAt(l, key), n, r)
  }

  ghost function Leftmost(t: Tree): Node
    requires t.Fork?
  {
    if t.left.Leaf? then t.node else Leftmost(t.left)
  }

  ghost function Size(t: Tree): nat {
    if t.Leaf? then 0 else Size(t.left) + 1 + Size(t.right)
  }

  lemma {:induction false} LeftmostIsInside(t: Tree)
    requires t.Fork?
    ensures Leftmost(t) in Nodes(t)
  {
    if t.left.Fork? {
      LeftmostIsInside(t.left);
    }
  }

  lemma {:induction false} SubtreeFacts(t: Tree, key: real)
    requires Ordered(t) && Lookup(t, key) != null
    ensures var s := SubtreeAt(t, key);
            && s.Fork? && s.node == Lookup(t, key) && Ordered(s) && Nodes(s) <= Nodes(t)
            && forall m | m in Path(t, key) :: m !in Nodes(s)
  {
    if t.node.key != key {
      var d := Down(t, key);
      SubtreeFacts(d, key);
      PathFacts(d, key);
    }
  }

  lemma {:induction false} SubtreeEmbeds(t: Tree, p: Node?, key: real, k: Store)
    requires Ordered(t) && Lookup(t, key) != null && Nodes(t) <= k.Keys && Embeds(t, p, k)
    ensures Nodes(SubtreeAt(t, key)) <= k.Keys && Embeds(SubtreeAt(t, key), Lookup(t, key), k)
  {
    if t.node.key != key {
      SubtreeEmbeds(Down(t, key), DownLink(t, key, k), key, k);
    }
  }

  lemma {:induction false} PruneNodes(t: Tree, key: real)
    requires Ordered(t) && Lookup(t, key) != null
    ensures Nodes(PruneAt(t, key)) == Nodes(t) - Nodes(SubtreeAt(t, key))
  {
    if t.node.key != key {
      var d := Down(t, key);
      PruneNodes(d, key);
      SubtreeFacts(d, key);
      SidesAreApart(t, key);
      hide Ordered, Lookup, Path;
    }
  }

  lemma SidesAreApart(t: Tree, key: real)
    requires t.Fork? && Ordered(t)
    ensures Nodes(Down(t, key)) !! Nodes(Other(t, key))
    ensures t.node !in Nodes(Down(t, key)) && t.node !in Nodes(Other(t, key))
    ensures Ordered(Down(t, key)) && Ordered(Other(t, key))
  {
  }

  lemma {:induction false} PruneShape(t: Tree, key: real)
    requires Ordered(t) && Lookup(t, key) != null
    ensures var u := PruneAt(t, key);
            && Ordered(u) && Nodes(u) == Nodes(t) - Nodes(SubtreeAt(t, key)) && Path(u, key) == Path(t, key)
  {
    PruneNodes(t, key);
    if t.node.key != key {
      PruneShape(Down(t, key), key);
      hide SubtreeAt, Lookup;
    }
  }

  /** A pointer reaches one tree at most. */
  lemma {:induction false} EmbeddingIsUnique(u: Tree, v: Tree, p: Node?, k: Store)
    requires Nodes(u) <= k.Keys && Nodes(v) <= k.Keys && Embeds(u, p, k) && Embeds(v, p, k)
    ensures u == v
  {
    if u.Fork? {
      EmbeddingIsUnique(u.left, v.left, k[u.node].left, k);
      EmbeddingIsUnique(u.right, v.right, k[u.node].right, k);
    }
  }

  // ---------------------------------------------------------------------------------------------------------------
  // The links after a removal
  // ---------------------------------------------------------------------------------------------------------------

  /** ReplaceChild: the parent's link to n leads to `to` instead. */
  ghost function Hung(k: Store, parent: Node, n: Node, to: Node?): Store
    requires parent in k
  {
    k[parent := if k[parent].left == n then k[parent].(left := to) else k[parent].(right := to)]
  }

  /** What takes the place of n: nothing, when it has no right child, or else its successor, with the links of n. */
  ghost function Heir(s: Tree): Node? {
    if s.Leaf? || s.right.Leaf? then null else Leftmost(s.right)
  }

  ghost function Inherited(k: Store, n: Node, heir: Node?): Store
    requires n in k && (heir != null ==> heir in k)
  {
    if heir == null then k else k[heir := k[heir].(left := k[n].left, right := k[n].right)]
  }

  /** The store after Remove relinked the nodes of t, and the root pointer. */
  ghost function Relinked(t: Tree, key: real, k: Store): Store
    requires Ordered(t) && Lookup(t, key) != null && Nodes(t) <= k.Keys
  {
    SubtreeFacts(t, key);
    var s := SubtreeAt(t, key);
    HeirIsInside(s);
    var k1, path := Inherited(k, s.node, Heir(s)), Path(t, key);
    if path == [] || path[|path| - 1] !in k1 then k1 else Hung(k1, path[|path| - 1], s.node, Heir(s))
  }

  ghost function Root(t: Tree, p: Node?, key: real): Node?
    requires Ordered(t) && Lookup(t, key) != null
  {
    SubtreeFacts(t, key);
    if Path(t, key) == [] then Heir(SubtreeAt(t, key)) else p
  }

  lemma HeirIsInside(s: Tree)
    requires s.Fork?
    ensures Heir(s) != null ==> Heir(s) in Nodes(s.right)
  {
    if s.right.Fork? {
      LeftmostIsInside(s.right);
    }
  }

  /** Along a path the links are as they were, but for the last node's link to n, which leads to `to`. */
  ghost predicate Rehung(path: seq<Node>, n: Node, to: Node?, k: Store, k': Store) {
    forall i | 0 <= i < |path| :: RehungAt(path[i], i == |path| - 1, n, to, k, k')
  }

  ghost predicate RehungAt(m: Node, last: bool, n: Node, to: Node?, k: Store, k': Store) {
    && m in k && m in k'
    && k'[m].left == (if last && k[m].left == n then to else k[m].left)
    && k'[m].right == (if last && k[m].left != n then to else k[m].right)
  }

  lemma {:induction false} PathIsDistinct(t: Tree, key: real, i: nat, j: nat)
    requires Ordered(t) && i < j < |Path(t, key)|
    ensures Path(t, key)[i] != Path(t, key)[j]
  {
    var d := Down(t, key);
    PathFacts(d, key);
    if i > 0 {
      PathIsDistinct(d, key, i - 1, j - 1);
    } else {
      assert Path(t, key)[j] == Path(d, key)[j - 1];
    }
  }

  lemma HungRehangs(path: seq<Node>, n: Node, to: Node?, k: Store, k1: Store)
    requires path != [] && forall i | 0 <= i < |path| - 1 :: path[i] != path[|path| - 1]
    requires forall m | m in path :: m in k && m in k1 && k1[m].left == k[m].left && k1[m].right == k[m].right
    ensures Rehung(path, n, to, k, Hung(k1, path[|path| - 1], n, to))
  {
    assert path[|path| - 1] in path;
    forall i | 0 <= i < |path|
      ensures RehungAt(path[i], i == |path| - 1, n, to, k, Hung(k1, path[|path| - 1], n, to))
    {
      assert path[i] in path;
    }
  }

  lemma RelinkedRehangs(t: Tree, key: real, k: Store)
    requires Ordered(t) && Lookup(t, key) != null && Nodes(t) <= k.Keys
    ensures Rehung(Path(t, key), Lookup(t, key), Heir(SubtreeAt(t, key)), k, Relinked(t, key, k))
  {
    hide Ordered, Path, Lookup, SubtreeAt, Heir, Hung, Rehung;
    SubtreeFacts(t, key);
    HeirIsInside(SubtreeAt(t, key));
    PathFacts(t, key);
    var path, n, heir := Path(t, key), Lookup(t, key), Heir(SubtreeAt(t, key));
    forall i | 0 <= i < |path| - 1
      ensures path[i] != path[|path| - 1]
    {
      PathIsDistinct(t, key, i, |path| - 1);
    }
    assert heir != null ==> heir in Nodes(SubtreeAt(t, key));
    if path != [] {
      assert path[|path| - 1] in path;
      HungRehangs(path, n, heir, k, Inherited(k, n, heir));
    } else {
      NothingRehung(n, heir, k, Relinked(t, key, k));
    }
  }

  lemma NothingRehung(n: Node, to: Node?, k: Store, k': Store)
    ensures Rehung([], n, to, k, k')
  {
  }

  lemma RehungTail(path: seq<Node>, n: Node, to: Node?, k: Store, k': Store)
    requires Rehung(path, n, to, k, k') && path != []
    ensures Rehung(path[1..], n, to, k, k') && RehungAt(path[0], |path| == 1, n, to, k, k')
  {
  }

  /** Whatever tree the relinked nodes form, the heir is where the removed node was. */
  lemma {:induction false} FollowPath(t: Tree, p: Node?, key: real, to: Node?, k: Store, k': Store, u: Tree)
    returns (w: Tree)
    requires Ordered(t) && Lookup(t, key) != null && Nodes(t) <= k.Keys && Embeds(t, p, k)
    requires Rehung(Path(t, key), Lookup(t, key), to, k, k')
    requires Nodes(u) <= k'.Keys && Embeds(u, if Path(t, key) == [] then to else p, k')
    ensures Nodes(w) <= k'.Keys && Embeds(w, to, k')
  {
    if t.node.key == key {
      w := u;
    } else {
      RehungTail(Path(t, key), Lookup(t, key), to, k, k');
      var d, n := Down(t, key), Lookup(t, key);
      var q, e := DownLink(t, key, k), Down(u, key);
      assert Path(t, key)[1..] == Path(d, key) && Lookup(d, key) == n;
      DownIsHung(t, p, key, to, k, k');
      w := FollowPath(d, q, key, to, k, k', e);
    }
  }

  lemma DownIsHung(t: Tree, p: Node?, key: real, to: Node?, k: Store, k': Store)
    requires t.Fork? && t.node.key != key
    requires Ordered(t) && Lookup(t, key) != null && Nodes(t) <= k.Keys && Embeds(t, p, k)
    requires RehungAt(t.node, |Path(t, key)| == 1, Lookup(t, key), to, k, k')
    ensures DownLink(t, key, k') == if Path(Down(t, key), key) == [] then to else DownLink(t, key, k)
    ensures Nodes(Down(t, key)) <= k.Keys && Embeds(Down(t, key), DownLink(t, key, k), k) && Ordered(Down(t, key))
  {
    PathFacts(t.left, key);
    PathFacts(t.right, key);
  }

  /** From a node down the left links to the end of its left spine. */
  lemma {:induction false} SpineDown(r: Tree, q: Node?, k: Store, k': Store, u: Tree) returns (w: Tree)
    requires r.Fork? && Ordered(r) && Nodes(r) <= k.Keys && Embeds(r, q, k)
    requires Nodes(u) <= k'.Keys && Embeds(u, q, k')
    requires forall m | m in Nodes(r) && m in k' && m != Leftmost(r) :: k'[m].left == k[m].left
    ensures Nodes(w) <= k'.Keys && Embeds(w, Leftmost(r), k') && Size(w) <= Size(u)
  {
    LeftmostIsInside(r);
    if r.left.Leaf? {
      w := u;
    } else {
      LeftmostIsInside(r.left);
      assert r.node != Leftmost(r);
      w := SpineDown(r.left, k[r.node].left, k, k', u.left);
    }
  }

  // ---------------------------------------------------------------------------------------------------------------
  // Theorems
  // ---------------------------------------------------------------------------------------------------------------

  /** A removed node with a right child leaves a circle behind. */
  lemma RightChildMakesCircle(t: Tree, p: Node?, key: real, k: Store, u: Tree)
    requires Ordered(t) && Lookup(t, key) != null && Nodes(t) <= k.Keys && Embeds(t, p, k)
    requires SubtreeAt(t, key).Fork? && SubtreeAt(t, key).right.Fork?
    requires Nodes(u) <= Relinked(t, key, k).Keys
    ensures !Embeds(u, Root(t, p, key), Relinked(t, key, k))
  {
    var s, k' := SubtreeAt(t, key), Relinked(t, key, k);
    var heir := Leftmost(s.right);
    if Embeds(u, Root(t, p, key), k') {
      RelinkedRehangs(t, key, k);
      SubtreeFacts(t, key);
      SubtreeEmbeds(t, p, key, k);
      var w := FollowPath(t, p, key, heir, k, k', u);
      RelinkedBelow(t, p, key, k);
      var v := SpineDown(s.right, k[s.node].right, k, k', w.right);
      EmbeddingIsUnique(v, w, heir, k');
      assert false;
    }
  }

  lemma RelinkedBelow(t: Tree, p: Node?, key: real, k: Store)
    requires Ordered(t) && Lookup(t, key) != null && Nodes(t) <= k.Keys
    requires SubtreeAt(t, key).Fork? && SubtreeAt(t, key).right.Fork?
    ensures var s, k' := SubtreeAt(t, key), Relinked(t, key, k);
            && s.node in k && Leftmost(s.right) in k' && k'[Leftmost(s.right)].right == k[s.node].right
            && Ordered(s.right) && Nodes(s.right) <= k.Keys
            && forall m | m in Nodes(s.right) && m in k' && m != Leftmost(s.right) :: k'[m].left == k[m].left
  {
    SubtreeFacts(t, key);
    LeftmostIsInside(SubtreeAt(t, key).right);
    var path := Path(t, key);
    PathFacts(t, key);
    assert path != [] ==> path[|path| - 1] in path;
  }

  /** The links form a tree of all the other nodes exactly when the removed node had no children. */
  lemma RemovesOneNodeIffChildless(t: Tree, p: Node?, key: real, k: Store)
    requires Linking(t, p, k) && Lookup(t, key) != null
    ensures Lookup(t, key) in k
    ensures var n, k' := Lookup(t, key), Relinked(t, key, k);
            (exists u: Tree :: Nodes(u) == Nodes(t) - {n} && Nodes(u) <= k'.Keys && Embeds(u, Root(t, p, key), k'))
            <==> k[n].left == null && k[n].right == null
  {
    var n, k' := Lookup(t, key), Relinked(t, key, k);
    SubtreeFacts(t, key);
    SubtreeEmbeds(t, p, key, k);
    var s := SubtreeAt(t, key);
    if s.right.Fork? {
      forall u: Tree | Nodes(u) == Nodes(t) - {n} && Nodes(u) <= k'.Keys
        ensures !Embeds(u, Root(t, p, key), k')
      {
        RightChildMakesCircle(t, p, key, k, u);
      }
    } else {
      PruneShape(t, key);
      PruneEmbeds(t, p, key, k);
      if s.left.Fork? {
        assert s.left.node in Nodes(s) && s.left.node in Nodes(t) - {n};
        forall u: Tree | Nodes(u) == Nodes(t) - {n} && Nodes(u) <= k'.Keys
          ensures !Embeds(u, Root(t, p, key), k')
        {
          if Embeds(u, Root(t, p, key), k') {
            EmbeddingIsUnique(u, PruneAt(t, key), Root(t, p, key), k');
            assert false;
          }
        }
      } else {
        assert Nodes(PruneAt(t, key)) == Nodes(t) - {n};
      }
    }
  }

  /** Without a right child, the node goes with its left subtree. */
  lemma PruneEmbeds(t: Tree, p: Node?, key: real, k: Store)
    requires Ordered(t) && Lookup(t, key) != null && Nodes(t) <= k.Keys && Embeds(t, p, k)
    requires SubtreeAt(t, key).Fork? && SubtreeAt(t, key).right.Leaf?
    ensures var k' := Relinked(t, key, k);
            && k'.Keys == k.Keys && Nodes(PruneAt(t, key)) <= k'.Keys
            && Embeds(PruneAt(t, key), Root(t, p, key), k')
  {
    PruneShape(t, key);
    RelinkedRehangs(t, key, k);
    var k', path := Relinked(t, key, k), Path(t, key);
    PathFacts(t, key);
    assert path != [] ==> path[|path| - 1] in path;
    assert k'.Keys == k.Keys;
    PruneRehung(t, p, key, k, k');
  }

  /** The other child of a node on the path keeps its place. */
  lemma RehungOther(t: Tree, p: Node?, key: real, k: Store, k': Store)
    requires Ordered(t) && Lookup(t, key) != null && Nodes(t) <= k.Keys && Embeds(t, p, k) && k'.Keys == k.Keys
    requires t.Fork? && t.node.key != key && RehungAt(t.node, |Path(t, key)| == 1, Lookup(t, key), null, k, k')
    requires forall m | m in Nodes(t) && m !in Path(t, key) :: k'[m] == k[m]
    ensures Embeds(Other(t, key), if key > t.node.key then k'[t.node].left else k'[t.node].right, k')
  {
    var o := Other(t, key);
    PathFacts(t, key);
    PathFacts(Down(t, key), key);
    forall m | m in Nodes(o)
      ensures k'[m] == k[m]
    {
      assert m !in Nodes(Down(t, key)) && m != t.node;
      assert m !in Path(t, key);
    }
    SameLinks(o, if key > t.node.key then k[t.node].left else k[t.node].right, k, k');
  }

  lemma {:induction false} PruneRehung(t: Tree, p: Node?, key: real, k: Store, k': Store)
    requires Ordered(t) && Lookup(t, key) != null && Nodes(t) <= k.Keys && Embeds(t, p, k) && k'.Keys == k.Keys
    requires Rehung(Path(t, key), Lookup(t, key), null, k, k')
    requires forall m | m in Nodes(t) && m !in Path(t, key) :: k'[m] == k[m]
    ensures Nodes(PruneAt(t, key)) <= k'.Keys
    ensures Embeds(PruneAt(t, key), if Path(t, key) == [] then null else p, k')
  {
    PruneShape(t, key);
    if t.node.key != key {
      RehungTail(Path(t, key), Lookup(t, key), null, k, k');
      DownIsHung(t, p, key, null, k, k');
      var d := Down(t, key);
      assert Path(t, key)[1..] == Path(d, key) && Lookup(d, key) == Lookup(t, key);
      RehungOther(t, p, key, k, k');
      PruneRehung(d, DownLink(t, key, k), key, k, k');
    }
  }

  // ---------------------------------------------------------------------------------------------------------------
  // Removing a node without children
  // ---------------------------------------------------------------------------------------------------------------

  /** The samples without any copy of a key. */
  ghost function AllBut(samples: multiset<real>, key: real): multiset<real> {
    samples[key := 0]
  }

  lemma {:induction false} PruneOutdatesPath(t: Tree, key: real, k: Store, k': Store)
    requires Ordered(t) && Lookup(t, key) != null && Nodes(t) <= k.Keys && Augmented(t, k)
    requires Nodes(PruneAt(t, key)) <= k'.Keys
    requires forall m | m in Nodes(PruneAt(t, key)) ::
               m in k && k'[m].value == k[m].value && k'[m].metadata == k[m].metadata
    ensures AugmentedBelow(PruneAt(t, key), key, |Path(t, key)|, k')
  {
    if t.node.key != key {
      PruneOutdatesPath(Down(t, key), key, k, k');
      SameValues(Other(t, key), k, k');
    }
  }

  lemma SumWithout(l: multiset<real>, c: multiset<real>, r: multiset<real>, key: real, x: real, n: int)
    requires x != key && c == Copies(x, n)
    ensures l[key := 0] + c + r[key := 0] == (l + c + r)[key := 0]
  {
  }

  lemma {:induction false} PruneContents(t: Tree, key: real, k: Store)
    requires Ordered(t) && Lookup(t, key) != null && Nodes(t) <= k.Keys && Augmented(t, k)
    requires SubtreeAt(t, key) == Fork(Leaf, Lookup(t, key), Leaf)
    ensures Nodes(PruneAt(t, key)) <= k.Keys && Contents(PruneAt(t, key), k) == Contents(t, k)[key := 0]
  {
    PruneNodes(t, key);
    var n := t.node;
    if n.key == key {
      assert Contents(t, k) == Copies(key, k[n].value);
    } else {
      AbsentOther(t, key, k);
      SumWithout(Contents(t.left, k), Copies(n.key, k[n].value), Contents(t.right, k), key, n.key, k[n].value);
      PruneContents(Down(t, key), key, k);
    }
  }

  lemma AbsentOther(t: Tree, key: real, k: Store)
    requires t.Fork? && Ordered(t) && t.node.key != key && Nodes(t) <= k.Keys && Augmented(t, k)
    ensures Contents(Other(t, key), k)[key := 0] == Contents(Other(t, key), k)
  {
    var o := Other(t, key);
    SamplesAreNodes(o, k, key);
    PathFacts(o, key);
  }

  lemma RemoveLinks(t: Tree, p: Node?, key: real, k: Store)
    requires Linking(t, p, k) && Lookup(t, key) != null && Augmented(t, k)
    requires Lookup(t, key) in k && k[Lookup(t, key)].left == null && k[Lookup(t, key)].right == null
    ensures var u, k' := PruneAt(t, key), Relinked(t, key, k) - {Lookup(t, key)};
            && Linking(u, Root(t, p, key), k') && Path(u, key) == Path(t, key)
            && k'.Keys == k.Keys - {Lookup(t, key)} && Nodes(u) == k'.Keys
            && AugmentedBelow(u, key, |Path(u, key)|, k')
            && Contents(u, k') == AllBut(Contents(t, k), key)
  {
    var n, u, k1 := Lookup(t, key), PruneAt(t, key), Relinked(t, key, k);
    SubtreeFacts(t, key);
    SubtreeEmbeds(t, p, key, k);
    assert SubtreeAt(t, key) == Fork(Leaf, n, Leaf);
    PruneShape(t, key);
    PruneEmbeds(t, p, key, k);
    RelinkedKeepsValues(t, key, k);
    hide Relinked, Root;
    var k' := k1 - {n};
    SameLinks(u, Root(t, p, key), k1, k');
    PruneOutdatesPath(t, key, k, k');
    PruneContents(t, key, k);
    SameValues(u, k, k');
  }

  lemma RelinkedKeepsValues(t: Tree, key: real, k: Store)
    requires Ordered(t) && Lookup(t, key) != null && Nodes(t) <= k.Keys
    ensures var k' := Relinked(t, key, k);
            k'.Keys == k.Keys && forall m | m in k :: k'[m].value == k[m].value && k'[m].metadata == k[m].metadata
  {
    SubtreeFacts(t, key);
    HeirIsInside(SubtreeAt(t, key));
  }

  // ---------------------------------------------------------------------------------------------------------------
  // The methods
  // ---------------------------------------------------------------------------------------------------------------

  /** FindSuccessors: the parent that comes back is always the node itself. */
  method FindSuccessors(node: Node, ghost s: Tree, ghost nodes: set<Node>) returns (parent: Node, succ: Node?)
    requires s.Fork? && Nodes(s) <= nodes && Embeds(s, node, StoreOf(nodes))
    ensures parent == node && succ == Heir(s)
  {
    if node.right == null {
      return node, null;
    }
    parent := node;
    var curr := node.right;
    ghost var r := s.right;
    while curr.left != null
      invariant r.Fork? && Nodes(r) <= nodes && Embeds(r, curr, StoreOf(nodes)) && Leftmost(r) == Leftmost(s.right)
      decreases r
    {
      curr := curr.left;
      r := r.left;
    }
    succ := curr;
  }

  method ReplaceChild(parent: Node, child: Node, to: Node?)
    modifies parent`left, parent`right
    ensures parent.left == (if old(parent.left) == child then to else old(parent.left))
    ensures parent.right == (if old(parent.left) == child then old(parent.right) else to)
  {
    if parent.left == child {
      parent.left := to;
    } else {
      parent.right := to;
    }
  }

  lemma RelinkedIs(t: Tree, p: Node?, key: real, k: Store)
    requires Linking(t, p, k) && Lookup(t, key) != null
    ensures var s, n, path := SubtreeAt(t, key), Lookup(t, key), Path(t, key);
            && s.Fork? && Nodes(s) <= k.Keys && Embeds(s, n, k)
            && n in k && (Heir(s) != null ==> Heir(s) in k && Heir(s) != n)
            && if path == [] then Relinked(t, key, k) == Inherited(k, n, Heir(s)) && Root(t, p, key) == Heir(s) && p == n
               else path[|path| - 1] in k && Root(t, p, key) == p
                    && Relinked(t, key, k) == Hung(Inherited(k, n, Heir(s)), path[|path| - 1], n, Heir(s))
  {
    SubtreeFacts(t, key);
    SubtreeEmbeds(t, p, key, k);
    HeirIsInside(SubtreeAt(t, key));
    PathFacts(t, key);
    var path := Path(t, key);
    assert path != [] ==> path[|path| - 1] in path;
    hide Path, SubtreeAt, Lookup, Embeds, Ordered;
  }

  /** The relinking branches of Remove; the one for a successor's parent other than the node itself is never taken. */
  method Relink(tree: ATree, key: real, parent: Node, found: Node)
    requires tree.Shaped() && found == Lookup(tree.tree, key)
    requires parent == if Path(tree.tree, key) == [] then tree.root else Path(tree.tree, key)[|Path(tree.tree, key)| - 1]
    modifies tree.root`left, tree.root`right, tree.nodes`left, tree.nodes`right
    ensures tree.Snapshot() == Relinked(tree.tree, key, old(tree.Snapshot()))
    ensures tree.root.left == Root(tree.tree, old(tree.root.left), key)
  {
    RelinkedIs(tree.tree, tree.root.left, key, tree.Snapshot());
    assert tree.root !in tree.nodes && tree.Snapshot().Keys == tree.nodes;
    hide Nodes, Linking, Augmented, Ordered, Path, Lookup, SubtreeAt, Heir, Relinked, Root, Hung, ATree.Shaped;
    var above, succ := FindSuccessors(found, SubtreeAt(tree.tree, key), tree.nodes);
    if succ == null {
      Replace(tree, parent, found, null);
    } else if above == found {
      Inherit(tree, succ, found);
      Replace(tree, parent, found, succ);
    } else {
      assert false;
    }
  }

  /** The successor takes over the links of the node. */
  method Inherit(tree: ATree, succ: Node, found: Node)
    requires succ in tree.nodes && found in tree.nodes && succ != found
    modifies succ`left, succ`right
    ensures tree.Snapshot() == Inherited(old(tree.Snapshot()), found, succ)
  {
    succ.left := found.left;
    succ.right := found.right;
  }

  method Replace(tree: ATree, parent: Node, found: Node, to: Node?)
    requires parent == tree.root || parent in tree.nodes
    requires tree.root !in tree.nodes && (parent == tree.root ==> parent.left == found)
    modifies parent`left, parent`right
    ensures tree.Snapshot() ==
              if parent in tree.nodes then Hung(old(tree.Snapshot()), parent, found, to) else old(tree.Snapshot())
    ensures tree.root.left == if parent in tree.nodes then old(tree.root.left) else to
  {
    ReplaceChild(parent, found, to);
    assert parent !in tree.nodes ==> tree.Snapshot() == old(tree.Snapshot());
  }

  ghost predicate SameShape(k: Store, k': Store) {
    k.Keys == k'.Keys && forall m | m in k :: k'[m].left == k[m].left && k'[m].right == k[m].right
  }

  /** Visits the stacked nodes from the last to the first, which repairs a tree and does no harm to a ruin. */
  method VisitRemoved(tree: ATree, stack: seq<Node>, ghost key: real, ghost sound: bool)
    requires sound ==> tree.Shaped() && stack == Path(tree.tree, key)
    requires sound ==> AugmentedBelow(tree.tree, key, |stack|, tree.Snapshot())
    modifies stack`metadata
    ensures sound ==> tree.Shaped() && Augmented(tree.tree, tree.Snapshot()) && tree.Samples() == old(tree.Samples())
  {
    hide Nodes, Embeds, Ordered, Contents, Augmented, Path, Linking;
    var i := |stack|;
    if sound {
      PathFacts(tree.tree, key);
    }
    while i > 0
      invariant 0 <= i <= |stack|
      invariant sound ==> tree.Shaped() && tree.Samples() == old(tree.Samples())
      invariant sound ==> AugmentedBelow(tree.tree, key, i, tree.Snapshot())
    {
      ghost var k := tree.Snapshot();
      if sound {
        RepairLinks(tree.tree, tree.root.left, key, i, k);
      }
      tree.Visit(stack[i - 1]);
      i := i - 1;
      assert sound ==> tree.Snapshot() == Visited(k, stack[i]);
    }
  }

  /** The end of Remove: the visits and the size. */
  method FinishRemove(tree: ATree, stack: seq<Node>, ghost key: real, ghost sound: bool, ghost all: set<Node>)
    requires sound ==> tree.Shaped() && stack == Path(tree.tree, key)
    requires sound ==> AugmentedBelow(tree.tree, key, |stack|, tree.Snapshot())
    requires sound ==> Counted(tree.size - 1, tree.nodes)
    modifies tree`size, stack`metadata
    ensures tree.size == old(tree.size) - 1
    ensures sound ==> tree.Valid() && tree.Samples() == old(tree.Samples())
    ensures SameShape(old(StoreOf(all)), StoreOf(all))
  {
    hide Counted, Nodes, Augmented, AugmentedBelow, Path, ATree.Shaped, ATree.Samples;
    VisitRemoved(tree, stack, key, sound);
    tree.size := tree.size - 1;
  }

  /** The links, of whatever shape, decide whether there is a tree of these nodes. */
  lemma SameLinksSameTrees(nodes: set<Node>, p: Node?, k: Store, k': Store)
    requires SameShape(k, k') && nodes <= k.Keys
    ensures (exists u: Tree :: Nodes(u) == nodes && Nodes(u) <= k.Keys && Embeds(u, p, k))
            <==> exists u: Tree :: Nodes(u) == nodes && Nodes(u) <= k'.Keys && Embeds(u, p, k')
  {
    forall u: Tree | Nodes(u) == nodes
      ensures Embeds(u, p, k) <==> Embeds(u, p, k')
    {
      if Embeds(u, p, k) {
        SameLinks(u, p, k, k');
      }
      if Embeds(u, p, k') {
        SameLinks(u, p, k', k);
      }
    }
  }

  lemma RemovalTheorem(t: Tree, p: Node?, key: real, k: Store, k': Store)
    requires Linking(t, p, k) && Lookup(t, key) != null && SameShape(Relinked(t, key, k), k')
    ensures Lookup(t, key) in k
    ensures (exists u: Tree :: Nodes(u) == k.Keys - {Lookup(t, key)} && Nodes(u) <= k'.Keys
                               && Embeds(u, Root(t, p, key), k'))
            <==> k[Lookup(t, key)].left == null && k[Lookup(t, key)].right == null
  {
    RemovesOneNodeIffChildless(t, p, key, k);
    RelinkedKeepsValues(t, key, k);
    SameLinksSameTrees(k.Keys - {Lookup(t, key)}, Root(t, p, key), Relinked(t, key, k), k');
  }

  /** The tree that is left when a node without children is gone, seen before it is forgotten. */
  lemma ForgetAhead(tree: ATree, key: real, found: Node, stack: seq<Node>, p: Node?, k: Store)
    requires Linking(tree.tree, p, k) && Augmented(tree.tree, k) && found == Lookup(tree.tree, key)
    requires stack == Path(tree.tree, key)
    requires found in k && k[found].left == null && k[found].right == null
    requires tree.Snapshot() == Relinked(tree.tree, key, k) && tree.root.left == Root(tree.tree, p, key)
    requires tree.nodes == k.Keys
    ensures var u, rest := PruneAt(tree.tree, key), tree.nodes - {found};
            && Nodes(u) == rest && Nodes(u) <= StoreOf(rest).Keys && Linking(u, tree.root.left, StoreOf(rest))
            && stack == Path(u, key) && AugmentedBelow(u, key, |stack|, StoreOf(rest))
            && Contents(u, StoreOf(rest)) == AllBut(Contents(tree.tree, k), key)
  {
    RemoveLinks(tree.tree, p, key, k);
    StoreLess(tree.nodes, found);
    hide Embeds, Ordered, Contents, Augmented, AugmentedBelow, Path, Lookup, Relinked, Root, PruneAt, Nodes, Linking;
    hide AllBut, StoreOf;
  }

  /** From now on the tree is u, with these nodes. */
  ghost method Adopt(tree: ATree, u: Tree, rest: set<Node>)
    requires Nodes(u) == rest && Nodes(u) <= StoreOf(rest).Keys && Linking(u, tree.root.left, StoreOf(rest))
    requires tree.root !in rest
    modifies tree`tree, tree`nodes
    ensures tree.tree == u && tree.nodes == rest && tree.Shaped()
    ensures tree.Samples() == old(Contents(u, StoreOf(rest))) && tree.Snapshot() == old(StoreOf(rest))
  {
    hide Contents, Nodes, Linking, StoreOf;
    tree.tree, tree.nodes := u, rest;
  }

  lemma StoreLess(nodes: set<Node>, n: Node)
    ensures StoreOf(nodes - {n}) == StoreOf(nodes) - {n}
  {
  }

  lemma OneLess(size: int, nodes: set<Node>, n: Node)
    requires n in nodes && Counted(size, nodes)
    ensures Counted(size - 1, nodes - {n})
  {
  }

  /** Remove, for a key that is present, up to the visits. */
  method Detach(tree: ATree, key: real, parent: Node, found: Node, ghost stack: seq<Node>)
    requires tree.Shaped() && Augmented(tree.tree, tree.Snapshot())
    requires found == Lookup(tree.tree, key) && stack == Path(tree.tree, key)
    requires parent == if stack == [] then tree.root else stack[|stack| - 1]
    modifies tree`tree, tree`nodes, tree.root`left, tree.root`right, tree.nodes`left, tree.nodes`right
    ensures StoreOf(old(tree.nodes)) == Relinked(old(tree.tree), key, old(tree.Snapshot()))
    ensures tree.root.left == Root(old(tree.tree), old(tree.root.left), key)
    ensures old(found.left == null && found.right == null) ==>
              && tree.Shaped() && tree.nodes == old(tree.nodes) - {found}
              && tree.Samples() == AllBut(old(tree.Samples()), key)
              && stack == Path(tree.tree, key) && AugmentedBelow(tree.tree, key, |stack|, tree.Snapshot())
  {
    PathFacts(tree.tree, key);
    ghost var k, p := tree.Snapshot(), tree.root.left;
    ghost var childless := found.left == null && found.right == null;
    assert tree.Samples() == Contents(tree.tree, k) && found in tree.nodes && k.Keys == tree.nodes;
    assert childless <==> k[found].left == null && k[found].right == null;
    assert Linking(tree.tree, p, k) && Augmented(tree.tree, k) && tree.root !in tree.nodes;
    hide ATree.Shaped, ATree.Samples, Embeds, Ordered, Contents, Augmented, AugmentedBelow, Path, Lookup, Relinked, Root;
    hide PruneAt, Nodes, Linking, AllBut, StoreOf;
    Relink(tree, key, parent, found);
    if childless {
      ForgetAhead(tree, key, found, stack, p, k);
      Adopt(tree, PruneAt(tree.tree, key), tree.nodes - {found});
    }
  }

  lemma FoundAhead(tree: ATree, key: real)
    requires tree.Valid() && Lookup(tree.tree, key) != null
    ensures Lookup(tree.tree, key) in tree.nodes && forall n | n in Path(tree.tree, key) :: n in tree.nodes
    ensures Counted(tree.size - 1, tree.nodes - {Lookup(tree.tree, key)})
  {
    hide Counted;
    PathFacts(tree.tree, key);
    OneLess(tree.size, tree.nodes, Lookup(tree.tree, key));
  }

  /** Remove, for a key that is present. */
  method RemoveFound(tree: ATree, key: real, parent: Node, found: Node, stack: seq<Node>)
    requires tree.Valid() && found == Lookup(tree.tree, key) && stack == Path(tree.tree, key)
    requires parent == if stack == [] then tree.root else stack[|stack| - 1]
    modifies tree`size, tree`tree, tree`nodes, tree.root`left, tree.root`right
    modifies tree.nodes`left, tree.nodes`right, tree.nodes`metadata
    ensures tree.size == old(tree.size) - 1
    ensures old(found.left == null && found.right == null) ==>
              tree.Valid() && tree.Samples() == AllBut(old(tree.Samples()), key)
    ensures SameShape(Relinked(old(tree.tree), key, old(tree.Snapshot())), StoreOf(old(tree.nodes)))
    ensures tree.root.left == Root(old(tree.tree), old(tree.root.left), key)
  {
    hide Counted, Nodes, Embeds, Ordered, Contents, Augmented, AugmentedBelow, Path, Lookup, Linking, Relinked, Root;
    hide AllBut, SameShape, StoreOf, ATree.Shaped, ATree.Samples;
    FoundAhead(tree, key);
    ghost var childless, nodes := found.left == null && found.right == null, tree.nodes;
    Detach(tree, key, parent, found, stack);
    FinishRemove(tree, stack, key, childless, nodes);
  }

  /** What the removal of a key of the tree t leaves of the links. */
  ghost predicate Leaves(t: Tree, p: Node?, key: real, k: Store, root: Node?, k': Store) {
    && Ordered(t) && Lookup(t, key) != null && Nodes(t) <= k.Keys
    && root == Root(t, p, key) && SameShape(Relinked(t, key, k), k')
  }

  lemma LeavesIs(t: Tree, p: Node?, key: real, k: Store, root: Node?, k': Store)
    requires Linking(t, p, k) && Lookup(t, key) != null
    requires root == Root(t, p, key) && SameShape(Relinked(t, key, k), k')
    ensures Leaves(t, p, key, k, root, k')
  {
  }

  /** Removes a key. The other nodes still form a tree, with right counts, exactly when the node had no children. */
  method Remove(tree: ATree, key: real) returns (ok: bool)
    requires tree.Valid()
    modifies tree`size, tree`tree, tree`nodes, tree.root, tree.nodes
    ensures ok <==> key in old(tree.Samples())
    ensures !ok ==> tree.Valid() && tree.tree == old(tree.tree) && tree.size == old(tree.size)
    ensures !ok ==> tree.nodes == old(tree.nodes) && tree.root.left == old(tree.root.left)
    ensures !ok ==> tree.Snapshot() == old(tree.Snapshot())
    ensures ok ==> Leaves(old(tree.tree), old(tree.root.left), key, old(tree.Snapshot()), tree.root.left,
                          StoreOf(old(tree.nodes)))
    ensures ok ==>
              var n := old(Lookup(tree.tree, key));
              && n in old(tree.nodes) && tree.size == old(tree.size) - 1
              && (old(n.left == null && n.right == null) ==>
                    tree.Valid() && tree.Samples() == AllBut(old(tree.Samples()), key))
              && ((exists u: Tree :: Nodes(u) == old(tree.nodes) - {n} && Nodes(u) <= StoreOf(old(tree.nodes)).Keys
                                     && Embeds(u, tree.root.left, StoreOf(old(tree.nodes))))
                  <==> old(n.left == null && n.right == null))
  {
    hide Nodes, Embeds, Ordered, Contents, Augmented, AugmentedBelow, Path, Lookup, Relinked, Root, SameShape, AllBut;
    hide ATree.Samples, Counted, Leaves;
    tree.SearchAhead(key);
    var parent, curr, stack := tree.FindInternal(key);
    ok := curr != null;
    if ok {
      ghost var k, p, t, nodes := tree.Snapshot(), tree.root.left, tree.tree, tree.nodes;
      RemoveFound(tree, key, parent, curr, stack);
      RemovalTheorem(t, p, key, k, StoreOf(nodes));
      LeavesIs(t, p, key, k, tree.root.left, StoreOf(nodes));
    }
  }

  /** The root of two or more nodes has a child. */
  lemma RootHasChild(t: Tree, p: Node?, k: Store)
    requires Linking(t, p, k) && |Nodes(t)| >= 2
    ensures t.Fork? && t.node == p && p in k && Lookup(t, p.key) == p
    ensures k[p].left != null || k[p].right != null
  {
    assert t.Fork? && Embeds(t.left, k[p].left, k) && Embeds(t.right, k[p].right, k);
    assert Nodes(t) == Nodes(t.left) + {t.node} + Nodes(t.right);
  }

  method TwoKeys(a: real, b: real) returns (tree: ATree)
    requires a != b
    ensures tree.Valid() && |tree.nodes| == 2 && fresh(tree) && fresh(tree.root) && fresh(tree.nodes)
  {
    hide ATree.Shaped, ATree.Samples, Augmented, Nodes;
    tree := new ATree();
    tree.NoSamples();
    var first := tree.Insert(a, 1, 1);
    OneKey(a, b);
    var second := tree.Insert(b, 1, 1);
  }

  lemma OneKey(a: real, b: real)
    requires a != b
    ensures b !in With(multiset{}, a, 1)
  {
  }

  lemma RootIsSample(tree: ATree)
    requires tree.Valid() && |tree.nodes| == 2
    ensures var r := tree.root.left;
            r != null && r in tree.nodes && Lookup(tree.tree, r.key) == r && r.key in tree.Samples()
            && !(r.left == null && r.right == null)
  {
    RootHasChild(tree.tree, tree.root.left, tree.Snapshot());
    tree.SearchAhead(tree.root.left.key);
  }

  /** Two insertions are enough to reach a tree that a removal ruins: the removal of the root, which has a child. */
  method RuinTwoKeys(a: real, b: real) returns (tree: ATree, ok: bool, ghost nodes: set<Node>, ghost root: Node)
    requires a != b
    ensures ok && |nodes| == 2 && root in nodes
    ensures !exists u: Tree :: Nodes(u) == nodes - {root} && Nodes(u) <= StoreOf(nodes).Keys
                               && Embeds(u, tree.root.left, StoreOf(nodes))
  {
    tree := TwoKeys(a, b);
    RootIsSample(tree);
    nodes, root := tree.nodes, tree.root.left;
    hide ATree.Valid, ATree.Samples, Nodes, Embeds, Lookup, StoreOf;
    ok := Remove(tree, tree.root.left.key);
  }
}
