/** The augmented search tree, as linked nodes updated in place, with the subtree-count visitor of `Summary`: a node's
    value is the multiplicity of its key, its metadata the number of samples in its subtree. */
module AugmentedTree {

  class Node {
    const key: real
    var value: int
    var metadata: int
    var left: Node?
    var right: Node?

    constructor (key: real, value: int, metadata: int)
      ensures this.key == key && this.value == value && this.metadata == metadata && left == null && right == null
    {
      this.key, this.value, this.metadata, left, right := key, value, metadata, null, null;
    }
  }

  // ---------------------------------------------------------------------------------------------------------------
  // The tree that linked nodes represent
  // ---------------------------------------------------------------------------------------------------------------

  datatype Tree = Leaf | Fork(left: Tree, node: Node, right: Tree)

  /** What the fields of a node hold, and a snapshot of some nodes. */
  datatype Cell = Cell(left: Node?, right: Node?, value: int, metadata: int)

  type Store = map<Node, Cell>

  ghost function StoreOf(nodes: set<Node>): Store
    reads nodes
  {
    map n | n in nodes :: Cell(n.left, n.right, n.value, n.metadata)
  }

  ghost function Nodes(t: Tree): set<Node> {
    match t
    case Leaf => {}
    case Fork(l, n, r) => Nodes(l) + {n} + Nodes(r)
  }

  /** The nodes of t are linked in the shape of t, and p points to its root. */
  ghost predicate Embeds(t: Tree, p: Node?, k: Store)
    requires Nodes(t) <= k.Keys
  {
    match t
    case Leaf => p == null
    case Fork(l, n, r) => p == n && Embeds(l, k[n].left, k) && Embeds(r, k[n].right, k)
  }

  ghost predicate Ordered(t: Tree) {
    match t
    case Leaf => true
    case Fork(l, n, r) =>
      && Ordered(l) && Ordered(r)
      && (forall m | m in Nodes(l) :: m.key < n.key)
      && (forall m | m in Nodes(r) :: n.key < m.key)
  }

  ghost function Meta(t: Tree, k: Store): int
    requires Nodes(t) <= k.Keys
  {
    if t.Leaf? then 0 else k[t.node].metadata
  }

  /** Every node has a positive multiplicity and holds the sum of its children's metadata and that multiplicity. */
  ghost predicate Augmented(t: Tree, k: Store)
    requires Nodes(t) <= k.Keys
  {
    match t
    case Leaf => true
    case Fork(l, n, r) =>
      && Augmented(l, k) && Augmented(r, k)
      && k[n].value >= 1 && k[n].metadata == Meta(l, k) + Meta(r, k) + k[n].value
  }

  /** The keys with their multiplicities. */
  ghost function Contents(t: Tree, k: Store): multiset<real>
    requires Nodes(t) <= k.Keys
  {
    match t
    case Leaf => multiset{}
    case Fork(l, n, r) => Contents(l, k) + Copies(n.key, k[n].value) + Contents(r, k)
  }

  ghost function Copies(key: real, n: int): multiset<real> {
    if n > 0 then multiset{}[key := n] else multiset{}
  }

  /** The samples with n more copies of a key. */
  ghost function With(samples: multiset<real>, key: real, n: int): multiset<real> {
    samples + Copies(key, n)
  }

  /** The nodes above the place of a key, from the root down. */
  ghost function Path(t: Tree, key: real): seq<Node> {
    match t
    case Leaf => []
    case Fork(l, n, r) =>
      if n.key == key then [] else [n] + (if key > n.key then Path(r, key) else Path(l, key))
  }

  ghost function Lookup(t: Tree, key: real): Node? {
    match t
    case Leaf => null
    case Fork(l, n, r) =>
      if n.key == key then n else if key > n.key then Lookup(r, key) else Lookup(l, key)
  }

  ghost function InsertAt(t: Tree, key: real, n: Node): Tree {
    match t
    case Leaf => Fork(Leaf, n, Leaf)
    case Fork(l, m, r) =>
      if m.key == key then t
      else if key > m.key then Fork(l, m, InsertAt(r, key, n)) else Fork(InsertAt(l, key, n), m, r)
  }

  lemma {:induction false} PathFacts(t: Tree, key: real)
    ensures forall n | n in Path(t, key) :: n in Nodes(t)
    ensures Lookup(t, key) != null ==> Lookup(t, key) in Nodes(t) && Lookup(t, key).key == key
  {
    if t.Fork? {
      PathFacts(t.left, key);
      PathFacts(t.right, key);
    }
  }

  lemma {:induction false} LookupIsMembership(t: Tree, key: real)
    requires Ordered(t)
    ensures Lookup(t, key) != null <==> exists n :: n in Nodes(t) && n.key == key
  {
    PathFacts(t, key);
    if t.Fork? {
      LookupIsMembership(t.left, key);
      LookupIsMembership(t.right, key);
    }
  }

  lemma {:induction false} InsertShape(t: Tree, key: real, n: Node)
    requires Ordered(t) && n.key == key && Lookup(t, key) == null && n !in Nodes(t)
    ensures var u := InsertAt(t, key, n);
            && Ordered(u) && Nodes(u) == Nodes(t) + {n}
            && Path(u, key) == Path(t, key)
  {
    if t.Fork? {
      if key > t.node.key {
        InsertShape(t.right, key, n);
      } else {
        InsertShape(t.left, key, n);
      }
    }
  }

  lemma {:induction false} InsertContents(t: Tree, key: real, n: Node, k: Store)
    requires Ordered(t) && n.key == key && Lookup(t, key) == null && n !in Nodes(t)
    requires Nodes(t) + {n} <= k.Keys
    ensures Nodes(InsertAt(t, key, n)) <= k.Keys
    ensures Contents(InsertAt(t, key, n), k) == Contents(t, k) + Copies(key, k[n].value)
  {
    InsertShape(t, key, n);
    if t.Fork? {
      if key > t.node.key {
        InsertContents(t.right, key, n, k);
      } else {
        InsertContents(t.left, key, n, k);
      }
    }
  }

  // ---------------------------------------------------------------------------------------------------------------
  // What linking, counting and visiting one node does to the whole tree
  // ---------------------------------------------------------------------------------------------------------------

  lemma {:induction false} SameLinks(t: Tree, p: Node?, k: Store, k': Store)
    requires Nodes(t) <= k.Keys && Nodes(t) <= k'.Keys && Embeds(t, p, k)
    requires forall m | m in Nodes(t) :: k'[m].left == k[m].left && k'[m].right == k[m].right
    ensures Embeds(t, p, k')
  {
    if t.Fork? {
      SameLinks(t.left, k[t.node].left, k, k');
      SameLinks(t.right, k[t.node].right, k, k');
    }
  }

  lemma {:induction false} SameValues(t: Tree, k: Store, k': Store)
    requires Nodes(t) <= k.Keys && Nodes(t) <= k'.Keys
    requires forall m | m in Nodes(t) :: k'[m].value == k[m].value
    ensures Contents(t, k') == Contents(t, k)
    ensures (forall m | m in Nodes(t) :: k'[m].metadata == k[m].metadata) ==> (Augmented(t, k) <==> Augmented(t, k'))
  {
    if t.Fork? {
      SameValues(t.left, k, k');
      SameValues(t.right, k, k');
    }
  }

  /** The store after InsertInternal puts a new node n under the last node of the path. */
  ghost function Linked(k: Store, last: Node, key: real, n: Node): Store
    requires last in k
  {
    k[last := if key < last.key then k[last].(left := n) else k[last].(right := n)]
  }

  /** Linking n under the last node of the path, and nothing else, links the tree with n at the place of the key. */
  lemma {:induction false} LinkEmbeds(t: Tree, p: Node?, key: real, n: Node, k: Store, last: Node)
    requires Ordered(t) && Lookup(t, key) == null && t.Fork? && n !in Nodes(t) && n.key == key
    requires Nodes(t) + {n} <= k.Keys && Embeds(t, p, k) && k[n].left == null && k[n].right == null
    requires last in Nodes(t) && last == Path(t, key)[|Path(t, key)| - 1]
    ensures Nodes(InsertAt(t, key, n)) <= k.Keys
    ensures Embeds(InsertAt(t, key, n), p, Linked(k, last, key, n))
  {
    var m := t.node;
    var k' := Linked(k, last, key, n);
    InsertShape(t, key, n);
    if key > m.key {
      if t.right.Fork? {
        PathFacts(t.right, key);
        LinkEmbeds(t.right, k[m].right, key, n, k, last);
      }
      SameLinks(t.left, k[m].left, k, k');
    } else {
      if t.left.Fork? {
        PathFacts(t.left, key);
        LinkEmbeds(t.left, k[m].left, key, n, k, last);
      }
      SameLinks(t.right, k[m].right, k, k');
    }
  }

  /** Augmented everywhere except perhaps at the first i nodes of the path to the key. */
  ghost predicate AugmentedBelow(t: Tree, key: real, i: nat, k: Store)
    requires Nodes(t) <= k.Keys
  {
    if i == 0 then Augmented(t, k)
    else
      && t.Fork? && t.node.key != key && k[t.node].value >= 1
      && if key > t.node.key then Augmented(t.left, k) && AugmentedBelow(t.right, key, i - 1, k)
         else Augmented(t.right, k) && AugmentedBelow(t.left, key, i - 1, k)
  }

  ghost function MetaOf(p: Node?, k: Store): int {
    if p == null || p !in k then 0 else k[p].metadata
  }

  /** The store after the visitor's Visit(n). */
  ghost function Visited(k: Store, n: Node): Store
    requires n in k
  {
    k[n := k[n].(metadata := MetaOf(k[n].left, k) + MetaOf(k[n].right, k) + k[n].value)]
  }

  lemma VisitRoot(t: Tree, p: Node?, k: Store)
    requires t.Fork? && Nodes(t) <= k.Keys && Embeds(t, p, k) && Ordered(t)
    requires Augmented(t.left, k) && Augmented(t.right, k) && k[t.node].value >= 1
    ensures Augmented(t, Visited(k, t.node))
  {
    SameValues(t.left, k, Visited(k, t.node));
    SameValues(t.right, k, Visited(k, t.node));
  }

  lemma VisitElsewhere(t: Tree, k: Store, n: Node)
    requires Nodes(t) <= k.Keys && n in k && n !in Nodes(t) && Augmented(t, k)
    ensures Augmented(t, Visited(k, n))
  {
    SameValues(t, k, Visited(k, n));
  }

  lemma VisitedKeepsValues(k: Store, n: Node)
    requires n in k
    ensures Visited(k, n).Keys == k.Keys && forall m | m in k :: Visited(k, n)[m].value == k[m].value
  {
  }

  /** The child that the search for a key enters, and the other one. */
  ghost function Down(t: Tree, key: real): Tree
    requires t.Fork?
  {
    if key > t.node.key then t.right else t.left
  }

  ghost function Other(t: Tree, key: real): Tree
    requires t.Fork?
  {
    if key > t.node.key then t.left else t.right
  }

  ghost function DownLink(t: Tree, key: real, k: Store): Node?
    requires t.Fork? && t.node in k
  {
    if key > t.node.key then k[t.node].right else k[t.node].left
  }

  /** The node at depth i of a path, seen from the child that the path enters. */
  lemma PathStep(t: Tree, key: real, i: nat)
    requires Ordered(t) && 0 < i < |Path(t, key)|
    ensures t.Fork? && t.node.key != key && Ordered(Down(t, key))
    ensures i - 1 < |Path(Down(t, key), key)| && Path(t, key)[i] == Path(Down(t, key), key)[i - 1]
    ensures Path(t, key)[i] in Nodes(Down(t, key)) && Path(t, key)[i] !in Nodes(Other(t, key))
    ensures Nodes(Down(t, key)) <= Nodes(t) && Nodes(Other(t, key)) <= Nodes(t)
  {
    PathFacts(Down(t, key), key);
  }

  lemma BelowStep(t: Tree, p: Node?, key: real, i: nat, k: Store)
    requires t.Fork? && Nodes(t) <= k.Keys && Embeds(t, p, k) && AugmentedBelow(t, key, i + 1, k)
    ensures t.node in k && k[t.node].value >= 1 && Nodes(Down(t, key)) <= k.Keys && Nodes(Other(t, key)) <= k.Keys
    ensures Embeds(Down(t, key), DownLink(t, key, k), k)
    ensures AugmentedBelow(Down(t, key), key, i, k) && Augmented(Other(t, key), k)
  {
  }

  lemma BelowFold(t: Tree, key: real, i: nat, k: Store)
    requires t.Fork? && Nodes(t) <= k.Keys && t.node.key != key && k[t.node].value >= 1
    requires AugmentedBelow(Down(t, key), key, i, k) && Augmented(Other(t, key), k)
    ensures AugmentedBelow(t, key, i + 1, k)
  {
  }

  lemma VisitLast(t: Tree, p: Node?, key: real, k: Store)
    requires Nodes(t) <= k.Keys && Embeds(t, p, k) && Ordered(t) && Path(t, key) != [] && AugmentedBelow(t, key, 1, k)
    ensures Path(t, key)[0] in Nodes(t) && AugmentedBelow(t, key, 0, Visited(k, Path(t, key)[0]))
  {
    VisitRoot(t, p, k);
  }

  /** Visiting the lowest stacked ancestor leaves one less to repair. */
  lemma {:induction false} VisitRepairs(t: Tree, p: Node?, key: real, i: nat, k: Store)
    requires Nodes(t) <= k.Keys && Embeds(t, p, k) && Ordered(t)
    requires 0 < i <= |Path(t, key)| && AugmentedBelow(t, key, i, k)
    ensures Path(t, key)[i - 1] in Nodes(t)
    ensures AugmentedBelow(t, key, i - 1, Visited(k, Path(t, key)[i - 1]))
    decreases i
  {
    hide Visited, Augmented, AugmentedBelow, Ordered, Path, Nodes, Embeds, Down, Other, DownLink;
    if i == 1 {
      VisitLast(t, p, key, k);
    } else {
      PathStep(t, key, i - 1);
      BelowStep(t, p, key, i - 1, k);
      var n := Path(t, key)[i - 1];
      VisitedKeepsValues(k, n);
      VisitRepairs(Down(t, key), DownLink(t, key, k), key, i - 1, k);
      VisitElsewhere(Other(t, key), k, n);
      BelowFold(t, key, i - 2, Visited(k, n));
    }
  }

  /** After linking and visiting a new node only its ancestors are out of date. */
  lemma {:induction false} InsertOutdatesPath(t: Tree, key: real, n: Node, k: Store)
    requires Ordered(t) && n.key == key && Lookup(t, key) == null && n !in Nodes(t)
    requires Nodes(t) + {n} <= k.Keys && Augmented(t, k) && k[n].metadata == k[n].value >= 1
    ensures Nodes(InsertAt(t, key, n)) <= k.Keys
    ensures AugmentedBelow(InsertAt(t, key, n), key, |Path(t, key)|, k)
  {
    InsertShape(t, key, n);
    if t.Fork? {
      if key > t.node.key {
        InsertOutdatesPath(t.right, key, n, k);
      } else {
        InsertOutdatesPath(t.left, key, n, k);
      }
    }
  }

  ghost function Incremented(k: Store, n: Node): Store
    requires n in k
  {
    k[n := k[n].(value := k[n].value + 1)]
  }

  /** The store after the visitor's Update(n). */
  ghost function Updated(k: Store, n: Node): Store
    requires n in k
  {
    Visited(Incremented(k, n), n)
  }

  lemma UpdatedKeepsOthers(k: Store, n: Node, m: Node)
    requires n in k && m in k && m != n
    ensures n in Updated(k, n) && m in Updated(k, n) && Updated(k, n)[m] == k[m]
    ensures Updated(k, n)[n].value == k[n].value + 1
  {
  }

  lemma IncrementedKeepsLinks(t: Tree, p: Node?, k: Store, n: Node)
    requires Nodes(t) <= k.Keys && Embeds(t, p, k) && n in k
    ensures Incremented(k, n).Keys == k.Keys && Incremented(k, n)[n].value == k[n].value + 1
    ensures Embeds(t, p, Incremented(k, n))
  {
    SameLinks(t, p, k, Incremented(k, n));
  }

  lemma IncrementedElsewhere(t: Tree, k: Store, n: Node)
    requires Nodes(t) <= k.Keys && n in k && n !in Nodes(t) && Augmented(t, k)
    ensures Nodes(t) <= Incremented(k, n).Keys && Augmented(t, Incremented(k, n))
  {
    SameValues(t, k, Incremented(k, n));
  }

  lemma UpdateRoot(t: Tree, p: Node?, k: Store)
    requires t.Fork? && Ordered(t) && Nodes(t) <= k.Keys && Embeds(t, p, k) && Augmented(t, k)
    ensures Augmented(t, Updated(k, t.node))
  {
    IncrementedKeepsLinks(t, p, k, t.node);
    IncrementedElsewhere(t.left, k, t.node);
    IncrementedElsewhere(t.right, k, t.node);
    hide Incremented, Visited, Contents;
    VisitRoot(t, p, Incremented(k, t.node));
  }

  lemma UpdateElsewhere(t: Tree, k: Store, f: Node)
    requires Nodes(t) <= k.Keys && f in k && f !in Nodes(t) && Augmented(t, k)
    ensures Augmented(t, Updated(k, f))
  {
    SameValues(t, k, Updated(k, f));
  }

  /** After counting one more of a present key only the ancestors of its node are out of date. */
  lemma {:induction false} UpdateOutdatesPath(t: Tree, p: Node?, key: real, k: Store)
    requires Ordered(t) && Lookup(t, key) != null && Nodes(t) <= k.Keys && Embeds(t, p, k) && Augmented(t, k)
    ensures Lookup(t, key) in Nodes(t)
    ensures AugmentedBelow(t, key, |Path(t, key)|, Updated(k, Lookup(t, key)))
  {
    hide Updated;
    PathFacts(t, key);
    var m := t.node;
    var f := Lookup(t, key);
    if m.key == key {
      UpdateRoot(t, p, k);
    } else {
      UpdatedKeepsOthers(k, f, m);
      PathFacts(t.left, key);
      PathFacts(t.right, key);
      if key > m.key {
        UpdateOutdatesPath(t.right, k[m].right, key, k);
        UpdateElsewhere(t.left, k, f);
      } else {
        UpdateOutdatesPath(t.left, k[m].left, key, k);
        UpdateElsewhere(t.right, k, f);
      }
    }
  }

  lemma OneMore(a: multiset<real>, b: multiset<real>, c: multiset<real>, x: real)
    ensures (a + multiset{x}) + b + c == a + b + c + multiset{x}
    ensures a + (b + multiset{x}) + c == a + b + c + multiset{x}
    ensures a + b + (c + multiset{x}) == a + b + c + multiset{x}
  {
  }

  lemma UpdateRootContents(t: Tree, k: Store, k': Store)
    requires t.Fork? && Nodes(t) <= k.Keys && Nodes(t) <= k'.Keys && k[t.node].value >= 1
    requires k'[t.node].value == k[t.node].value + 1
    requires Contents(t.left, k') == Contents(t.left, k) && Contents(t.right, k') == Contents(t.right, k)
    ensures Contents(t, k') == Contents(t, k) + multiset{t.node.key}
  {
    var n := t.node;
    OneMore(Contents(t.left, k), Copies(n.key, k[n].value), Contents(t.right, k), n.key);
    assert Copies(n.key, k[n].value + 1) == Copies(n.key, k[n].value) + multiset{n.key};
  }

  /** Counting one more of a present key adds one copy of it. */
  lemma {:induction false} UpdateContents(t: Tree, key: real, k: Store, k': Store)
    requires Ordered(t) && Lookup(t, key) != null && Nodes(t) <= k.Keys && Nodes(t) <= k'.Keys
    requires forall m | m in Nodes(t) :: k'[m].value == k[m].value + (if m == Lookup(t, key) then 1 else 0)
    requires Lookup(t, key) in k && k[Lookup(t, key)].value >= 1
    ensures Contents(t, k') == Contents(t, k) + multiset{key}
  {
    hide Copies;
    PathFacts(t, key);
    var m := t.node;
    if m.key == key {
      SameValues(t.left, k, k');
      SameValues(t.right, k, k');
      UpdateRootContents(t, k, k');
    } else {
      OneMore(Contents(t.left, k), Copies(m.key, k[m].value), Contents(t.right, k), key);
      PathFacts(t.left, key);
      PathFacts(t.right, key);
      if key > m.key {
        UpdateContents(t.right, key, k, k');
        SameValues(t.left, k, k');
      } else {
        UpdateContents(t.left, key, k, k');
        SameValues(t.right, k, k');
      }
    }
  }

  lemma {:induction false} ChildrenInside(t: Tree, p: Node?, k: Store, n: Node)
    requires Nodes(t) <= k.Keys && Embeds(t, p, k) && n in Nodes(t)
    ensures k[n].left == null || k[n].left in Nodes(t)
    ensures k[n].right == null || k[n].right in Nodes(t)
  {
    if n != t.node {
      if n in Nodes(t.left) {
        ChildrenInside(t.left, k[t.node].left, k, n);
      } else {
        ChildrenInside(t.right, k[t.node].right, k, n);
      }
    }
  }

  /** A tree that the root pointer p reaches, consistent in every node. */
  ghost predicate Linking(t: Tree, p: Node?, k: Store) {
    Nodes(t) == k.Keys && Ordered(t) && Embeds(t, p, k)
  }

  /** The store after InsertInternal. */
  ghost function Inserted(t: Tree, key: real, n: Node, cell: Cell, k: Store): Store {
    var path := Path(t, key);
    var k1 := k[n := cell];
    if path == [] || path[|path| - 1] !in k then k1 else Linked(k1, path[|path| - 1], key, n)
  }

  lemma {:induction false} InsertedIsFound(t: Tree, key: real, n: Node)
    requires Lookup(t, key) == null && n.key == key
    ensures Lookup(InsertAt(t, key, n), key) == n
  {
    if t.Fork? {
      if key > t.node.key {
        InsertedIsFound(t.right, key, n);
      } else {
        InsertedIsFound(t.left, key, n);
      }
    }
  }

  lemma InsertLinks(t: Tree, p: Node?, key: real, n: Node, cell: Cell, k: Store)
    requires Linking(t, p, k) && Lookup(t, key) == null && n !in k && n.key == key
    requires cell.left == null && cell.right == null
    ensures Linking(InsertAt(t, key, n), if t.Leaf? then n else p, Inserted(t, key, n, cell, k))
    ensures Nodes(InsertAt(t, key, n)) == Nodes(t) + {n} && (Path(t, key) == [] <==> t.Leaf?)
    ensures Inserted(t, key, n, cell, k)[n] == cell
    ensures forall m | m in k ::
              var c := Inserted(t, key, n, cell, k)[m]; c.value == k[m].value && c.metadata == k[m].metadata
  {
    PathFacts(t, key);
    InsertShape(t, key, n);
    var k1 := k[n := cell];
    SameLinks(t, p, k, k1);
    if t.Fork? {
      LinkEmbeds(t, p, key, n, k1, Path(t, key)[|Path(t, key)| - 1]);
    }
  }

  lemma InsertThenVisit(t: Tree, p: Node?, key: real, n: Node, value: int, metadata: int, k: Store)
    requires Linking(t, p, k) && Lookup(t, key) == null && n !in k && n.key == key && Augmented(t, k) && value >= 1
    ensures var u := InsertAt(t, key, n);
            var k' := Visited(Inserted(t, key, n, Cell(null, null, value, metadata), k), n);
            && Linking(u, if t.Leaf? then n else p, k') && Path(u, key) == Path(t, key)
            && AugmentedBelow(u, key, |Path(u, key)|, k')
            && Contents(u, k') == Contents(t, k) + Copies(key, value)
  {
    var u := InsertAt(t, key, n);
    InsertLinks(t, p, key, n, Cell(null, null, value, metadata), k);
    var k1 := Inserted(t, key, n, Cell(null, null, value, metadata), k);
    var k' := Visited(k1, n);
    InsertShape(t, key, n);
    SameLinks(u, if t.Leaf? then n else p, k1, k');
    SameValues(t, k, k');
    InsertOutdatesPath(t, key, n, k');
    InsertContents(t, key, n, k');
  }

  lemma OneCopy(key: real)
    ensures Copies(key, 1) == multiset{key}
  {
  }

  lemma UpdateLinks(t: Tree, p: Node?, key: real, k: Store)
    requires Linking(t, p, k) && Lookup(t, key) != null && Augmented(t, k)
    ensures var n := Lookup(t, key);
            n in k && (k[n].left == null || k[n].left in k) && (k[n].right == null || k[n].right in k)
    ensures var k' := Updated(k, Lookup(t, key));
            && Linking(t, p, k')
            && AugmentedBelow(t, key, |Path(t, key)|, k')
            && Contents(t, k') == Contents(t, k) + Copies(key, 1)
  {
    hide Copies, Contents;
    PathFacts(t, key);
    var k' := Updated(k, Lookup(t, key));
    UpdateOutdatesPath(t, p, key, k);
    ChildrenInside(t, p, k, Lookup(t, key));
    SameLinks(t, p, k, k');
    PositiveValues(t, k);
    UpdateContents(t, key, k, k');
    OneCopy(key);
  }

  lemma {:induction false} PositiveValues(t: Tree, k: Store)
    requires Nodes(t) <= k.Keys && Augmented(t, k)
    ensures forall n | n in Nodes(t) :: k[n].value >= 1
  {
    if t.Fork? {
      PositiveValues(t.left, k);
      PositiveValues(t.right, k);
    }
  }

  lemma RepairLinks(t: Tree, p: Node?, key: real, i: nat, k: Store)
    requires Linking(t, p, k) && 0 < i <= |Path(t, key)| && AugmentedBelow(t, key, i, k)
    ensures var n := Path(t, key)[i - 1];
            && n in k && (k[n].left == null || k[n].left in k) && (k[n].right == null || k[n].right in k)
            && Linking(t, p, Visited(k, n))
            && AugmentedBelow(t, key, i - 1, Visited(k, n))
            && Contents(t, Visited(k, n)) == Contents(t, k)
  {
    PathFacts(t, key);
    var n := Path(t, key)[i - 1];
    VisitRepairs(t, p, key, i, k);
    ChildrenInside(t, p, k, n);
    SameLinks(t, p, k, Visited(k, n));
    SameValues(t, k, Visited(k, n));
  }

  /** A key is among the samples exactly when the search finds it. */
  lemma {:induction false} SamplesAreNodes(t: Tree, k: Store, key: real)
    requires Nodes(t) <= k.Keys && Ordered(t) && Augmented(t, k)
    ensures key in Contents(t, k) <==> Lookup(t, key) != null
  {
    PathFacts(t, key);
    if t.Fork? {
      SamplesAreNodes(t.left, k, key);
      SamplesAreNodes(t.right, k, key);
      PathFacts(t.left, key);
      PathFacts(t.right, key);
    }
  }

  /** The search for a key, having passed the stacked nodes, goes on in the subtree t at p. */
  ghost predicate Seeking(whole: Tree, key: real, t: Tree, p: Node?, stack: seq<Node>, k: Store) {
    && Nodes(t) <= k.Keys && Embeds(t, p, k)
    && stack + Path(t, key) == Path(whole, key) && Lookup(t, key) == Lookup(whole, key)
  }

  lemma SeekStep(whole: Tree, key: real, t: Tree, p: Node?, stack: seq<Node>, k: Store)
    requires Seeking(whole, key, t, p, stack, k) && p != null && p.key != key
    ensures t.Fork? && p in k
    ensures key > p.key ==> Seeking(whole, key, t.right, k[p].right, stack + [p], k)
    ensures key < p.key ==> Seeking(whole, key, t.left, k[p].left, stack + [p], k)
  {
    var rest := Path(if key > p.key then t.right else t.left, key);
    assert stack + ([p] + rest) == stack + [p] + rest;
  }

  lemma SeekEnd(whole: Tree, key: real, t: Tree, p: Node?, stack: seq<Node>, k: Store)
    requires Seeking(whole, key, t, p, stack, k) && (p == null || p.key == key)
    ensures stack == Path(whole, key) && p == Lookup(whole, key)
  {
  }

  // ---------------------------------------------------------------------------------------------------------------
  // The tree
  // ---------------------------------------------------------------------------------------------------------------

  ghost predicate Counted(size: int, nodes: set<Node>) {
    size == |nodes|
  }

  lemma CountOneMore(size: int, nodes: set<Node>, n: Node)
    requires n !in nodes && Counted(size, nodes)
    ensures Counted(size + 1, nodes + {n})
  {
  }

  class ATree {
    const root: Node
    var size: int
    var cleared: seq<Node?>
    ghost var tree: Tree
    ghost var nodes: set<Node>

    ghost function Snapshot(): Store
      reads this`nodes, nodes
    {
      StoreOf(nodes)
    }

    /** The samples in the tree. */
    ghost function Samples(): multiset<real>
      reads this`tree, this`nodes, nodes
    {
      if Nodes(tree) == nodes then Contents(tree, Snapshot()) else multiset{}
    }

    ghost predicate Shaped()
      reads this`tree, this`nodes, root, nodes
    {
      nodes == Nodes(tree) && root !in nodes && Linking(tree, root.left, Snapshot())
    }

    ghost predicate Valid()
      reads this, root, nodes
    {
      Shaped() && Counted(size, nodes) && Augmented(tree, Snapshot())
    }

    constructor ()
      ensures Valid() && tree == Leaf && nodes == {} && fresh(root)
    {
      root := new Node(0.0, 0, 0);
      size, cleared, tree, nodes := 0, [], Leaf, {};
    }

    lemma NoSamples()
      requires Valid() && tree == Leaf
      ensures Samples() == multiset{} && size == 0
    {
    }

    method FindInternal(key: real) returns (parent: Node, curr: Node?, stack: seq<Node>)
      requires Shaped()
      ensures stack == Path(tree, key) && curr == Lookup(tree, key)
      ensures parent == if stack == [] then root else stack[|stack| - 1]
    {
      parent, curr, stack := root, root.left, [];
      ghost var k := Snapshot();
      ghost var t := tree;
      assert Seeking(tree, key, t, curr, stack, k);
      hide Nodes, Ordered, Linking, Path, Lookup, Seeking;
      while curr != null && curr.key != key
        invariant Seeking(tree, key, t, curr, stack, k)
        invariant parent == if stack == [] then root else stack[|stack| - 1]
        decreases t
      {
        SeekStep(tree, key, t, curr, stack, k);
        parent := curr;
        if key > curr.key {
          curr, t := curr.right, t.right;
        } else {
          curr, t := curr.left, t.left;
        }
        stack := stack + [parent];
      }
      SeekEnd(tree, key, t, curr, stack, k);
    }

    /** Links a new node under the parent that FindInternal found. */
    method InsertInternal(key: real, value: int, metadata: int, parent: Node) returns (n: Node)
      requires Shaped() && Lookup(tree, key) == null
      requires parent == if Path(tree, key) == [] then root else Path(tree, key)[|Path(tree, key)| - 1]
      modifies this`size, this`tree, this`nodes, parent
      ensures Shaped() && fresh(n) && n.key == key && n.left == null && n.right == null
      ensures tree == InsertAt(old(tree), key, n) && size == old(size) + 1 && nodes == old(nodes) + {n}
      ensures Snapshot() == Inserted(old(tree), key, n, Cell(null, null, value, metadata), old(Snapshot()))
      ensures root.left == if old(tree).Leaf? then n else old(root.left)
    {
      hide Nodes, Embeds, Ordered, Path, Lookup, InsertAt;
      ghost var k := Snapshot();
      PathFacts(tree, key);
      n := new Node(key, value, metadata);
      InsertLinks(tree, root.left, key, n, Cell(null, null, value, metadata), k);
      if parent == root {
        parent.left := n;
      } else if key < parent.key {
        parent.left := n;
      } else {
        parent.right := n;
      }
      size := size + 1;
      tree, nodes := InsertAt(tree, key, n), nodes + {n};
      assert Snapshot() == Inserted(old(tree), key, n, Cell(null, null, value, metadata), k);
    }

    /** SubtreeCountVisitor::Visit. */
    method Visit(n: Node)
      modifies n`metadata
      ensures n.metadata == (if n.left == null then 0 else old(n.left.metadata))
                            + (if n.right == null then 0 else old(n.right.metadata)) + n.value
    {
      var leftTotal := if n.left != null then n.left.metadata else 0;
      var rightTotal := if n.right != null then n.right.metadata else 0;
      n.metadata := leftTotal + rightTotal + n.value;
    }

    method VisitNode(n: Node)
      requires n in nodes && (n.left == null || n.left in nodes) && (n.right == null || n.right in nodes)
      modifies n`metadata
      ensures Snapshot() == Visited(old(Snapshot()), n)
    {
      Visit(n);
    }

    /** SubtreeCountVisitor::Update. */
    method UpdateNode(n: Node)
      requires n in nodes && (n.left == null || n.left in nodes) && (n.right == null || n.right in nodes)
      modifies n`metadata, n`value
      ensures Snapshot() == Updated(old(Snapshot()), n)
    {
      n.value := n.value + 1;
      Visit(n);
    }

    /** Visits the stacked nodes from the last to the first. */
    method VisitStack(stack: seq<Node>, ghost key: real)
      requires Shaped() && stack == Path(tree, key)
      requires AugmentedBelow(tree, key, |stack|, Snapshot())
      modifies stack`metadata
      ensures Shaped() && Augmented(tree, Snapshot())
      ensures Samples() == old(Samples())
    {
      hide Nodes, Embeds, Ordered, Contents, Augmented, Path, Linking, Visited;
      var i := |stack|;
      PathFacts(tree, key);
      while i > 0
        invariant 0 <= i <= |stack|
        invariant Shaped() && Samples() == old(Samples())
        invariant AugmentedBelow(tree, key, i, Snapshot())
      {
        RepairLinks(tree, root.left, key, i, Snapshot());
        VisitNode(stack[i - 1]);
        i := i - 1;
      }
    }

    /** What a search will find, seen before it. */
    lemma SearchAhead(key: real)
      requires Valid()
      ensures Shaped() && (key in Samples() <==> Lookup(tree, key) != null)
      ensures Lookup(tree, key) != null ==> Lookup(tree, key).key == key && Lookup(tree, key) in nodes
    {
      PathFacts(tree, key);
      SamplesAreNodes(tree, Snapshot(), key);
    }

    /** Links a new node and visits it, which leaves only its ancestors to be visited. */
    method InsertAndVisit(key: real, value: int, metadata: int, parent: Node) returns (n: Node)
      requires Shaped() && Augmented(tree, Snapshot()) && value >= 1 && Lookup(tree, key) == null
      requires parent == if Path(tree, key) == [] then root else Path(tree, key)[|Path(tree, key)| - 1]
      modifies this`size, this`tree, this`nodes, parent, nodes
      ensures Shaped() && Path(tree, key) == old(Path(tree, key))
      ensures AugmentedBelow(tree, key, |Path(tree, key)|, Snapshot())
      ensures Samples() == With(old(Samples()), key, value)
      ensures size == old(size) + 1 && nodes == old(nodes) + {n} && fresh(n)
      ensures tree == InsertAt(old(tree), key, n) && n.key == key
    {
      ghost var k, p, t := Snapshot(), root.left, tree;
      hide Nodes, Embeds, Ordered, Contents, Copies, Augmented, AugmentedBelow, Path, Lookup, InsertAt;
      hide Inserted, Visited;
      n := InsertInternal(key, value, metadata, parent);
      InsertThenVisit(t, p, key, n, value, metadata, k);
      hide Linking;
      VisitNode(n);
    }

    /** The branch of Insert and InsertOrUpdate for an absent key. */
    method InsertNew(key: real, value: int, metadata: int, parent: Node, stack: seq<Node>) returns (n: Node)
      requires Valid() && value >= 1 && Lookup(tree, key) == null && stack == Path(tree, key)
      requires parent == if stack == [] then root else stack[|stack| - 1]
      modifies this`size, this`tree, this`nodes, root, nodes
      ensures Valid() && Samples() == With(old(Samples()), key, value)
      ensures size == old(size) + 1 && forall n | n in nodes && n !in old(nodes) :: fresh(n)
      ensures tree == InsertAt(old(tree), key, n) && n.key == key
    {
      PathFacts(tree, key);
      ghost var all, count := nodes, size;
      assert (parent == root || parent in nodes) && forall n | n in stack :: n in nodes;
      hide Nodes, Contents, With, Augmented, AugmentedBelow, Path, Lookup, Linking, Counted, StoreOf;
      hide ATree.Shaped, ATree.Samples, InsertAt;
      n := InsertAndVisit(key, value, metadata, parent);
      VisitStack(stack, key);
      CountOneMore(count, all, n);
    }

    /** Counts one more of a key, which leaves only the ancestors of its node to be visited. */
    method CountAndVisit(key: real, n: Node)
      requires Shaped() && Augmented(tree, Snapshot()) && Lookup(tree, key) == n
      modifies nodes`value, nodes`metadata
      ensures Shaped() && AugmentedBelow(tree, key, |Path(tree, key)|, Snapshot())
      ensures Samples() == With(old(Samples()), key, 1)
    {
      PathFacts(tree, key);
      hide Embeds, Ordered, Contents, Copies, Augmented, AugmentedBelow, Path, Lookup, Updated;
      UpdateLinks(tree, root.left, key, Snapshot());
      UpdateNode(n);
    }

    /** The branch of InsertOrUpdate for a present key. */
    method UpdateFound(key: real, n: Node, stack: seq<Node>)
      requires Valid() && Lookup(tree, key) == n && stack == Path(tree, key)
      modifies nodes
      ensures Valid() && Samples() == With(old(Samples()), key, 1)
    {
      PathFacts(tree, key);
      assert forall m | m in stack :: m in nodes;
      hide Nodes, Contents, With, Augmented, AugmentedBelow, Path, Lookup, Linking, Counted, StoreOf;
      hide ATree.Shaped, ATree.Samples;
      CountAndVisit(key, n);
      VisitStack(stack, key);
    }

    /** Inserts a key with its multiplicity, unless it is present; then nothing changes. */
    method Insert(key: real, value: int, metadata: int) returns (ok: bool)
      requires Valid() && value >= 1
      modifies this`size, this`tree, this`nodes, root, nodes
      ensures Valid() && forall n | n in nodes && n !in old(nodes) :: fresh(n)
      ensures ok <==> key !in old(Samples())
      ensures ok ==> Samples() == With(old(Samples()), key, value) && size == old(size) + 1
      ensures ok ==> Lookup(tree, key) != null && tree == InsertAt(old(tree), key, Lookup(tree, key))
      ensures !ok ==> Samples() == old(Samples()) && size == old(size)
      ensures !ok ==> tree == old(tree) && nodes == old(nodes) && root.left == old(root.left)
      ensures !ok ==> Snapshot() == old(Snapshot())
    {
      hide ATree.Valid, ATree.Shaped, ATree.Samples, ATree.Snapshot, Path, Lookup, Nodes, With, InsertAt;
      SearchAhead(key);
      var parent, curr, stack := FindInternal(key);
      ok := !(curr != null && curr.key == key);
      if ok {
        ghost var before := tree;
        var n := InsertNew(key, value, metadata, parent, stack);
        InsertedIsFound(before, key, n);
      }
    }

    /** Counts one more of a key that is present; inserts a key that is not, with its multiplicity. */
    method InsertOrUpdate(key: real, value: int, metadata: int)
      requires Valid() && value >= 1
      modifies this`size, this`tree, this`nodes, root, nodes
      ensures Valid() && forall n | n in nodes && n !in old(nodes) :: fresh(n)
      ensures key in old(Samples()) ==> Samples() == With(old(Samples()), key, 1) && size == old(size)
      ensures key !in old(Samples()) ==> Samples() == With(old(Samples()), key, value) && size == old(size) + 1
    {
      hide ATree.Valid, ATree.Shaped, ATree.Samples, ATree.Snapshot, Path, Lookup, Nodes, With, InsertAt;
      SearchAhead(key);
      var parent, curr, stack := FindInternal(key);
      if curr != null && curr.key == key {
        UpdateFound(key, curr, stack);
      } else {
        var _ := InsertNew(key, value, metadata, parent, stack);
      }
    }

    /** Forgets the samples; the old nodes are kept until the tree is destroyed. */
    method Clear()
      requires Valid()
      modifies this`size, this`cleared, this`tree, this`nodes, root
      ensures Valid() && tree == Leaf && nodes == {} && Samples() == multiset{} && size == 0
      ensures cleared == old(cleared) + [old(root.left)]
    {
      var before := root.left;
      cleared := cleared + [before];
      root.left := null;
      size, tree, nodes := 0, Leaf, {};
    }
  }
}
