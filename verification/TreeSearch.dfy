/** What a search finds in the links that are left when a node with a right child was removed. */
module TreeSearch {
  import opened AugmentedTree
  import opened TreeRemoval

  datatype Outcome = Found(n: Node) | Missing | Running

  /** The search of FindInternal along the links, cut off after some steps. */
  ghost function Search(k: Store, p: Node?, x: real, steps: nat): Outcome {
    if p == null then Missing
    else if p.key == x then Found(p)
    else if steps == 0 || p !in k then Running
    else Search(k, if x > p.key then k[p].right else k[p].left, x, steps - 1)
  }

  ghost function Sought(t: Tree, x: real): Outcome {
    if Lookup(t, x) == null then Missing else Found(Lookup(t, x))
  }

  lemma {:induction false} MoreSteps(k: Store, p: Node?, x: real, f: nat, g: nat)
    requires f <= g && Search(k, p, x, f) != Running
    ensures Search(k, p, x, g) == Search(k, p, x, f)
  {
    if p != null && p.key != x {
      MoreSteps(k, if x > p.key then k[p].right else k[p].left, x, f - 1, g - 1);
    }
  }

  /** In a tree the search ends, at the node of the key or at none. */
  lemma {:induction false} SearchTree(t: Tree, p: Node?, k: Store, x: real)
    requires Nodes(t) <= k.Keys && Embeds(t, p, k)
    ensures Search(k, p, x, Size(t)) == Sought(t, x)
  {
    if t.Fork? && t.node.key != x {
      SearchTree(Down(t, x), DownLink(t, x, k), k, x);
      MoreSteps(k, DownLink(t, x, k), x, Size(Down(t, x)), Size(t) - 1);
    }
  }

  /** The search for x comes to the place of the key. */
  ghost predicate Reaches(t: Tree, key: real, x: real) {
    t.Fork? && (t.node.key == key || (x != t.node.key && (x > t.node.key <==> key > t.node.key)
                                      && Reaches(Down(t, key), key, x)))
  }

  /** Whatever is beside the path and outside the subtree of the key is linked as before. */
  ghost predicate SameBeside(t: Tree, key: real, k: Store, k': Store) {
    && k'.Keys == k.Keys
    && forall m | m in Nodes(t) && m in k && m !in Path(t, key) && m !in Nodes(SubtreeAt(t, key)) :: k'[m] == k[m]
  }

  lemma OtherStays(t: Tree, p: Node?, key: real, to: Node?, k: Store, k': Store)
    requires Ordered(t) && Lookup(t, key) != null && Nodes(t) <= k.Keys && Embeds(t, p, k) && SameBeside(t, key, k, k')
    requires t.node.key != key && RehungAt(t.node, |Path(t, key)| == 1, Lookup(t, key), to, k, k')
    ensures Embeds(Other(t, key), if key > t.node.key then k'[t.node].left else k'[t.node].right, k')
    ensures SameBeside(Down(t, key), key, k, k')
  {
    var o, d := Other(t, key), Down(t, key);
    SidesAreApart(t, key);
    PathFacts(t, key);
    PathFacts(d, key);
    SubtreeFacts(d, key);
    forall m | m in Nodes(o)
      ensures k'[m] == k[m]
    {
      assert m !in Nodes(d) && m != t.node;
    }
    SameLinks(o, if key > t.node.key then k[t.node].left else k[t.node].right, k, k');
  }

  /** One step from a node that is not the key's, seen in the tree and in the links. */
  lemma SearchStep(t: Tree, k': Store, x: real, q: Node?)
    requires t.Fork? && x != t.node.key && t.node in k'
    requires q == if x > t.node.key then k'[t.node].right else k'[t.node].left
    ensures Search(k', q, x, Size(Down(t, x))) == Sought(Down(t, x), x) ==>
              Search(k', t.node, x, Size(t)) == Sought(t, x)
  {
    if Search(k', q, x, Size(Down(t, x))) == Sought(Down(t, x), x) {
      MoreSteps(k', q, x, Size(Down(t, x)), Size(t) - 1);
    }
  }

  lemma ReachesTop(t: Tree, key: real, x: real)
    requires t.Fork? && Lookup(t, key) != null && !Reaches(t, key, x)
    ensures t.node.key != key && Path(t, key) != []
    ensures x != t.node.key && (x > t.node.key <==> key > t.node.key) ==>
              Down(t, x) == Down(t, key) && !Reaches(Down(t, key), key, x) && Path(Down(t, key), key) != []
    ensures x != t.node.key && !(x > t.node.key <==> key > t.node.key) ==> Down(t, x) == Other(t, key)
  {
  }

  /** A search that turns off before the place of the key goes on as before. */
  lemma {:induction false} TurnsOff(t: Tree, p: Node?, key: real, to: Node?, k: Store, k': Store, x: real)
    requires Ordered(t) && Lookup(t, key) != null && Nodes(t) <= k.Keys && Embeds(t, p, k) && SameBeside(t, key, k, k')
    requires Rehung(Path(t, key), Lookup(t, key), to, k, k') && !Reaches(t, key, x)
    ensures Search(k', p, x, Size(t)) == Sought(t, x)
  {
    ReachesTop(t, key, x);
    if x != t.node.key {
      BelowTheTop(t, p, key, to, k, k');
      hide Ordered, Embeds, Rehung, SameBeside, Search, Sought, Reaches, Path;
      var d := Down(t, key);
      SearchStep(t, k', x, if x > t.node.key then k'[t.node].right else k'[t.node].left);
      if x > t.node.key <==> key > t.node.key {
        TurnsOff(d, DownLink(t, key, k), key, to, k, k', x);
      } else {
        SearchTree(Other(t, key), if key > t.node.key then k'[t.node].left else k'[t.node].right, k', x);
      }
    }
  }

  /** What is known of the tree is known of the sides of its root. */
  lemma BelowTheTop(t: Tree, p: Node?, key: real, to: Node?, k: Store, k': Store)
    requires Ordered(t) && Lookup(t, key) != null && Nodes(t) <= k.Keys && Embeds(t, p, k) && SameBeside(t, key, k, k')
    requires Rehung(Path(t, key), Lookup(t, key), to, k, k') && t.node.key != key
    ensures p == t.node && t.node in k && t.node in k'
    ensures var d := Down(t, key);
            && Ordered(d) && Lookup(d, key) == Lookup(t, key) && Nodes(d) <= k.Keys
            && Embeds(d, DownLink(t, key, k), k) && SameBeside(d, key, k, k')
            && Rehung(Path(d, key), Lookup(d, key), to, k, k')
            && (Path(d, key) != [] ==> DownLink(t, key, k') == DownLink(t, key, k))
    ensures Nodes(Other(t, key)) <= k'.Keys
    ensures Embeds(Other(t, key), if key > t.node.key then k'[t.node].left else k'[t.node].right, k')
  {
    hide Rehung, SameBeside;
    RehungTail(Path(t, key), Lookup(t, key), to, k, k');
    DownIsHung(t, p, key, to, k, k');
    OtherStays(t, p, key, to, k, k');
    assert Path(t, key)[1..] == Path(Down(t, key), key);
    SameStoreKeys(t, key, k, k');
  }

  lemma SameStoreKeys(t: Tree, key: real, k: Store, k': Store)
    requires SameBeside(t, key, k, k')
    ensures k'.Keys == k.Keys
  {
  }

  /** A search that comes to the place of the key goes on at what is linked there. */
  lemma {:induction false} Arrives(t: Tree, p: Node?, key: real, to: Node?, k: Store, k': Store, x: real, f: nat)
    requires Ordered(t) && Lookup(t, key) != null && Nodes(t) <= k.Keys && Embeds(t, p, k)
    requires Rehung(Path(t, key), Lookup(t, key), to, k, k') && Reaches(t, key, x)
    ensures Search(k', if Path(t, key) == [] then to else p, x, |Path(t, key)| + f) == Search(k', to, x, f)
  {
    if t.node.key != key {
      RehungTail(Path(t, key), Lookup(t, key), to, k, k');
      DownIsHung(t, p, key, to, k, k');
      var d := Down(t, key);
      assert Path(t, key)[1..] == Path(d, key) && Lookup(d, key) == Lookup(t, key);
      Arrives(d, DownLink(t, key, k), key, to, k, k', x, f);
    }
  }

  // ---------------------------------------------------------------------------------------------------------------
  // Under the heir
  // ---------------------------------------------------------------------------------------------------------------

  /** The subtree of the leftmost node. */
  ghost function HeirTree(r: Tree): (h: Tree)
    requires r.Fork?
    ensures h.Fork? && h.node == Leftmost(r)
  {
    if r.left.Leaf? then r else HeirTree(r.left)
  }

  ghost function SpineLength(r: Tree): nat {
    if r.Leaf? || r.left.Leaf? then 0 else 1 + SpineLength(r.left)
  }

  /** The search for x goes down the left spine of r and right from its end. */
  ghost predicate FallsBehind(r: Tree, x: real) {
    r.Fork? && if r.left.Leaf? then x > r.node.key else x < r.node.key && FallsBehind(r.left, x)
  }

  /** A search that turns off the spine, or ends on it, goes on as before. */
  lemma {:induction false} SpineTurns(r: Tree, q: Node?, k: Store, k': Store, x: real)
    requires r.Fork? && Ordered(r) && Nodes(r) <= k.Keys && Embeds(r, q, k) && k'.Keys == k.Keys
    requires forall m | m in Nodes(r) && m != Leftmost(r) :: k'[m] == k[m]
    requires x >= Leftmost(r).key && !FallsBehind(r, x)
    ensures Search(k', q, x, Size(r)) == Sought(r, x)
  {
    LeftmostIsInside(r);
    if r.left.Fork? && x != r.node.key {
      LeftmostIsInside(r.left);
      SidesAreApart(r, x);
      hide Search, Sought, Size;
      SearchStep(r, k', x, if x > r.node.key then k'[r.node].right else k'[r.node].left);
      if x > r.node.key {
        SameLinks(r.right, k[r.node].right, k, k');
        SearchTree(r.right, k[r.node].right, k', x);
      } else {
        SpineTurns(r.left, k[r.node].left, k, k', x);
      }
    }
  }

  /** A search that goes right from the end of the spine comes back to where that link leads now. */
  lemma {:induction false} SpineFalls(r: Tree, q: Node?, k: Store, k': Store, x: real, f: nat)
    requires r.Fork? && Ordered(r) && Nodes(r) <= k.Keys && Embeds(r, q, k) && k'.Keys == k.Keys
    requires forall m | m in Nodes(r) && m != Leftmost(r) :: k'[m] == k[m]
    requires FallsBehind(r, x) && Leftmost(r) in k'
    ensures f <= SpineLength(r) ==> Search(k', q, x, f) == Running
    ensures f > SpineLength(r) ==>
              Search(k', q, x, f) == Search(k', k'[Leftmost(r)].right, x, f - SpineLength(r) - 1)
  {
    LeftmostIsInside(r);
    if r.left.Fork? && f > 0 {
      LeftmostIsInside(r.left);
      SidesAreApart(r, x);
      SpineFalls(r.left, k[r.node].left, k, k', x, f - 1);
    }
  }

  /** When that link leads back to the top of the spine, the search never ends. */
  lemma {:induction false} SpineCircles(r: Tree, q: Node?, k: Store, k': Store, x: real, f: nat)
    requires r.Fork? && Ordered(r) && Nodes(r) <= k.Keys && Embeds(r, q, k) && k'.Keys == k.Keys
    requires forall m | m in Nodes(r) && m != Leftmost(r) :: k'[m] == k[m]
    requires FallsBehind(r, x) && Leftmost(r) in k' && k'[Leftmost(r)].right == q
    ensures Search(k', q, x, f) == Running
    decreases f
  {
    SpineFalls(r, q, k, k', x, f);
    if f > SpineLength(r) {
      SpineCircles(r, q, k, k', x, f - SpineLength(r) - 1);
    }
  }

  // ---------------------------------------------------------------------------------------------------------------
  // The whole search
  // ---------------------------------------------------------------------------------------------------------------

  /** The links after the removal of a node with a right child. */
  lemma RelinkedAround(t: Tree, p: Node?, key: real, k: Store)
    requires Linking(t, p, k) && Lookup(t, key) != null
    requires SubtreeAt(t, key).Fork? && SubtreeAt(t, key).right.Fork?
    ensures var s, h, k' := SubtreeAt(t, key), Leftmost(SubtreeAt(t, key).right), Relinked(t, key, k);
            && k'.Keys == k.Keys && s.node == Lookup(t, key) && Heir(s) == h && h in k' && s.node in k && h in Nodes(s.right)
            && k'[h].left == k[s.node].left && k'[h].right == k[s.node].right
            && (forall m | m in Nodes(t) && m !in Path(t, key) && m != h :: k'[m] == k[m])
            && (forall m | m in Nodes(s) :: m !in Path(t, key))
            && Nodes(s) <= Nodes(t) && Ordered(s) && Embeds(s, s.node, k)
  {
    SubtreeFacts(t, key);
    SubtreeEmbeds(t, p, key, k);
    LeftmostIsInside(SubtreeAt(t, key).right);
    RelinkedIs(t, p, key, k);
    var path := Path(t, key);
    PathFacts(t, key);
    assert path != [] ==> path[|path| - 1] in path;
  }

  /** Under the heir: its left side is that of the removed node, and its right side leads back above it. */
  lemma SearchAtHeir(s: Tree, k: Store, k': Store, x: real, f: nat)
    requires s.Fork? && s.right.Fork? && Ordered(s) && Nodes(s) <= k.Keys && Embeds(s, s.node, k) && k'.Keys == k.Keys
    requires var h := Leftmost(s.right);
             && h in k && k'[h].left == k[s.node].left && k'[h].right == k[s.node].right
             && forall m | m in Nodes(s) && m != h :: k'[m] == k[m]
    ensures FallsBehind(s.right, x) ==> Search(k', Leftmost(s.right), x, f) == Running
    ensures !FallsBehind(s.right, x) && f > Size(s) ==>
              Search(k', Leftmost(s.right), x, f) == if x == s.node.key then Missing else Sought(s, x)
  {
    var h := Leftmost(s.right);
    LeftmostIsInside(s.right);
    SidesAreApart(s, s.node.key);
    LeftmostIsLeast(s.right, x);
    if x < h.key {
      SameLinks(s.left, k[s.node].left, k, k');
      SearchTree(s.left, k[s.node].left, k', x);
      PathFacts(s.left, x);
      if f > Size(s) {
        MoreSteps(k', k[s.node].left, x, Size(s.left), f - 1);
      }
    } else if FallsBehind(s.right, x) {
      if f > 0 {
        SpineCircles(s.right, k[s.node].right, k, k', x, f - 1);
      }
    } else if x == h.key {
      SpineTurns(s.right, k[s.node].right, k, k', x);
    } else {
      SpineTurns(s.right, k[s.node].right, k, k', x);
      if f > Size(s) {
        MoreSteps(k', k[s.node].right, x, Size(s.right), f - 1);
      }
    }
  }

  /** Left of the leftmost node there is nothing, and only beyond it can a search fall behind. */
  lemma {:induction false} LeftmostIsLeast(r: Tree, x: real)
    requires r.Fork? && Ordered(r)
    ensures forall m | m in Nodes(r) :: Leftmost(r).key <= m.key
    ensures x < Leftmost(r).key ==> Lookup(r, x) == null
    ensures Lookup(r, Leftmost(r).key) == Leftmost(r)
    ensures FallsBehind(r, x) ==> x > Leftmost(r).key
  {
    LeftmostIsInside(r);
    PathFacts(r, x);
    if r.left.Fork? {
      LeftmostIsInside(r.left);
      LeftmostIsLeast(r.left, x);
    }
  }

  /** The search for x comes to the removed node and then falls behind its heir. */
  ghost predicate Loses(t: Tree, key: real, x: real) {
    Reaches(t, key, x) && SubtreeAt(t, key).Fork? && FallsBehind(SubtreeAt(t, key).right, x)
  }

  lemma {:induction false} ReachedSought(t: Tree, key: real, x: real)
    requires Ordered(t) && Lookup(t, key) != null
    ensures Reaches(t, key, x) ==> Sought(t, x) == Sought(SubtreeAt(t, key), x)
    ensures Reaches(t, key, key)
  {
    if t.node.key != key {
      ReachedSought(Down(t, key), key, x);
    }
  }

  lemma ReachingSearch(t: Tree, p: Node?, key: real, k: Store, x: real, f: nat)
    requires Linking(t, p, k) && Lookup(t, key) != null && Reaches(t, key, x)
    requires SubtreeAt(t, key).Fork? && SubtreeAt(t, key).right.Fork?
    ensures var found := Search(Relinked(t, key, k), Root(t, p, key), x, |Path(t, key)| + f);
            && (Loses(t, key, x) ==> found == Running)
            && (!Loses(t, key, x) && f > Size(SubtreeAt(t, key)) ==> found == if x == key then Missing else Sought(t, x))
  {
    hide Reaches, Search, FallsBehind, Relinked, Rehung;
    RelinkedAround(t, p, key, k);
    RelinkedRehangs(t, key, k);
    var s, k' := SubtreeAt(t, key), Relinked(t, key, k);
    Arrives(t, p, key, Leftmost(s.right), k, k', x, f);
    SearchAtHeir(s, k, k', x, f);
    ReachedSought(t, key, x);
    PathFacts(t, key);
  }

  lemma PassingSearch(t: Tree, p: Node?, key: real, k: Store, x: real)
    requires Linking(t, p, k) && Lookup(t, key) != null && !Reaches(t, key, x)
    requires SubtreeAt(t, key).Fork? && SubtreeAt(t, key).right.Fork?
    ensures Search(Relinked(t, key, k), Root(t, p, key), x, Size(t)) == Sought(t, x) && x != key
  {
    hide Reaches, Search, Relinked, Rehung;
    RelinkedAround(t, p, key, k);
    RelinkedRehangs(t, key, k);
    ReachedSought(t, key, x);
    TurnsOff(t, p, key, Leftmost(SubtreeAt(t, key).right), k, Relinked(t, key, k), x);
    ReachesTop(t, key, x);
  }

  lemma HasRight(t: Tree, p: Node?, key: real, k: Store)
    requires Linking(t, p, k) && Lookup(t, key) != null
    ensures Lookup(t, key) in k && SubtreeAt(t, key).Fork?
    ensures k[Lookup(t, key)].right != null <==> SubtreeAt(t, key).right.Fork?
  {
    SubtreeFacts(t, key);
    SubtreeEmbeds(t, p, key, k);
  }

  /** After a node with a right child was removed, the search for a key that falls behind the heir runs forever; every
      other search ends, and finds what it found before, except for the removed key, which it misses. */
  lemma SearchAfterRemoval(t: Tree, p: Node?, key: real, k: Store, x: real)
    requires Linking(t, p, k) && Lookup(t, key) != null
    requires Lookup(t, key) in k && k[Lookup(t, key)].right != null
    ensures Loses(t, key, x) ==> forall f: nat :: Search(Relinked(t, key, k), Root(t, p, key), x, f) == Running
    ensures !Loses(t, key, x) ==>
              exists f: nat :: Search(Relinked(t, key, k), Root(t, p, key), x, f)
                            == if x == key then Missing else Sought(t, x)
  {
    HasRight(t, p, key, k);
    hide Search, Relinked, Linking, Root, Sought, FallsBehind;
    var d := |Path(t, key)|;
    if Loses(t, key, x) {
      forall f: nat
        ensures Search(Relinked(t, key, k), Root(t, p, key), x, f) == Running
      {
        ReachingSearch(t, p, key, k, x, f);
        if Search(Relinked(t, key, k), Root(t, p, key), x, f) != Running {
          MoreSteps(Relinked(t, key, k), Root(t, p, key), x, f, d + f);
        }
      }
    } else if Reaches(t, key, x) {
      ReachingSearch(t, p, key, k, x, Size(SubtreeAt(t, key)) + 1);
    } else {
      PassingSearch(t, p, key, k, x);
    }
  }

  lemma {:induction false} BehindTheHeir(r: Tree, x: real)
    requires r.Fork? && Ordered(r)
    ensures Nodes(HeirTree(r).right) <= Nodes(r) && Ordered(HeirTree(r).right)
    ensures FallsBehind(r, x) ==> Lookup(r, x) == Lookup(HeirTree(r).right, x)
    ensures forall m | m in Nodes(HeirTree(r).right) :: FallsBehind(r, m.key)
  {
    if r.left.Fork? {
      BehindTheHeir(r.left, x);
      forall m | m in Nodes(HeirTree(r).right)
        ensures FallsBehind(r, m.key)
      {
        BehindTheHeir(r.left, m.key);
      }
    }
  }

  lemma {:induction false} InsideReaches(t: Tree, key: real, m: Node)
    requires Ordered(t) && Lookup(t, key) != null && m in Nodes(SubtreeAt(t, key))
    ensures Reaches(t, key, m.key)
  {
    if t.node.key != key {
      SubtreeFacts(Down(t, key), key);
      InsideReaches(Down(t, key), key, m);
    }
  }

  lemma LostIsBehind(t: Tree, key: real, x: real)
    requires Ordered(t) && Lookup(t, key) != null && Lookup(t, x) != null && Loses(t, key, x)
    requires SubtreeAt(t, key).right.Fork?
    ensures Lookup(t, x) in Nodes(HeirTree(SubtreeAt(t, key).right).right)
  {
    var s := SubtreeAt(t, key);
    SubtreeFacts(t, key);
    BehindTheHeir(s.right, x);
    ReachedSought(t, key, x);
    LeftmostIsLeast(s.right, x);
    LeftmostIsInside(s.right);
    SidesAreApart(s, x);
    hide Reaches, FallsBehind, HeirTree, Ordered;
    PathFacts(t, key);
    PathFacts(HeirTree(s.right).right, x);
  }

  lemma BehindIsLost(t: Tree, key: real, x: real)
    requires Ordered(t) && Lookup(t, key) != null && Lookup(t, x) != null
    requires SubtreeAt(t, key).Fork? && SubtreeAt(t, key).right.Fork?
    requires Lookup(t, x) in Nodes(HeirTree(SubtreeAt(t, key).right).right)
    ensures Loses(t, key, x)
  {
    var s := SubtreeAt(t, key);
    SubtreeFacts(t, key);
    PathFacts(t, x);
    BehindTheHeir(s.right, x);
    hide Reaches, FallsBehind, HeirTree, Ordered;
    InsideReaches(t, key, Lookup(t, x));
  }

  /** The keys that get lost, of those in the tree, are the ones that were right of the heir. */
  lemma LostKeys(t: Tree, key: real, x: real)
    requires Ordered(t) && Lookup(t, key) != null && Lookup(t, x) != null
    requires SubtreeAt(t, key).Fork? && SubtreeAt(t, key).right.Fork?
    ensures Loses(t, key, x) <==> Lookup(t, x) in Nodes(HeirTree(SubtreeAt(t, key).right).right)
  {
    hide Loses, Ordered, HeirTree, Nodes;
    if Loses(t, key, x) {
      LostIsBehind(t, key, x);
    }
    if Lookup(t, x) in Nodes(HeirTree(SubtreeAt(t, key).right).right) {
      BehindIsLost(t, key, x);
    }
  }

  lemma {:induction false} SameShapeSearch(k: Store, k': Store, p: Node?, x: real, f: nat)
    requires SameShape(k, k')
    ensures Search(k', p, x, f) == Search(k, p, x, f)
  {
    if p != null && p.key != x && f > 0 && p in k {
      SameShapeSearch(k, k', if x > p.key then k[p].right else k[p].left, x, f - 1);
    }
  }

  /** Two keys in a row, the greater one on the right: once the first is removed, every search for a key beyond the other
      one runs forever. */
  method RuinedSearch(a: real, b: real, x: real) returns (tree: ATree, ok: bool, ghost nodes: set<Node>)
    requires a < b < x
    ensures ok && forall f: nat :: Search(StoreOf(nodes), tree.root.left, x, f) == Running
  {
    hide ATree.Samples, ATree.Valid, With, InsertAt, Lookup, Relinked, Root, SameShape, Search, Loses, StoreOf, Linking;
    tree := new ATree();
    tree.NoSamples();
    OneKey(a, b);
    var one := tree.Insert(a, 1, 1);
    ghost var before := tree.tree;
    var two := tree.Insert(b, 1, 1);
    ghost var t, p, k := tree.tree, tree.root.left, tree.Snapshot();
    nodes := tree.nodes;
    TwoInARow(tree, before, a, b, x);
    ok := Remove(tree, a);
    SearchAfterRemoval(t, p, a, k, x);
    forall f: nat
      ensures Search(StoreOf(nodes), tree.root.left, x, f) == Running
    {
      SameShapeSearch(Relinked(t, a, k), StoreOf(nodes), tree.root.left, x, f);
    }
  }

  lemma TwoInARow(tree: ATree, before: Tree, a: real, b: real, x: real)
    requires tree.Valid() && a < b < x
    requires Lookup(before, a) != null && before == InsertAt(Leaf, a, Lookup(before, a))
    requires Lookup(tree.tree, b) != null && tree.tree == InsertAt(before, b, Lookup(tree.tree, b))
    ensures var t, p, k := tree.tree, tree.root.left, tree.Snapshot();
            && Linking(t, p, k) && Lookup(t, a) != null && Lookup(t, a) in k && k[Lookup(t, a)].right != null
            && Loses(t, a, x) && a in tree.Samples() && k == StoreOf(tree.nodes)
  {
    PathFacts(before, a);
    PathFacts(tree.tree, b);
    var one, two := Lookup(before, a), Lookup(tree.tree, b);
    assert tree.tree == Fork(Leaf, one, Fork(Leaf, two, Leaf));
    assert Embeds(Fork(Leaf, two, Leaf), tree.Snapshot()[one].right, tree.Snapshot());
    tree.SearchAhead(a);
  }
}
