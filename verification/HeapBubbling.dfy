/** The loops of heap_decrease and heap_delete that move a value towards its root. */
module HeapBubbling {
  import opened BinomialForest
  import opened HeapNodes

  /** `tree` is the value-level view of every subtree, except that it is out of date at c. */
  ghost predicate TreesMatchBut<V>(N: set<Node<V>>, c: Node<V>)
    reads N`tree, N`degree, N`parent, N`value
  {
    && (forall n {:trigger n.tree} :: n in N ==> |n.tree.kids| == n.degree && (n != c ==> n.tree.item == n.value))
    && (forall n {:trigger n.parent} :: n in N && n.parent != null ==>
          && n.parent in N && n.degree < |n.parent.tree.kids|
          && (n.parent != c ==> n.parent.tree.kids[n.degree] == n.tree))
  }

  /** The handles H are exactly those in use, and each leads to its node. */
  ghost predicate Tracked<V>(N: set<Node<V>>, H: set<Handle<V>>)
    reads N`ref, H
  {
    && (forall n {:trigger n.ref} :: n in N && n.ref != null ==> n.ref in H && n.ref.node == n)
    && (forall h {:trigger h.node} :: h in H ==> h.node != null && h.node in N && h.node.ref == h)
  }

  ghost function HandlesOf<V>(N: set<Node<V>>): set<Handle<V>>
    reads N`ref
  {
    set n | n in N && n.ref != null :: n.ref
  }

  ghost function ValuesOf<V>(H: set<Handle<V>>): map<Handle<V>, V>
    requires forall h :: h in H ==> h.node != null
    reads H, set h | h in H && h.node != null :: h.node
  {
    map h | h in H :: h.node.value
  }

  /** Swaps the values and the references of a node and its parent. */
  method SwapWithParent<V>(node: Node<V>, parent: Node<V>, ghost N: set<Node<V>>, ghost H: set<Handle<V>>,
                           ghost values: map<Handle<V>, V>)
    requires node in N && parent in N && node != parent && node.ref != null && Tracked(N, H) && LeadsTo(H, values)
    modifies node`value, node`ref, parent`value, parent`ref, H
    ensures node.value == old(parent.value) && parent.value == old(node.value)
    ensures node.ref == old(parent.ref) && parent.ref == old(node.ref)
    ensures Tracked(N, H) && LeadsTo(H, values)
  {
    var tmp := parent.value;
    parent.value := node.value;
    node.value := tmp;
    if parent.ref != null {
      parent.ref.node := node;
    }
    node.ref.node := parent;
    var tmpRef := parent.ref;
    parent.ref := node.ref;
    node.ref := tmpRef;
  }

  /** A record of the values that the handles lead to. */
  ghost predicate LeadsTo<V>(H: set<Handle<V>>, values: map<Handle<V>, V>)
    reads H, set h | h in H && h.node != null :: h.node
  {
    forall h {:trigger h.node} :: h in H ==> h.node != null && h in values && h.node.value == values[h]
  }

  /** Handles do not depend on the links between the nodes. */
  twostate lemma HandlesFrame<V>(new N: set<Node<V>>, new H: set<Handle<V>>, new values: map<Handle<V>, V>)
    requires old(allocated(N) && allocated(H) && allocated(values))
    requires old(Tracked(N, H) && LeadsTo(H, values))
    requires forall n :: n in N ==> unchanged(n`ref) && unchanged(n`value)
    requires forall h :: h in H ==> unchanged(h)
    ensures Tracked(N, H) && LeadsTo(H, values)
  {
    forall h | h in H
      ensures h.node == old(h.node) && h.node in N && h.node.value == old(h.node.value)
    {
      assert old(h.node) in N;
    }
  }

  /** Every handle of the nodes M still leads to its value, wherever this is kept now. */
  twostate predicate HandlesKept<V>(M: set<Node<V>>, H: set<Handle<V>>)
    reads M, H
  {
    forall n {:trigger old(n.ref)} :: n in M && old(n.ref) != null ==>
      var h := old(n.ref);
      h in H && h.node != null && h.node in M && h.node.ref == h && h.node.value == old(n.value)
  }

  twostate lemma TrackedAreKept<V>(new N: set<Node<V>>, new H: set<Handle<V>>, new values: map<Handle<V>, V>)
    requires old(allocated(N) && allocated(H) && allocated(values))
    requires old(Tracked(N, H) && LeadsTo(H, values)) && Tracked(N, H) && LeadsTo(H, values)
    ensures HandlesKept(N, H)
  {
  }

  /** The starting point: all handles in use are tracked. */
  lemma {:induction false} AllTracked<V>(N: set<Node<V>>)
    requires HandlesFollow(N)
    ensures Tracked(N, HandlesOf(N)) && LeadsTo(HandlesOf(N), ValuesOf(HandlesOf(N)))
  {
  }

  /** A record of the trees of the roots. */
  ghost predicate RootTrees<V>(N: set<Node<V>>, trees: map<Node<V>, Tree<V>>)
    reads N`parent, N`tree
  {
    forall n {:trigger n.parent} :: n in N && n.parent == null ==> n in trees && n.tree == trees[n]
  }

  ghost predicate AllGood<V(!new)>(hp: Priority<V>, N: set<Node<V>>)
    reads N`tree
  {
    forall n {:trigger n.tree} :: n in N ==> GoodTree(hp, n.tree)
  }

  /** If the roots have good trees, all nodes do. */
  lemma {:induction false} GoodBelowRoots<V(!new)>(hp: Priority<V>, N: set<Node<V>>, r: seq<Node<V>>, f: Forest<V>, c: Node<V>,
                                                    n: Node<V>, above: set<Node<V>>)
    requires Linked(N) && TreesMatchBut(N, c) && RootsOf(N, r) && Shows(r, f) && GoodTrees(hp, f) && n in N
    requires forall m {:trigger m.degree} :: m in N && m.degree >= n.degree ==> m in above
    requires forall m {:trigger m.parent} :: m in N && m.parent == c ==> c.tree.kids[m.degree] == m.tree
    ensures GoodTree(hp, n.tree)
    decreases above
  {
    if n.parent == null {
      assert n in r;
    } else {
      GoodBelowRoots(hp, N, r, f, c, n.parent, above - {n});
      assert n.parent.tree.kids[n.degree] == n.tree;
    }
  }

  lemma {:induction false} GoodForestIsAllGood<V(!new)>(hp: Priority<V>, N: set<Node<V>>, r: seq<Node<V>>, f: Forest<V>, c: Node<V>)
    requires Linked(N) && TreesMatchBut(N, c) && RootsOf(N, r) && Shows(r, f) && GoodTrees(hp, f)
    requires forall m {:trigger m.parent} :: m in N && m.parent == c ==> c.tree.kids[m.degree] == m.tree
    ensures AllGood(hp, N)
  {
    forall n | n in N
      ensures GoodTree(hp, n.tree)
    {
      GoodBelowRoots(hp, N, r, f, c, n, N);
    }
  }

  /** Node c holds a moving value; everything else is in place. */
  ghost predicate MovingAt<V(!new)>(hp: Priority<V>, N: set<Node<V>>, c: Node<V>, kids: Forest<V>, o: V)
    reads N
  {
    && c in N
    && Linked(N)
    && TreesMatchBut(N, c)
    && AllGood(hp, N)
    && Moving(hp, c.tree, kids, o)
    && |c.kids| == |kids|
    && forall i {:trigger kids[i]} :: 0 <= i < |kids| ==> c.kids[i] in N && c.kids[i].tree == kids[i]
  }

  /** After a swap, the node is in place again and its parent holds the moving value. */
  twostate lemma SwapMoves<V(!new)>(new hp: Priority<V>, new N: set<Node<V>>, new c: Node<V>, new p: Node<V>, new kids: Forest<V>, new o: V)
    requires old(allocated(hp) && allocated(N) && allocated(c) && allocated(p) && allocated(kids) && allocated(o))
    requires StrictWeakOrder(hp) && old(MovingAt(hp, N, c, kids, o)) && p == old(c.parent)
    requires c.value == old(p.value) && c.tree == Tree(c.value, kids)
    requires forall n :: n in N ==>
      && unchanged(n`degree) && unchanged(n`parent) && unchanged(n`kids) && unchanged(n`child) && unchanged(n`next)
    requires forall n :: n in N && n != c ==> unchanged(n`tree) && (n != p ==> unchanged(n`value))
    ensures c.degree < |p.tree.kids| && MovingAt(hp, N, p, p.tree.kids[c.degree := c.tree], o)
  {
    MoveUp(hp, p.tree, c.degree, kids, o);
    assert GoodTree(hp, c.tree);
    SwapLinks(hp, N, c, p, kids, o);
    Children(N, p);
  }

  twostate lemma SwapLinks<V(!new)>(new hp: Priority<V>, new N: set<Node<V>>, new c: Node<V>, new p: Node<V>, new kids: Forest<V>, new o: V)
    requires old(allocated(hp) && allocated(N) && allocated(c) && allocated(p) && allocated(kids) && allocated(o))
    requires old(MovingAt(hp, N, c, kids, o)) && p == old(c.parent)
    requires c.value == old(p.value) && c.tree == Tree(c.value, kids)
    requires forall n :: n in N ==>
      && unchanged(n`degree) && unchanged(n`parent) && unchanged(n`kids) && unchanged(n`child) && unchanged(n`next)
    requires forall n :: n in N && n != c ==> unchanged(n`tree) && (n != p ==> unchanged(n`value))
    ensures Linked(N) && TreesMatchBut(N, p)
  {
  }

  /** One step of the loops: the moving value passes a node. */
  method StepUp<V(!new)>(hp: Priority<V>, node: Node<V>, parent: Node<V>, ghost N: set<Node<V>>, ghost H: set<Handle<V>>,
                         ghost kids: Forest<V>, ghost o: V, ghost values: map<Handle<V>, V>, ghost trees: map<Node<V>, Tree<V>>)
    returns (ghost kids': Forest<V>)
    requires StrictWeakOrder(hp) && MovingAt(hp, N, node, kids, o) && Tracked(N, H)
    requires LeadsTo(H, values) && RootTrees(N, trees)
    requires parent == node.parent && node.ref != null
    modifies N`value, N`ref, N`tree, H
    ensures MovingAt(hp, N, parent, kids', o) && Tracked(N, H)
    ensures LeadsTo(H, values) && RootTrees(N, trees)
    ensures parent.value == old(node.value) && parent.ref == old(node.ref) && parent.tree.item == old(parent.value)
  {
    SwapWithParent(node, parent, N, H, values);
    label Swapped:
    node.tree := Tree(node.value, kids);
    HandlesFrame@Swapped(N, H, values);
    SwapMoves(hp, N, node, parent, kids, o);
    kids' := parent.tree.kids[node.degree := node.tree];
  }

  /** The loop of heap_delete: a value moves past all ancestors. */
  method BubbleToRoot<V(!new)>(hp: Priority<V>, node0: Node<V>, ghost N: set<Node<V>>, ghost H: set<Handle<V>>,
                               ghost values: map<Handle<V>, V>, ghost trees: map<Node<V>, Tree<V>>)
    returns (node: Node<V>, ghost kids: Forest<V>)
    requires StrictWeakOrder(hp) && Linked(N) && TreesMatch(N) && AllGood(hp, N) && Tracked(N, H)
    requires LeadsTo(H, values) && RootTrees(N, trees)
    requires node0 in N && node0.ref != null
    modifies N`value, N`ref, N`tree, H
    ensures node.parent == null && node.ref == old(node0.ref) && node.value == old(node0.value)
    ensures MovingAt(hp, N, node, kids, node.value) && Tracked(N, H)
    ensures LeadsTo(H, values) && RootTrees(N, trees)
  {
    node := node0;
    kids := node.tree.kids;
    MovingFromHere(hp, N, node);
    var parent := node.parent;
    ghost var o, handle := node.value, node.ref;
    ghost var above := N;
    while parent != null
      invariant MovingAt(hp, N, node, kids, o) && Tracked(N, H) && parent == node.parent
      invariant node.ref == handle && node.value == o
      invariant LeadsTo(H, values) && RootTrees(N, trees)
      invariant forall n {:trigger n.degree} :: n in N && n.degree >= node.degree ==> n in above
      decreases above
    {
      above := above - {node};
      kids := StepUp(hp, node, parent, N, H, kids, o, values, trees);
      node := parent;
      parent := node.parent;
    }
  }

  /** The value of a node, with its handle, moves to the root. Without this root the forest is still
      good, and so are the subtrees of the root. */
  method LiftToRoot<V(!new)>(hp: Priority<V>, node0: Node<V>, ghost N: set<Node<V>>, ghost r: seq<Node<V>>, ghost f: Forest<V>,
                             ghost H: set<Handle<V>>, ghost values: map<Handle<V>, V>)
    returns (node: Node<V>, ghost j: nat, ghost g: Forest<V>)
    requires StrictWeakOrder(hp) && RootList(N, r) && Shows(r, f) && GoodForest(hp, f)
    requires node0 in N && node0.ref != null && Tracked(N, H) && LeadsTo(H, values)
    modifies N`value, N`ref, N`tree, H
    ensures RootList(N, r) && j < |r| && r[j] == node && Shows(r, g) && g[j].item == node.value
    ensures node.ref == old(node0.ref) && node.value == old(node0.value)
    ensures Tracked(N, H) && LeadsTo(H, values)
    ensures ForestItems(g) == ForestItems(f)
    ensures GoodForest(hp, g[..j] + g[j+1..]) && GoodForest(hp, g[j].kids)
  {
    ghost var trees := map n | n in N :: n.tree;
    GoodForestIsAllGood(hp, N, r, f, node0);
    ghost var kids;
    node, kids := BubbleToRoot(hp, node0, N, H, values, trees);
    j, g := SettleRoot(hp, node, kids, N, r, f, H, values, trees);
  }

  /** A moving value has reached a root: the value-level view of the root is brought up to date. */
  ghost method SettleRoot<V(!new)>(hp: Priority<V>, node: Node<V>, kids: Forest<V>, N: set<Node<V>>, r: seq<Node<V>>, f: Forest<V>,
                                   H: set<Handle<V>>, values: map<Handle<V>, V>, trees: map<Node<V>, Tree<V>>)
    returns (j: nat, g: Forest<V>)
    requires MovingAt(hp, N, node, kids, node.value) && node.parent == null && RootTrees(N, trees)
    requires RootsOf(N, r) && IsList(r) && GoodForest(hp, f)
    requires |r| == |f| && forall i :: 0 <= i < |r| ==> r[i] in trees && trees[r[i]] == f[i]
    requires Tracked(N, H) && LeadsTo(H, values)
    modifies node`tree
    ensures RootList(N, r) && j < |r| && r[j] == node && Shows(r, g) && g[j].item == node.value
    ensures ForestItems(g) == ForestItems(f)
    ensures GoodForest(hp, g[..j] + g[j+1..]) && GoodForest(hp, g[j].kids)
    ensures Tracked(N, H) && LeadsTo(H, values)
  {
    j :| j < |r| && r[j] == node;
    assert Shows(r, f);
    MoveReachesRoot(hp, f, j, kids, node.value);
    label Moved:
    node.tree := Tree(node.value, kids);
    RootSettles@Moved(hp, N, node, kids, node.value, r, f, j);
    HandlesFrame@Moved(N, H, values);
    g := f[j := node.tree];
    assert g[..j] + g[j+1..] == f[..j] + f[j+1..];
  }

  lemma {:induction false} MovingFromHere<V(!new)>(hp: Priority<V>, N: set<Node<V>>, c: Node<V>)
    requires Linked(N) && TreesMatchBut(N, c) && AllGood(hp, N) && c in N
    requires forall n {:trigger n.parent} :: n in N && n.parent == c ==> c.tree.kids[n.degree] == n.tree
    ensures MovingAt(hp, N, c, c.tree.kids, c.tree.item)
  {
    Children(N, c);
  }

  /** The loop of heap_decrease: a value moves past the ancestors it beats. */
  method BubbleUp<V(!new)>(hp: Priority<V>, node0: Node<V>, ghost N: set<Node<V>>, ghost H: set<Handle<V>>,
                           ghost values: map<Handle<V>, V>, ghost trees: map<Node<V>, Tree<V>>, ghost o: V)
    returns (node: Node<V>, ghost kids: Forest<V>)
    requires StrictWeakOrder(hp) && MovingAt(hp, N, node0, node0.tree.kids, o) && Tracked(N, H)
    requires LeadsTo(H, values) && RootTrees(N, trees)
    requires node0.ref != null && !hp(node0.tree.item, node0.value)
    modifies N`value, N`ref, N`tree, H
    ensures MovingAt(hp, N, node, kids, o) && Tracked(N, H)
    ensures LeadsTo(H, values) && RootTrees(N, trees)
    ensures node.value == old(node0.value) && !hp(node.tree.item, node.value)
    ensures node.parent != null ==> !hp(node.value, node.parent.value)
  {
    node := node0;
    kids := node.tree.kids;
    var parent := node.parent;
    ghost var x := node.value;
    ghost var above := N;
    while parent != null && hp(node.value, parent.value)
      invariant MovingAt(hp, N, node, kids, o) && Tracked(N, H) && parent == node.parent
      invariant node.ref != null && node.value == x && !hp(node.tree.item, x)
      invariant LeadsTo(H, values) && RootTrees(N, trees)
      invariant forall n {:trigger n.degree} :: n in N && n.degree >= node.degree ==> n in above
      decreases above
    {
      above := above - {node};
      kids := StepUp(hp, node, parent, N, H, kids, o, values, trees);
      node := parent;
      parent := node.parent;
    }
  }

  // ---------- Bringing the value-level view up to date ----------

  /** k is the up-to-date view of c, in which x has replaced o. */
  ghost predicate ReplacedAt<V(!new)>(N: set<Node<V>>, c: Node<V>, k: Tree<V>, o: V, x: V)
    reads N
  {
    && c in N
    && Linked(N)
    && TreesMatchBut(N, c)
    && k.item == c.value && Replaces(k, c.tree, o, x)
    && |c.kids| == |k.kids|
    && forall i {:trigger k.kids[i]} :: 0 <= i < |k.kids| ==> c.kids[i] in N && c.kids[i].tree == k.kids[i]
  }

  /** Nodes from degree d on have good trees, and so has k exactly if `good` holds. */
  ghost predicate GoodFrom<V(!new)>(hp: Priority<V>, N: set<Node<V>>, d: nat, k: Tree<V>, good: bool)
    reads N`degree, N`tree
  {
    && (forall n {:trigger n.tree} :: n in N && n.degree >= d ==> GoodTree(hp, n.tree))
    && (good <==> GoodTree(hp, k))
  }

  twostate lemma ReplacementShows<V(!new)>(new N: set<Node<V>>, new c: Node<V>, new k: Tree<V>, new o: V, new x: V)
    requires old(allocated(N) && allocated(c) && allocated(k) && allocated(o) && allocated(x))
    requires old(ReplacedAt(N, c, k, o, x)) && c.tree == k
    requires forall n :: n in N ==>
      && unchanged(n`degree) && unchanged(n`parent) && unchanged(n`kids) && unchanged(n`child) && unchanged(n`next)
      && unchanged(n`value) && (n != c ==> unchanged(n`tree))
    ensures c.parent == null ==> TreesMatch(N)
    ensures c.parent != null ==>
      var p := c.parent;
      c.degree < |p.tree.kids| && ReplacedAt(N, p, Tree(p.value, p.tree.kids[c.degree := k]), o, x)
  {
    if c.parent != null {
      var p := c.parent;
      ReplaceInParent(p.tree, c.degree, k, o, x);
      Children(N, p);
    }
  }

  twostate lemma GoodnessShows<V(!new)>(new hp: Priority<V>, new N: set<Node<V>>, new c: Node<V>, new p: Node<V>, new k: Tree<V>, new good: bool)
    requires old(allocated(hp) && allocated(N) && allocated(c) && allocated(p) && allocated(k))
    requires old(GoodFrom(hp, N, c.degree, k, good)) && c in N && p in N && c.degree < p.degree && Degree(k) == c.degree
    requires c.degree < |p.tree.kids|
    requires forall n :: n in N ==> unchanged(n`degree) && (n != c ==> unchanged(n`tree))
    ensures GoodFrom(hp, N, p.degree, Tree(p.tree.item, p.tree.kids[c.degree := k]), good && !hp(k.item, p.tree.item))
  {
    assert GoodTree(hp, p.tree);
    ReplaceKeepsGood(hp, p.tree, c.degree, k);
  }

  /** The view of a node that is not a root is brought up to date. */
  ghost method RefreshNode<V(!new)>(hp: Priority<V>, c: Node<V>, p: Node<V>, N: set<Node<V>>, k: Tree<V>, o: V, x: V, good: bool,
                                    trees: map<Node<V>, Tree<V>>)
    returns (k': Tree<V>)
    requires ReplacedAt(N, c, k, o, x) && GoodFrom(hp, N, c.degree, k, good) && RootTrees(N, trees)
    requires c.parent == p
    modifies c`tree
    ensures ReplacedAt(N, p, k', o, x) && GoodFrom(hp, N, p.degree, k', good && !hp(k.item, p.value)) && RootTrees(N, trees)
    ensures c.degree < p.degree && k'.item == p.tree.item
  {
    assert p.tree.item == p.value;
    label Before:
    c.tree := k;
    ReplacementShows@Before(N, c, k, o, x);
    GoodnessShows@Before(hp, N, c, p, k, good);
    k' := Tree(p.value, p.tree.kids[c.degree := k]);
  }

  /** Brings `tree` up to date from a node up to its root. The tree of the root is good unless the
      value of the node beats its parent. */
  ghost method Refresh<V(!new)>(hp: Priority<V>, c0: Node<V>, N: set<Node<V>>, k0: Tree<V>, o: V, x: V, trees: map<Node<V>, Tree<V>>)
    returns (root: Node<V>)
    requires ReplacedAt(N, c0, k0, o, x) && AllGood(hp, N) && GoodTree(hp, k0) && RootTrees(N, trees)
    modifies N`tree
    ensures TreesMatch(N) && root in N && root.parent == null && root in trees
    ensures forall n {:trigger n.parent} :: n in N && n.parent == null && n != root ==> n in trees && n.tree == trees[n]
    ensures Replaces(root.tree, trees[root], o, x)
    ensures GoodTree(hp, root.tree) <==> c0.parent == null || !hp(c0.value, c0.parent.value)
  {
    hide Linked, Replaces;
    root := c0;
    var k, good := k0, true;
    var above := N;
    while root.parent != null
      invariant ReplacedAt(N, root, k, o, x) && GoodFrom(hp, N, root.degree, k, good) && RootTrees(N, trees)
      invariant if root == c0 then good
                else k.item == root.tree.item && good == (c0.parent == null || !hp(c0.value, c0.parent.value))
      invariant forall n {:trigger n.degree} :: n in N && n.degree >= root.degree ==> n in above
      decreases above
    {
      above := above - {root};
      var p := root.parent;
      assert root != c0 ==> !hp(root.tree.item, p.tree.item) && p.tree.item == p.value;
      k := RefreshNode(hp, root, p, N, k, o, x, good, trees);
      good := GoodTree(hp, k);
      root := p;
    }
    label Last:
    root.tree := k;
    ReplacementShows@Last(N, root, k, o, x);
  }

  /** The view of a root has been brought up to date. */
  twostate lemma RootSettles<V(!new)>(new hp: Priority<V>, new N: set<Node<V>>, new c: Node<V>, new kids: Forest<V>, new o: V,
                                      new r: seq<Node<V>>, new f: Forest<V>, new j: nat)
    requires old(allocated(hp) && allocated(N) && allocated(c) && allocated(kids) && allocated(o) && allocated(r) && allocated(f))
    requires old(MovingAt(hp, N, c, kids, o)) && c.parent == null && c.tree == Tree(c.value, kids)
    requires old(Shows(r, f) && RootsOf(N, r) && IsList(r)) && j < |r| && r[j] == c
    requires forall n :: n in N ==>
      && unchanged(n`degree) && unchanged(n`parent) && unchanged(n`kids) && unchanged(n`child) && unchanged(n`next)
      && unchanged(n`value) && (n != c ==> unchanged(n`tree))
    ensures RootList(N, r) && Shows(r, f[j := c.tree])
  {
  }

  /** Node c holds a new value, and its tree still shows the old value o. */
  ghost predicate OutOfDateAt<V(!new)>(N: set<Node<V>>, c: Node<V>, o: V)
    reads N
  {
    && Linked(N) && TreesMatchBut(N, c) && c in N && c.tree.item == o
    && forall m {:trigger m.parent} :: m in N && m.parent == c ==> c.tree.kids[m.degree] == m.tree
  }

  /** No node is lost: what its tree shows is in the forest. */
  lemma {:induction false} NodeItemsInForest<V(!new)>(N: set<Node<V>>, r: seq<Node<V>>, f: Forest<V>, c: Node<V>, o: V,
                                                       n: Node<V>, y: V, above: set<Node<V>>)
    requires OutOfDateAt(N, c, o) && RootsOf(N, r) && Shows(r, f) && n in N && y in Items(n.tree)
    requires forall m {:trigger m.degree} :: m in N && m.degree >= n.degree ==> m in above
    ensures y in ForestItems(f)
    decreases above
  {
    if n.parent == null {
      var i :| 0 <= i < |r| && r[i] == n;
      TreeItemsInForest(f, i, y);
    } else {
      var p := n.parent;
      assert p.tree.kids[n.degree] == n.tree;
      TreeItemsInForest(p.tree.kids, n.degree, y);
      NodeItemsInForest(N, r, f, c, o, p, y, above - {n});
    }
  }

  /** The view of one root has changed. */
  lemma {:induction false} RootReplaced<V(!new)>(hp: Priority<V>, N: set<Node<V>>, r: seq<Node<V>>, f: Forest<V>,
                                                  trees: map<Node<V>, Tree<V>>, root: Node<V>, o: V, x: V)
    returns (g: Forest<V>)
    requires RootsOf(N, r) && root in N && root.parent == null && root in trees && GoodForest(hp, f)
    requires forall n {:trigger n.parent} :: n in N && n.parent == null && n != root ==> n in trees && n.tree == trees[n]
    requires |r| == |f| && forall i :: 0 <= i < |r| ==> r[i] in trees && trees[r[i]] == f[i]
    requires Replaces(root.tree, trees[root], o, x)
    ensures Shows(r, g) && ForestItems(g) + multiset{o} == ForestItems(f) + multiset{x}
    ensures GoodForest(hp, g) <==> GoodTree(hp, root.tree)
  {
    var j :| 0 <= j < |r| && r[j] == root;
    g := f[j := root.tree];
    ReplaceRoot(hp, f, j, root.tree, o, x);
  }

  lemma {:induction false} MovingIsReplaced<V(!new)>(hp: Priority<V>, N: set<Node<V>>, c: Node<V>, kids: Forest<V>, o: V)
    requires StrictWeakOrder(hp) && MovingAt(hp, N, c, kids, o) && !hp(c.tree.item, c.value)
    ensures ReplacedAt(N, c, Tree(c.value, kids), o, c.value) && GoodTree(hp, Tree(c.value, kids)) && AllGood(hp, N)
  {
    MoveEnds(hp, c.tree, kids, o, c.value);
    var k := Tree(c.value, kids);
    forall i | 0 <= i < |k.kids|
      ensures c.kids[i] in N && c.kids[i].tree == k.kids[i]
    {
      assert k.kids[i] == kids[i];
    }
  }

  /** The moving value has found its node: the value-level view is brought up to date. */
  ghost method SettleValue<V(!new)>(hp: Priority<V>, c: Node<V>, kids: Forest<V>, N: set<Node<V>>, r: seq<Node<V>>, f: Forest<V>,
                                    trees: map<Node<V>, Tree<V>>, o: V)
    returns (g: Forest<V>)
    requires StrictWeakOrder(hp) && MovingAt(hp, N, c, kids, o) && !hp(c.tree.item, c.value) && RootTrees(N, trees)
    requires RootsOf(N, r) && IsList(r) && GoodForest(hp, f)
    requires |r| == |f| && forall i :: 0 <= i < |r| ==> r[i] in trees && trees[r[i]] == f[i]
    modifies N`tree
    ensures RootList(N, r) && Shows(r, g)
    ensures ForestItems(g) + multiset{o} == ForestItems(f) + multiset{c.value}
    ensures GoodForest(hp, g) <==> c.parent == null || !hp(c.value, c.parent.value)
  {
    MovingIsReplaced(hp, N, c, kids, o);
    var root := Refresh(hp, c, N, Tree(c.value, kids), o, c.value, trees);
    g := RootReplaced(hp, N, r, f, trees, root, o, c.value);
  }

  /** heap_decrease below the cached minimum. Without a reference C leaves the node where it is. */
  method DecreaseValue<V(!new)>(hp: Priority<V>, node0: Node<V>, ghost N: set<Node<V>>, ghost r: seq<Node<V>>, ghost f: Forest<V>,
                                ghost H: set<Handle<V>>, ghost values: map<Handle<V>, V>, ghost o: V)
    returns (ghost g: Forest<V>)
    requires StrictWeakOrder(hp) && OutOfDateAt(N, node0, o) && !hp(o, node0.value)
    requires RootsOf(N, r) && IsList(r) && Shows(r, f) && GoodForest(hp, f)
    requires Tracked(N, H) && LeadsTo(H, values)
    modifies N`value, N`ref, N`tree, H
    ensures RootList(N, r) && Shows(r, g) && Tracked(N, H) && LeadsTo(H, values)
    ensures ForestItems(g) + multiset{o} == ForestItems(f) + multiset{old(node0.value)}
    ensures GoodForest(hp, g) <==>
            old(node0.ref != null || node0.parent == null || !hp(node0.value, node0.parent.value))
  {
    ghost var trees := map n | n in N :: n.tree;
    ghost var node, kids := node0, node0.tree.kids;
    GoodForestIsAllGood(hp, N, r, f, node0);
    MovingFromHere(hp, N, node0);
    if node0.ref != null {
      node, kids := BubbleUp(hp, node0, N, H, values, trees, o);
    }
    label Moved:
    g := SettleValue(hp, node, kids, N, r, f, trees, o);
    HandlesFrame@Moved(N, H, values);
  }
}
