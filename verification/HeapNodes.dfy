/** The nodes of include/heap.h, linked by parent, next and child pointers, and its internal
    operations on root lists. Each operation is proved to do on the pointers what its namesake in
    module BinomialForest does on values. */
module HeapNodes {
  import opened Options
  import opened BinomialForest

  const NOT_IN_HEAP: nat := 0xFFFF_FFFF

  /** A caller's variable that follows a value through the heap: struct heap_node** in C. */
  class Handle<V> {
    var node: Node?<V>

    constructor ()
      ensures node == null
    {
      node := null;
    }
  }

  class Node<V> {
    var parent: Node?<V>
    var next: Node?<V>
    var child: Node?<V>
    var degree: nat
    var value: V
    var ref: Handle?<V>
    ghost var kids: seq<Node<V>>  // the children by degree: the child list in reverse
    ghost var tree: Tree<V>       // the subtree headed by this node

    /** heap_node_init */
    constructor (value: V)
      ensures this.value == value && ref == null && degree == NOT_IN_HEAP
      ensures parent == null && next == null && child == null
    {
      parent, next, child := null, null, null;
      degree := NOT_IN_HEAP;
      this.value := value;
      ref := null;
      kids, tree := [], Leaf(value);
    }

    /** heap_node_init_ref, which finds the node in the handle; here the node is allocated. */
    constructor WithHandle(handle: Handle<V>, value: V)
      modifies handle
      ensures this.value == value && ref == handle && handle.node == this && degree == NOT_IN_HEAP
      ensures parent == null && next == null && child == null
    {
      parent, next, child := null, null, null;
      degree := NOT_IN_HEAP;
      this.value := value;
      ref := handle;
      kids, tree := [], Leaf(value);
      new;
      handle.node := this;
    }
  }

  // ---------- The shape of the pointer structure ----------

  ghost function At<V>(r: seq<Node<V>>, i: nat): Node?<V> {
    if i < |r| then r[i] else null
  }

  ghost predicate Distinct<V>(r: seq<Node<V>>) {
    forall i, j :: 0 <= i < j < |r| ==> r[i] != r[j]
  }

  /** The nodes of r form a null-terminated list in this order. */
  ghost predicate IsList<V>(r: seq<Node<V>>)
    reads (set n | n in r)`next
  {
    forall i {:trigger r[i].next} :: 0 <= i < |r| ==> r[i].next == At(r, i + 1)
  }

  /** The value-level view of a root list. */
  ghost predicate Shows<V>(r: seq<Node<V>>, f: Forest<V>)
    reads (set n | n in r)`tree
  {
    |r| == |f| && forall i {:trigger f[i]} {:trigger r[i]} :: 0 <= i < |r| ==> r[i].tree == f[i]
  }

  /** A record of the degrees of some nodes, so that merging is a function of values. */
  type Degrees<!V> = map<Node<V>, nat>

  ghost predicate Records<V>(d: Degrees<V>, r: seq<Node<V>>)
    reads (set n | n in r)`degree
  {
    forall i :: 0 <= i < |r| ==> r[i] in d && d[r[i]] == r[i].degree
  }

  /** The list that __heap_merge builds from two lists. */
  ghost function Merged<V>(d: Degrees<V>, a: seq<Node<V>>, b: seq<Node<V>>): (r: seq<Node<V>>)
    ensures |r| == |a| + |b|
  {
    if a == [] then b
    else if b == [] then a
    else if a[0] in d && b[0] in d && d[a[0]] < d[b[0]] then [a[0]] + Merged(d, a[1..], b)
    else [b[0]] + Merged(d, a, b[1..])
  }

  lemma {:induction false} MergedMembers<V>(d: Degrees<V>, a: seq<Node<V>>, b: seq<Node<V>>, n: Node<V>)
    ensures n in Merged(d, a, b) <==> n in a || n in b
  {
    if a != [] && b != [] {
      if a[0] in d && b[0] in d && d[a[0]] < d[b[0]] {
        MergedMembers(d, a[1..], b, n);
      } else {
        MergedMembers(d, a, b[1..], n);
      }
    }
  }

  lemma {:induction false} MergedDistinct<V>(d: Degrees<V>, a: seq<Node<V>>, b: seq<Node<V>>)
    requires Distinct(a) && Distinct(b) && forall n :: n in a ==> n !in b
    ensures Distinct(Merged(d, a, b))
  {
    if a != [] && b != [] {
      if a[0] in d && b[0] in d && d[a[0]] < d[b[0]] {
        MergedDistinct(d, a[1..], b);
        MergedMembers(d, a[1..], b, a[0]);
      } else {
        MergedDistinct(d, a, b[1..]);
        MergedMembers(d, a, b[1..], b[0]);
      }
    }
  }

  lemma {:induction false} MergedTrees<V>(d: Degrees<V>, a: seq<Node<V>>, b: seq<Node<V>>, f: Forest<V>, g: Forest<V>)
    requires Records(d, a) && Records(d, b) && Shows(a, f) && Shows(b, g)
    requires forall n :: n in a || n in b ==> n.degree == Degree(n.tree)
    ensures Shows(Merged(d, a, b), Merge(f, g))
  {
    hide Shows;
    ShowsParts(a, f);
    ShowsParts(b, g);
    if a != [] && b != [] {
      if a[0].degree < b[0].degree {
        MergedTrees(d, a[1..], b, f[1..], g);
        ShowsFirst(a[0], Merged(d, a[1..], b), f[0], Merge(f[1..], g));
      } else {
        MergedTrees(d, a, b[1..], f, g[1..]);
        ShowsFirst(b[0], Merged(d, a, b[1..]), g[0], Merge(f, g[1..]));
      }
    }
  }

  lemma {:induction false} ShowsParts<V>(r: seq<Node<V>>, f: Forest<V>)
    requires Shows(r, f)
    ensures |r| == |f| && (r != [] ==> r[0].tree == f[0] && Shows(r[1..], f[1..]))
  {
  }

  lemma {:induction false} ShowsFirst<V>(n: Node<V>, r: seq<Node<V>>, t: Tree<V>, f: Forest<V>)
    requires Shows(r, f) && n.tree == t
    ensures Shows([n] + r, [t] + f)
  {
  }

  /** How the merge proceeds: before step k, the first taken[k] nodes of a and the first k - taken[k]
      nodes of b have been moved to m. */
  ghost predicate MergePlan<V>(d: Degrees<V>, a: seq<Node<V>>, b: seq<Node<V>>, m: seq<Node<V>>, taken: seq<nat>) {
    && |taken| == |m| + 1 == |a| + |b| + 1 && taken[0] == 0
    && (forall k :: 0 <= k <= |m| ==> 0 <= k - taken[k] <= |b| && taken[k] <= |a|)
    && (forall k {:trigger MergePlanStep(d, a, b, m, taken, k)} :: 0 <= k < |m| ==> MergePlanStep(d, a, b, m, taken, k))
  }

  ghost predicate MergePlanStep<V>(d: Degrees<V>, a: seq<Node<V>>, b: seq<Node<V>>, m: seq<Node<V>>, taken: seq<nat>, k: nat)
    requires k < |m| && k + 1 < |taken| && taken[k] <= |a| && 0 <= k - taken[k] <= |b|
  {
    var i, j := taken[k], k - taken[k];
    if j == |b| || (i < |a| && a[i] in d && b[j] in d && d[a[i]] < d[b[j]]) then
      i < |a| && m[k] == a[i] && taken[k+1] == i + 1
    else
      m[k] == b[j] && taken[k+1] == i
  }

  lemma {:induction false} PlanMerge<V>(d: Degrees<V>, a: seq<Node<V>>, b: seq<Node<V>>) returns (taken: seq<nat>)
    ensures MergePlan(d, a, b, Merged(d, a, b), taken)
  {
    if a == [] {
      taken := seq(|b| + 1, _ => 0);
      assert forall k :: 0 <= k < |b| ==> MergePlanStep(d, a, b, Merged(d, a, b), taken, k);
    } else if b == [] {
      taken := seq(|a| + 1, k => k);
      assert forall k :: 0 <= k < |a| ==> MergePlanStep(d, a, b, Merged(d, a, b), taken, k);
    } else if a[0] in d && b[0] in d && d[a[0]] < d[b[0]] {
      var rest := PlanMerge(d, a[1..], b);
      taken := PlanFromA(d, a, b, Merged(d, a[1..], b), rest);
    } else {
      var rest := PlanMerge(d, a, b[1..]);
      taken := PlanFromB(d, a, b, Merged(d, a, b[1..]), rest);
    }
  }

  lemma {:induction false} PlanFromA<V>(d: Degrees<V>, a: seq<Node<V>>, b: seq<Node<V>>, m: seq<Node<V>>, rest: seq<nat>) returns (taken: seq<nat>)
    requires a != [] && b != [] && a[0] in d && b[0] in d && d[a[0]] < d[b[0]]
    requires MergePlan(d, a[1..], b, m, rest)
    ensures MergePlan(d, a, b, [a[0]] + m, taken)
  {
    taken := [0] + seq(|rest|, k requires 0 <= k < |rest| => rest[k] + 1);
    forall k | 0 <= k < |m| + 1
      ensures MergePlanStep(d, a, b, [a[0]] + m, taken, k)
    {
      if k > 0 {
        assert MergePlanStep(d, a[1..], b, m, rest, k - 1);
      }
    }
  }

  lemma {:induction false} PlanFromB<V>(d: Degrees<V>, a: seq<Node<V>>, b: seq<Node<V>>, m: seq<Node<V>>, rest: seq<nat>) returns (taken: seq<nat>)
    requires a != [] && b != [] && !(a[0] in d && b[0] in d && d[a[0]] < d[b[0]])
    requires MergePlan(d, a, b[1..], m, rest)
    ensures MergePlan(d, a, b, [b[0]] + m, taken)
  {
    taken := [0] + rest;
    forall k | 0 <= k < |m| + 1
      ensures MergePlanStep(d, a, b, [b[0]] + m, taken, k)
    {
      if k > 0 {
        assert MergePlanStep(d, a, b[1..], m, rest, k - 1);
      }
    }
  }

  /** Nodes already merged do not occur in what is left of the two lists. */
  lemma {:induction false} MergedApart<V>(d: Degrees<V>, a: seq<Node<V>>, b: seq<Node<V>>, m: seq<Node<V>>, taken: seq<nat>, k: nat)
    requires MergePlan(d, a, b, m, taken) && Distinct(m) && 0 < k <= |m|
    ensures forall p :: taken[k] <= p < |a| ==> a[p] != m[k-1]
    ensures forall p :: k - taken[k] <= p < |b| ==> b[p] != m[k-1]
    ensures m[k-1] in a || m[k-1] in b
  {
    assert MergePlanStep(d, a, b, m, taken, k - 1);
    forall p | taken[k] <= p < |a|
      ensures a[p] != m[k-1]
    {
      var q := PlanVisits(d, a, b, m, taken, k, p, true);
    }
    forall p | k - taken[k] <= p < |b|
      ensures b[p] != m[k-1]
    {
      var q := PlanVisits(d, a, b, m, taken, k, p, false);
    }
  }

  /** Every node not taken before step k is taken at a later step. */
  lemma {:induction false} PlanVisits<V>(d: Degrees<V>, a: seq<Node<V>>, b: seq<Node<V>>, m: seq<Node<V>>, taken: seq<nat>, k: nat, p: nat, fromA: bool)
    returns (q: nat)
    requires MergePlan(d, a, b, m, taken) && k <= |m|
    requires if fromA then taken[k] <= p < |a| else 0 <= k - taken[k] <= p < |b|
    ensures k <= q < |m| && m[q] == if fromA then a[p] else b[p]
    decreases |m| - k
  {
    assert MergePlanStep(d, a, b, m, taken, k);
    if (if fromA then taken[k] == p && taken[k+1] == p + 1 else k - taken[k] == p && taken[k+1] == taken[k]) {
      q := k;
    } else {
      q := PlanVisits(d, a, b, m, taken, k + 1, p, fromA);
    }
  }

  /** __heap_merge */
  method MergeByPlan<V>(a0: Node?<V>, b0: Node?<V>, ghost d: Degrees<V>, ghost ra: seq<Node<V>>, ghost rb: seq<Node<V>>,
                        ghost m: seq<Node<V>>, ghost taken: seq<nat>)
    returns (head: Node?<V>)
    requires IsList(ra) && IsList(rb) && a0 == At(ra, 0) && b0 == At(rb, 0)
    requires Distinct(m) && MergePlan(d, ra, rb, m, taken) && Records(d, ra) && Records(d, rb)
    modifies (set n | n in ra)`next, (set n | n in rb)`next
    ensures IsList(m) && head == At(m, 0)
  {
    var a, b := a0, b0;
    head := null;
    var last: Node?<V> := null;  // *pos in C: head if null, else last.next
    ghost var k, i, j := 0, 0, 0;
    while a != null && b != null
      invariant k == i + j <= |m| && i == taken[k] && a == At(ra, i) && b == At(rb, j)
      invariant last == (if k == 0 then null else m[k-1])
      invariant k > 0 ==> head == m[0]
      invariant forall p {:trigger m[p].next} :: 0 <= p < k - 1 ==> m[p].next == m[p+1]
      invariant forall p {:trigger ra[p].next} :: i <= p < |ra| ==> ra[p].next == At(ra, p + 1)
      invariant forall p {:trigger rb[p].next} :: j <= p < |rb| ==> rb[p].next == At(rb, p + 1)
      decreases |m| - k
    {
      if k > 0 {
        MergedApart(d, ra, rb, m, taken, k);
      }
      assert MergePlanStep(d, ra, rb, m, taken, k);
      var n := if a.degree < b.degree then a else b;
      if last == null { head := n; } else { last.next := n; }
      last := n;
      if a.degree < b.degree {
        a, i := a.next, i + 1;
      } else {
        b, j := b.next, j + 1;
      }
      k := k + 1;
    }
    PlanRest(d, ra, rb, m, taken, k);
    if k > 0 {
      MergedApart(d, ra, rb, m, taken, k);
    }
    var rest := if a != null then a else b;
    if last == null { head := rest; } else { last.next := rest; }
  }

  lemma {:induction false} PlanRest<V>(d: Degrees<V>, a: seq<Node<V>>, b: seq<Node<V>>, m: seq<Node<V>>, taken: seq<nat>, k: nat)
    requires MergePlan(d, a, b, m, taken) && k <= |m|
    requires taken[k] == |a| || k - taken[k] == |b|
    ensures forall p :: k <= p < |m| ==> m[p] == if taken[k] == |a| then b[p - taken[k]] else a[p - k + taken[k]]
    decreases |m| - k
  {
    if k < |m| {
      assert MergePlanStep(d, a, b, m, taken, k);
      PlanRest(d, a, b, m, taken, k + 1);
    }
  }

  // ---------- Linked forests ----------

  /** Every child list in N counts the degrees down to 0, and each node is the one child of its
      parent that has its degree. */
  ghost predicate Linked<V>(N: set<Node<V>>)
    reads N`degree, N`kids, N`child, N`parent, N`next
  {
    && (forall n {:trigger n.child} :: n in N ==>
          if n.degree == 0 then n.child == null
          else n.child != null && n.child in N && n.child.parent == n && n.child.degree == n.degree - 1)
    && (forall n {:trigger n.next} :: n in N && n.parent != null ==>
          if n.degree == 0 then n.next == null
          else n.next != null && n.next in N && n.next.parent == n.parent && n.next.degree == n.degree - 1)
    && (forall n {:trigger n.kids} :: n in N ==> |n.kids| == n.degree)
    && (forall n {:trigger n.parent} :: n in N && n.parent != null ==>
          n.parent in N && n.degree < |n.parent.kids| && n.parent.kids[n.degree] == n)
  }

  /** `tree` is the value-level view of the subtree of every node. */
  ghost predicate TreesMatch<V>(N: set<Node<V>>)
    reads N`tree, N`degree, N`parent, N`value
  {
    && (forall n {:trigger n.tree} :: n in N ==> n.tree.item == n.value && |n.tree.kids| == n.degree)
    && (forall n {:trigger n.parent} :: n in N && n.parent != null ==>
          n.parent in N && n.degree < |n.parent.tree.kids| && n.parent.tree.kids[n.degree] == n.tree)
  }

  /** The last node of the first i ones, null if there is none. */
  ghost function Last<V>(r: seq<Node<V>>, i: nat): Node?<V>
    requires i <= |r|
  {
    if i == 0 then null else r[i-1]
  }

  /** The roots of N, in any order. */
  ghost predicate RootsOf<V>(N: set<Node<V>>, r: seq<Node<V>>)
    reads N`parent
  {
    && Distinct(r)
    && (forall i {:trigger r[i]} :: 0 <= i < |r| ==> r[i] in N && r[i].parent == null)
    && (forall n {:trigger n.parent} :: n in N && n.parent == null ==> n in r)
  }

  /** __heap_link */
  method LinkNodes<V>(root: Node<V>, child: Node<V>, ghost N: set<Node<V>>)
    requires Linked(N) && TreesMatch(N) && root in N && child in N && root != child
    requires root.parent == null && child.parent == null && root.degree == child.degree
    modifies root`child, root`degree, root`kids, root`tree, child`parent, child`next
    ensures Linked(N) && TreesMatch(N)
    ensures root.tree == Link(old(root.tree), child.tree) && child.parent == root
  {
    LinkPointers(root, child, N);
    root.tree := Link(root.tree, child.tree);
  }

  method LinkPointers<V>(root: Node<V>, child: Node<V>, ghost N: set<Node<V>>)
    requires Linked(N) && root in N && child in N && root != child
    requires root.parent == null && child.parent == null && root.degree == child.degree
    modifies root`child, root`degree, root`kids, child`parent, child`next
    ensures Linked(N) && root.kids == old(root.kids) + [child] && child.parent == root
  {
    child.parent := root;
    child.next := root.child;
    root.child := child;
    root.degree := root.degree + 1;
    root.kids := root.kids + [child];
  }

  ghost function Without<T>(s: seq<T>, k: nat): (r: seq<T>)
    requires k < |s|
    ensures |r| == |s| - 1
    ensures forall i :: 0 <= i < |r| ==> r[i] == if i < k then s[i] else s[i+1]
  {
    s[..k] + s[k+1..]
  }

  /** Unlinking one node of a list. */
  lemma {:induction false} WithoutIsList<V>(r: seq<Node<V>>, k: nat)
    requires k < |r|
    requires forall i {:trigger r[i].next} :: 0 <= i < |r| && i != k && i + 1 != k ==> r[i].next == At(r, i + 1)
    requires k > 0 ==> r[k-1].next == At(r, k + 1)
    ensures IsList(Without(r, k))
  {
  }

  /** The view of a list in which the nodes at k and k + 1 have been joined and the one at j left. */
  lemma {:induction false} WithoutShows<V>(r: seq<Node<V>>, k: nat, j: nat, f: Forest<V>, t: Tree<V>)
    requires k + 1 < |r| == |f| && k <= j <= k + 1
    requires forall i {:trigger r[i]} :: 0 <= i < |r| && i != k && i != k + 1 ==> r[i].tree == f[i]
    requires r[if j == k then k + 1 else k].tree == t
    ensures Shows(Without(r, j), LinkedAt(f, k, t))
  {
  }

  /** A root that got a parent is no root any more. */
  lemma {:induction false} WithoutIsRoots<V>(N: set<Node<V>>, r: seq<Node<V>>, k: nat)
    requires Distinct(r) && k < |r|
    requires forall i {:trigger r[i]} :: 0 <= i < |r| ==> r[i] in N && (i != k ==> r[i].parent == null)
    requires r[k].parent != null
    requires forall n {:trigger n.parent} :: n in N && n.parent == null ==> n in r
    ensures RootsOf(N, Without(r, k))
  {
    var w := Without(r, k);
    forall n | n in N && n.parent == null
      ensures n in w
    {
      var i :| 0 <= i < |r| && r[i] == n;
      assert n == w[if i < k then i else i - 1];
    }
  }

  /** A forest that is one linked list of roots. */
  ghost predicate RootList<V>(N: set<Node<V>>, r: seq<Node<V>>)
    reads N
  {
    Linked(N) && TreesMatch(N) && RootsOf(N, r) && IsList(r)
  }

  /** Merging two root lists of one linked forest. */
  method MergeLists<V>(a0: Node?<V>, b0: Node?<V>, ghost N: set<Node<V>>,
                       ghost ra: seq<Node<V>>, ghost rb: seq<Node<V>>, ghost fa: Forest<V>, ghost fb: Forest<V>)
    returns (head: Node?<V>, ghost m: seq<Node<V>>)
    requires Linked(N) && TreesMatch(N) && RootsOfBoth(N, ra, rb)
    requires IsList(ra) && IsList(rb) && a0 == At(ra, 0) && b0 == At(rb, 0)
    requires Shows(ra, fa) && Shows(rb, fb)
    modifies N`next
    ensures RootList(N, m) && head == At(m, 0) && |m| == |ra| + |rb| && Shows(m, Merge(fa, fb))
  {
    hide Linked, TreesMatch, MergePlan, Records, Merge;
    ghost var d, taken;
    d, m, taken := PlanForests(N, ra, rb, fa, fb);
    head := MergeByPlan(a0, b0, d, ra, rb, m, taken);
    RelinkingRootsKeepsLinks(N);
  }

  lemma {:induction false} PlanForests<V>(N: set<Node<V>>, ra: seq<Node<V>>, rb: seq<Node<V>>, fa: Forest<V>, fb: Forest<V>)
    returns (d: Degrees<V>, m: seq<Node<V>>, taken: seq<nat>)
    requires TreesMatch(N) && RootsOfBoth(N, ra, rb) && Shows(ra, fa) && Shows(rb, fb)
    ensures MergePlan(d, ra, rb, m, taken) && Records(d, ra) && Records(d, rb)
    ensures RootsOf(N, m) && |m| == |ra| + |rb| && Shows(m, Merge(fa, fb))
  {
    d := map n | n in N :: n.degree;
    m := Merged(d, ra, rb);
    MergedRoots(N, d, ra, rb);
    MergedTrees(d, ra, rb, fa, fb);
    taken := PlanMerge(d, ra, rb);
  }

  /** The next pointers of roots are no part of the links below them. */
  twostate lemma RelinkingRootsKeepsLinks<V>(new N: set<Node<V>>)
    requires old(allocated(N))
    requires old(Linked(N))
    requires forall n :: n in N ==>
      && unchanged(n`degree) && unchanged(n`parent) && unchanged(n`kids) && unchanged(n`child)
      && (n.parent != null ==> unchanged(n`next))
    ensures Linked(N)
  {
  }

  /** The roots of N, split over two lists. */
  ghost predicate RootsOfBoth<V>(N: set<Node<V>>, a: seq<Node<V>>, b: seq<Node<V>>)
    reads N`parent
  {
    && Distinct(a) && Distinct(b)
    && (forall n :: n in a ==> n in N && n.parent == null && n !in b)
    && (forall n :: n in b ==> n in N && n.parent == null)
    && (forall n {:trigger n.parent} :: n in N && n.parent == null ==> n in a || n in b)
  }

  lemma {:induction false} MergedRoots<V>(N: set<Node<V>>, d: Degrees<V>, ra: seq<Node<V>>, rb: seq<Node<V>>)
    requires RootsOfBoth(N, ra, rb)
    ensures RootsOf(N, Merged(d, ra, rb))
  {
    var m := Merged(d, ra, rb);
    MergedDistinct(d, ra, rb);
    forall i | 0 <= i < |m|
      ensures m[i] in N && m[i].parent == null
    {
      MergedMembers(d, ra, rb, m[i]);
    }
    forall n | n in N && n.parent == null
      ensures n in m
    {
      MergedMembers(d, ra, rb, n);
    }
  }

  /** Relinking a root in the root list leaves all subtrees alone. */
  method SetRootNext<V>(x: Node<V>, y: Node?<V>, ghost N: set<Node<V>>)
    requires Linked(N) && x in N && x.parent == null
    modifies x`next
    ensures Linked(N) && x.next == y
  {
    x.next := y;
  }

  /** The first branch of the carry step: the next root becomes a child of x. */
  method AbsorbNext<V>(x: Node<V>, next: Node<V>, ghost N: set<Node<V>>, ghost r: seq<Node<V>>, ghost k: nat, ghost f: Forest<V>)
    returns (ghost r': seq<Node<V>>)
    requires RootList(N, r) && k + 1 < |r| && x == r[k] && next == r[k+1] && x.degree == next.degree && Shows(r, f)
    modifies x`next, x`child, x`degree, x`kids, x`tree, next`parent, next`next
    ensures RootList(N, r') && r' == Without(r, k + 1) && Shows(r', LinkedAt(f, k, Link(f[k], f[k+1])))
  {
    SetRootNext(x, next.next, N);
    LinkNodes(x, next, N);
    r' := Without(r, k + 1);
    WithoutIsList(r, k + 1);
    WithoutIsRoots(N, r, k + 1);
    WithoutShows(r, k, k + 1, f, x.tree);
  }

  /** The second branch: x becomes a child of the next root, which takes its place in the list. */
  method AbsorbPrevious<V>(prev: Node?<V>, x: Node<V>, next: Node<V>, ghost N: set<Node<V>>, ghost r: seq<Node<V>>, ghost k: nat,
                           ghost f: Forest<V>)
    returns (ghost r': seq<Node<V>>)
    requires RootList(N, r) && k + 1 < |r| && x == r[k] && next == r[k+1] && x.degree == next.degree
    requires prev == Last(r, k) && Shows(r, f)
    modifies (if prev == null then {} else {prev})`next
    modifies next`child, next`degree, next`kids, next`tree, x`parent, x`next
    ensures RootList(N, r') && r' == Without(r, k) && Shows(r', LinkedAt(f, k, Link(f[k+1], f[k])))
  {
    if prev != null {
      SetRootNext(prev, next, N);
    }
    LinkNodes(next, x, N);
    r' := Without(r, k);
    WithoutIsList(r, k);
    WithoutIsRoots(N, r, k);
    WithoutShows(r, k, k, f, next.tree);
  }

  /** The carry step that links x and the next root. */
  method LinkPair<V>(hp: Priority<V>, h: Node<V>, prev: Node?<V>, x: Node<V>, next: Node<V>, ghost N: set<Node<V>>,
                     ghost r: seq<Node<V>>, ghost k: nat, ghost f: Forest<V>)
    returns (head: Node<V>, root: Node<V>, ghost r': seq<Node<V>>)
    requires RootList(N, r) && k + 1 < |r| && x == r[k] && next == r[k+1] && x.degree == next.degree
    requires prev == Last(r, k) && h == r[0] && Shows(r, f)
    modifies N`parent, N`next, N`child, N`degree, N`kids, N`tree
    ensures RootList(N, r') && |r'| == |r| - 1 && root == r'[k] && prev == Last(r', k) && head == r'[0]
    ensures Shows(r', LinkedAt(f, k, if hp(f[k].item, f[k+1].item) then Link(f[k], f[k+1]) else Link(f[k+1], f[k])))
  {
    head, root := h, x;
    assert x.value == f[k].item && next.value == f[k+1].item;
    if hp(x.value, next.value) {
      r' := AbsorbNext(x, next, N, r, k, f);
    } else {
      root := next;
      if prev == null {
        head := next;
      }
      r' := AbsorbPrevious(prev, x, next, N, r, k, f);
    }
  }

  /** The carry loop of __heap_union. */
  method CarryList<V>(hp: Priority<V>, h: Node<V>, ghost N: set<Node<V>>, ghost r0: seq<Node<V>>, ghost f0: Forest<V>)
    returns (head: Node<V>, ghost r: seq<Node<V>>)
    requires RootList(N, r0) && r0 != [] && h == r0[0] && Shows(r0, f0)
    modifies N`parent, N`next, N`child, N`degree, N`kids, N`tree
    ensures RootList(N, r) && r != [] && head == r[0]
    ensures Shows(r, Carry(hp, f0))
  {
    head := h;
    r := r0;
    var prev: Node?<V> := null;
    var x := h;
    var next := x.next;
    ghost var f, k := f0, 0;
    while next != null
      invariant RootList(N, r) && k < |r| && head == r[0] && x == r[k]
      invariant prev == Last(r, k) && next == At(r, k + 1) && Shows(r, f)
      invariant f[..k] + Carry(hp, f[k..]) == Carry(hp, f0)
      decreases |r| - k
    {
      if x.degree != next.degree || (next.next != null && next.next.degree == x.degree) {
        CarryAdvances(hp, f, k);
        prev := x;
        x := next;
        k := k + 1;
      } else {
        CarryLinks(hp, f, k);
        head, x, r := LinkPair(hp, head, prev, x, next, N, r, k, f);
        f := LinkedAt(f, k, if hp(f[k].item, f[k+1].item) then Link(f[k], f[k+1]) else Link(f[k+1], f[k]));
      }
      next := x.next;
    }
    assert f[..k] + Carry(hp, f[k..]) == f;
  }

  /** __heap_union on two root lists of one linked forest. */
  method UnionLists<V>(hp: Priority<V>, h1: Node?<V>, h2: Node?<V>, ghost N: set<Node<V>>,
                       ghost r1: seq<Node<V>>, ghost r2: seq<Node<V>>, ghost f1: Forest<V>, ghost f2: Forest<V>)
    returns (head: Node?<V>, ghost r: seq<Node<V>>)
    requires Linked(N) && TreesMatch(N) && RootsOfBoth(N, r1, r2)
    requires IsList(r1) && IsList(r2) && h1 == At(r1, 0) && h2 == At(r2, 0)
    requires Shows(r1, f1) && Shows(r2, f2)
    modifies N`parent, N`next, N`child, N`degree, N`kids, N`tree
    ensures RootList(N, r) && head == At(r, 0) && Shows(r, UnionForests(hp, f1, f2))
  {
    if h2 == null {
      return h1, r1;
    }
    if h1 == null {
      return h2, r2;
    }
    var h, m := MergeLists(h1, h2, N, r1, r2, f1, f2);
    head, r := CarryList(hp, h, N, m, Merge(f1, f2));
  }

  // ---------- Taking a root out ----------

  /** The child list of z is `kids`, from the highest degree down. */
  lemma {:induction false} ChildList<V>(N: set<Node<V>>, z: Node<V>, i: nat)
    requires Linked(N) && z in N && i < z.degree
    ensures |z.kids| == z.degree && z.child == Last(z.kids, |z.kids|)
    ensures z.kids[i] in N && z.kids[i].parent == z && z.kids[i].degree == i && z.kids[i].next == Last(z.kids, i)
    decreases z.degree - i
  {
    if i + 1 < z.degree {
      ChildList(N, z, i + 1);
      var c := z.kids[i+1];
      assert c.next != null && c.next.parent == z && c.next.degree == i;
      if i > 0 {
        var d := c.next;
        assert d.next != null && d.next.parent == z;
      }
    } else {
      var c := z.child;
      assert c.parent == z && c.degree == i;
      if i > 0 {
        assert c.next != null && c.next.parent == z;
      }
    }
  }

  /** __heap_reverse on the child list of a node. It also clears the parent pointers. */
  method ReverseList<V>(h0: Node?<V>, ghost kids: seq<Node<V>>) returns (h: Node?<V>)
    requires Distinct(kids) && h0 == Last(kids, |kids|)
    requires forall i {:trigger kids[i].next} :: 0 <= i < |kids| ==> kids[i].next == Last(kids, i)
    modifies (set n | n in kids)`parent, (set n | n in kids)`next
    ensures IsList(kids) && h == At(kids, 0)
    ensures forall n :: n in kids ==> n.parent == null
  {
    h := h0;
    if h == null {
      return h;
    }
    var tail: Node?<V> := null;
    ghost var j := |kids| - 1;
    h.parent := null;
    while h.next != null
      invariant 0 <= j < |kids| && h == kids[j] && tail == At(kids, j + 1)
      invariant forall p {:trigger kids[p].next} :: j < p < |kids| ==> kids[p].next == At(kids, p + 1)
      invariant forall p {:trigger kids[p].next} :: 0 <= p <= j ==> kids[p].next == Last(kids, p)
      invariant forall p {:trigger kids[p].parent} :: j <= p < |kids| ==> kids[p].parent == null
      decreases j
    {
      var next := h.next;
      h.next := tail;
      tail := h;
      h := next;
      h.parent := null;
      j := j - 1;
    }
    h.next := tail;
  }

  /** What is left of a linked forest when the children of a root z have become roots. */
  twostate lemma RestStaysLinked<V>(new N: set<Node<V>>, new z: Node<V>)
    requires old(allocated(N) && allocated(z))
    requires old(Linked(N) && TreesMatch(N)) && z in N && old(z.parent) == null
    requires forall n {:trigger n.parent} :: n in N ==>
               if old(n.parent) == z then n.parent == null else n.parent == old(n.parent)
    requires forall n {:trigger n.next} :: n in N && old(n.parent) != z ==> n.next == old(n.next)
    requires forall n :: n in N ==> unchanged(n`child) && unchanged(n`degree) && unchanged(n`kids)
    requires forall n :: n in N ==> unchanged(n`tree) && unchanged(n`value)
    ensures Linked(N - {z}) && TreesMatch(N - {z})
  {
  }

  /** The children of z, all at once. */
  lemma {:induction false} Children<V>(N: set<Node<V>>, z: Node<V>)
    requires Linked(N) && z in N
    ensures |z.kids| == z.degree && z.child == Last(z.kids, |z.kids|)
    ensures forall i {:trigger z.kids[i]} :: 0 <= i < |z.kids| ==>
              z.kids[i] in N && z.kids[i].parent == z && z.kids[i].degree == i
    ensures forall i {:trigger z.kids[i].next} :: 0 <= i < |z.kids| ==> z.kids[i].next == Last(z.kids, i)
    ensures forall n {:trigger n.parent} :: n in N && n.parent == z ==> n in z.kids
  {
    assert |z.kids| == z.degree;
    forall i | 0 <= i < |z.kids|
      ensures z.kids[i] in N && z.kids[i].parent == z && z.kids[i].degree == i && z.kids[i].next == Last(z.kids, i)
    {
      ChildList(N, z, i);
    }
    if z.degree > 0 {
      ChildList(N, z, 0);
    }
  }

  /** Turns the children of a root into a root list of their own. */
  method ReleaseChildren<V>(z: Node<V>, ghost N: set<Node<V>>) returns (h: Node?<V>)
    requires Linked(N) && TreesMatch(N) && z in N && z.parent == null
    modifies N`parent, N`next
    ensures Linked(N - {z}) && TreesMatch(N - {z})
    ensures IsList(z.kids) && h == At(z.kids, 0) && Distinct(z.kids) && Shows(z.kids, z.tree.kids)
    ensures forall n :: n in z.kids ==> n in N && n != z && n.parent == null && old(n.parent) == z
    ensures forall n {:trigger n.parent} :: n in N && n !in z.kids ==> n.parent == old(n.parent) && n.parent != z
    ensures forall n {:trigger n.next} :: n in N && n !in z.kids ==> n.next == old(n.next)
  {
    Children(N, z);
    h := ReverseList(z.child, z.kids);
    RestStaysLinked(N, z);
  }

  /** Takes a root out of the root list. */
  method UnlinkRoot<V>(h: Node?<V>, prev: Node?<V>, z: Node<V>, ghost N: set<Node<V>>, ghost r: seq<Node<V>>, ghost i: nat)
    returns (head: Node?<V>)
    requires RootList(N, r) && h == At(r, 0) && i < |r| && z == r[i] && prev == Last(r, i)
    modifies (if prev == null then {} else {prev})`next
    ensures Linked(N) && IsList(Without(r, i)) && head == At(Without(r, i), 0)
  {
    head := h;
    if prev != null {
      SetRootNext(prev, z.next, N);
    } else {
      head := z.next;
    }
    WithoutIsList(r, i);
  }

  lemma {:induction false} WithoutShowsRest<V>(r: seq<Node<V>>, i: nat, f: Forest<V>)
    requires Shows(r, f) && i < |r|
    ensures i < |f| && r[i].tree == f[i] && Shows(Without(r, i), Without(f, i))
  {
  }

  /** Takes a root out of the root list and makes its children a second root list. */
  method SplitRoot<V>(h: Node?<V>, prev: Node?<V>, z: Node<V>, ghost N: set<Node<V>>, ghost r: seq<Node<V>>,
                      ghost i: nat, ghost f: Forest<V>)
    returns (h1: Node?<V>, h2: Node?<V>)
    requires RootList(N, r) && h == At(r, 0) && i < |r| && z == r[i] && prev == Last(r, i) && Shows(r, f)
    modifies N`parent, N`next
    ensures Linked(N - {z}) && TreesMatch(N - {z}) && RootsOfBoth(N - {z}, Without(r, i), z.kids)
    ensures IsList(Without(r, i)) && h1 == At(Without(r, i), 0) && Shows(Without(r, i), Without(f, i))
    ensures IsList(z.kids) && h2 == At(z.kids, 0) && Shows(z.kids, f[i].kids)
  {
    hide Linked, TreesMatch, Shows;
    WithoutShowsRest(r, i, f);
    h1 := UnlinkRoot(h, prev, z, N, r, i);
    h2 := ReleaseChildren(z, N);
    WithoutIsRootsOfBoth(N, r, i, z.kids);
  }

  /** A root leaves a root list, and its children rejoin the list. */
  method TakeRootFrom<V>(hp: Priority<V>, h: Node?<V>, prev: Node?<V>, z: Node<V>, ghost N: set<Node<V>>,
                         ghost r: seq<Node<V>>, ghost i: nat, ghost f: Forest<V>)
    returns (head: Node?<V>, ghost r': seq<Node<V>>)
    requires RootList(N, r) && h == At(r, 0) && i < |r| && z == r[i] && prev == Last(r, i) && Shows(r, f)
    modifies N`parent, N`next, N`child, N`degree, N`kids, N`tree
    ensures RootList(N - {z}, r') && head == At(r', 0) && Shows(r', RemoveRoot(hp, f, i))
  {
    var h1, h2 := SplitRoot(h, prev, z, N, r, i, f);
    head, r' := UnionLists(hp, h1, h2, N - {z}, Without(r, i), z.kids, Without(f, i), f[i].kids);
  }

  lemma {:induction false} WithoutIsRootsOfBoth<V>(N: set<Node<V>>, r: seq<Node<V>>, i: nat, kids: seq<Node<V>>)
    requires i < |r| && Distinct(r) && Distinct(kids)
    requires forall j {:trigger r[j]} :: 0 <= j < |r| ==> r[j] in N && r[j].parent == null && r[j] !in kids
    requires forall n :: n in kids ==> n in N && n.parent == null && n != r[i]
    requires forall n {:trigger n.parent} :: n in N && n.parent == null ==> n in r || n in kids
    ensures RootsOfBoth(N - {r[i]}, Without(r, i), kids)
  {
    var w := Without(r, i);
    forall n | n in N - {r[i]} && n.parent == null
      ensures n in w || n in kids
    {
      if n in r {
        var j :| 0 <= j < |r| && r[j] == n;
        assert n == w[if j < i then j else j - 1];
      }
    }
  }

  /** __heap_min */
  method FindMin<V>(hp: Priority<V>, head: Node?<V>, ghost r: seq<Node<V>>, ghost f: Forest<V>)
    returns (prev: Node?<V>, node: Node?<V>)
    requires IsList(r) && head == At(r, 0) && Shows(r, f)
    requires forall i :: 0 <= i < |r| ==> r[i].tree.item == r[i].value
    ensures f == [] ==> node == null
    ensures f != [] ==> node == r[MinIndex(hp, f)] && prev == Last(r, MinIndex(hp, f))
  {
    prev := null;
    if head == null {
      return prev, null;
    }
    node := head;
    var last := head;
    var cur := head.next;
    ghost var i, best := 1, 0;
    while cur != null
      invariant best < i <= |r| && node == r[best] && prev == Last(r, best)
      invariant last == r[i-1] && cur == At(r, i)
      invariant MinScan(hp, f, i, best) == MinIndex(hp, f)
      decreases |r| - i
    {
      if hp(cur.value, node.value) {
        node := cur;
        prev := last;
        best := i;
      }
      last := cur;
      cur := cur.next;
      i := i + 1;
    }
  }

  /** Adds a node to a root list, after reinitializing it. */
  method AddNode<V>(hp: Priority<V>, h: Node?<V>, x: Node<V>, ghost N: set<Node<V>>, ghost r: seq<Node<V>>, ghost f: Forest<V>)
    returns (head: Node?<V>, ghost r': seq<Node<V>>)
    requires RootList(N, r) && h == At(r, 0) && Shows(r, f) && x !in N
    modifies (N + {x})`parent, (N + {x})`next, (N + {x})`child, (N + {x})`degree, (N + {x})`kids, (N + {x})`tree
    ensures RootList(N + {x}, r') && head == At(r', 0) && Shows(r', UnionForests(hp, f, [Leaf(x.value)]))
  {
    ResetNode(x, N, r, f);
    head, r' := UnionLists(hp, h, x, N + {x}, r, [x], f, [Leaf(x.value)]);
  }

  method ResetNode<V>(x: Node<V>, ghost N: set<Node<V>>, ghost r: seq<Node<V>>, ghost f: Forest<V>)
    requires RootList(N, r) && Shows(r, f) && x !in N
    modifies x`parent, x`next, x`child, x`degree, x`kids, x`tree
    ensures Linked(N + {x}) && TreesMatch(N + {x}) && RootsOfBoth(N + {x}, r, [x])
    ensures IsList(r) && IsList([x]) && Shows(r, f) && Shows([x], [Leaf(x.value)])
  {
    x.child := null;
    x.parent := null;
    x.next := null;
    x.degree := 0;
    x.kids, x.tree := [], Leaf(x.value);
    RootListFrame(N, r, f);
    SingletonJoins(N, r, x);
  }

  lemma {:induction false} SingletonJoins<V>(N: set<Node<V>>, r: seq<Node<V>>, x: Node<V>)
    requires RootList(N, r) && x !in N
    requires x.child == null && x.parent == null && x.next == null && x.degree == 0
    requires x.kids == [] && x.tree == Leaf(x.value)
    ensures Linked(N + {x}) && TreesMatch(N + {x}) && RootsOfBoth(N + {x}, r, [x])
  {
  }

  /** Every handle in use leads back to its node. */
  ghost predicate HandlesFollow<V>(N: set<Node<V>>)
    reads N`ref, set n | n in N && n.ref != null :: n.ref
  {
    forall n {:trigger n.ref} :: n in N && n.ref != null ==> n.ref.node == n
  }

  /** Handles do not depend on the links between the nodes. */
  twostate lemma HandlesFollowFrame<V>(new N: set<Node<V>>)
    requires old(allocated(N))
    requires old(HandlesFollow(N))
    requires forall n :: n in N ==> unchanged(n`ref) && (n.ref != null ==> unchanged(n.ref))
    ensures HandlesFollow(N)
  {
  }

  /** Root lists do not depend on anything but their nodes. */
  twostate lemma RootListFrame<V>(new N: set<Node<V>>, new r: seq<Node<V>>, new f: Forest<V>)
    requires old(allocated(N) && allocated(r) && allocated(f))
    requires old(RootList(N, r) && Shows(r, f))
    requires forall n :: n in N ==> unchanged(n)  // no field of a node changes
    ensures RootList(N, r) && Shows(r, f)
  {
  }

  lemma {:induction false} EmptyRootList<V>(N: set<Node<V>>, r: seq<Node<V>>, f: Forest<V>)
    requires N == {} && r == [] && f == []
    ensures RootList(N, r) && Shows(r, f)
  {
  }

  /** Two separate root lists make up one region with two lists. */
  lemma {:induction false} RegionsJoin<V>(M: set<Node<V>>, N: set<Node<V>>, a: seq<Node<V>>, b: seq<Node<V>>)
    requires RootList(M, a) && RootList(N, b) && M !! N
    ensures Linked(M + N) && TreesMatch(M + N) && RootsOfBoth(M + N, a, b)
  {
  }

  /** __heap_union on the root lists of two separate forests. */
  method JoinForests<V>(hp: Priority<V>, h1: Node?<V>, h2: Node?<V>, ghost M: set<Node<V>>, ghost N: set<Node<V>>,
                        ghost a: seq<Node<V>>, ghost b: seq<Node<V>>, ghost f: Forest<V>, ghost g: Forest<V>)
    returns (head: Node?<V>, ghost r: seq<Node<V>>)
    requires RootList(M, a) && RootList(N, b) && M !! N && h1 == At(a, 0) && h2 == At(b, 0)
    requires Shows(a, f) && Shows(b, g)
    modifies M`parent, M`next, M`child, M`degree, M`kids, M`tree
    modifies N`parent, N`next, N`child, N`degree, N`kids, N`tree
    ensures RootList(M + N, r) && head == At(r, 0) && Shows(r, UnionForests(hp, f, g))
  {
    RegionsJoin(M, N, a, b);
    head, r := UnionLists(hp, h1, h2, M + N, a, b, f, g);
  }
}
