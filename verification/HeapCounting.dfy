/** The nodes of linked binomial trees, counted: there are as many as the trees show values. */
module HeapCounting {
  import opened BinomialForest
  import opened HeapNodes

  /** F has the nodes that come next, if the nodes `done` have been visited, each before its children. */
  ghost predicate Frontier<V>(N: set<Node<V>>, done: set<Node<V>>, F: seq<Node<V>>)
    reads N`parent
  {
    && done <= N && Distinct(F)
    && (forall n {:trigger n.parent} :: n in done ==> n.parent == null || n.parent in done)
    && (forall i {:trigger F[i]} :: 0 <= i < |F| ==> F[i] in N && F[i] !in done && (F[i].parent == null || F[i].parent in done))
    && (forall n {:trigger n.parent} :: n in N && n !in done && n !in F ==> n.parent != null && n.parent !in done)
  }

  /** Nobody is left without a parent, and a parent has a higher degree. */
  lemma {:induction false} ParentIsMissing<V>(N: set<Node<V>>, done: set<Node<V>>, n: Node<V>, above: set<Node<V>>)
    requires Linked(N) && Frontier(N, done, []) && n in N && n !in done
    requires forall m {:trigger m.degree} :: m in N && m.degree >= n.degree ==> m in above
    ensures false
    decreases above
  {
    ParentIsMissing(N, done, n.parent, above - {n});
  }

  lemma {:induction false} FrontierMoves<V>(N: set<Node<V>>, done: set<Node<V>>, F: seq<Node<V>>)
    requires Linked(N) && F != [] && Frontier(N, done, F)
    ensures Frontier(N, done + {F[0]}, F[0].kids + F[1..])
  {
    var z := F[0];
    Children(N, z);
    var G, rest, next := z.kids + F[1..], F[1..], done + {z};
    assert forall i {:trigger rest[i]} :: 0 <= i < |rest| ==> rest[i] == F[i+1] && rest[i] != z;
    assert forall i {:trigger z.kids[i]} :: 0 <= i < |z.kids| ==> z.kids[i].parent == z && z.kids[i] !in next;
    forall i, j | 0 <= i < j < |G|
      ensures G[i] != G[j]
    {
      if j < |z.kids| {
        assert z.kids[i].degree == i && z.kids[j].degree == j;
      } else if i < |z.kids| {
        assert z.kids[i].parent == z && G[j] == rest[j-|z.kids|];
      }
    }
    assert F == [z] + rest;
  }

  lemma {:induction false} KidsShow<V>(N: set<Node<V>>, z: Node<V>)
    requires Linked(N) && TreesMatch(N) && z in N
    ensures Shows(z.kids, z.tree.kids)
  {
    Children(N, z);
    forall i | 0 <= i < |z.kids|
      ensures z.kids[i].tree == z.tree.kids[i]
    {
      assert z.kids[i].parent == z;
    }
  }

  lemma {:induction false} FrontierShows<V>(N: set<Node<V>>, F: seq<Node<V>>, f: Forest<V>)
    requires Linked(N) && TreesMatch(N) && Shows(F, f) && F != [] && F[0] in N
    ensures Shows(F[0].kids + F[1..], f[0].kids + f[1..])
    ensures ForestItems(f) == multiset{f[0].item} + ForestItems(f[0].kids + f[1..])
  {
    KidsShow(N, F[0]);
    ForestItemsConcat(f[0].kids, f[1..]);
  }

  lemma {:induction false} CountFrom<V>(N: set<Node<V>>, done: set<Node<V>>, F: seq<Node<V>>, f: Forest<V>)
    requires Linked(N) && TreesMatch(N) && Frontier(N, done, F) && Shows(F, f)
    ensures |N| == |done| + |ForestItems(f)|
    decreases |N - done|
  {
    if F == [] {
      if n :| n in N && n !in done {
        ParentIsMissing(N, done, n, N);
      }
      assert N == done;
    } else {
      FrontierMoves(N, done, F);
      FrontierShows(N, F, f);
      assert N - (done + {F[0]}) == N - done - {F[0]};
      CountFrom(N, done + {F[0]}, F[0].kids + F[1..], f[0].kids + f[1..]);
    }
  }

  /** A root list has as many nodes in its trees as its forest has values. */
  lemma {:induction false} CountNodes<V>(N: set<Node<V>>, r: seq<Node<V>>, f: Forest<V>)
    requires RootList(N, r) && Shows(r, f)
    ensures |N| == |ForestItems(f)|
  {
    CountFrom(N, {}, r, f);
  }
}
