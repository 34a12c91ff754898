/** The algebra of binomial forests behind include/heap.h, on values.

    A forest is the root list in list order. The children of a tree are given by degree, which is
    their child list in reverse. `HeapState` adds the cached minimum, which is kept outside the forest. The pointer
    classes in module BinomialHeap refine the operations defined here. */
module BinomialForest {
  import opened Options

  datatype Tree<T> = Tree(item: T, kids: seq<Tree<T>>)

  type Forest<T> = seq<Tree<T>>

  /** The C type heap_prio_t: does the first item have the higher priority? */
  type Priority<!T> = (T, T) -> bool

  ghost predicate StrictWeakOrder<T(!new)>(hp: Priority<T>) {
    && (forall a, b :: hp(a, b) ==> !hp(b, a))
    && (forall a, b, c :: hp(a, c) ==> hp(a, b) || hp(b, c))
  }

  lemma {:induction false} NotBeatenIsTransitive<T(!new)>(hp: Priority<T>, a: T, b: T, c: T)
    requires StrictWeakOrder(hp)
    requires !hp(a, b) && !hp(b, c)
    ensures !hp(a, c)
  {
  }

  // ---------- Trees and forests ----------

  function Degree<T>(t: Tree<T>): nat {
    |t.kids|
  }

  /** A binomial tree of degree k has one child of each degree below k. */
  ghost predicate Binomial<T>(t: Tree<T>) {
    forall i :: 0 <= i < |t.kids| ==> Degree(t.kids[i]) == i && Binomial(t.kids[i])
  }

  /** No child beats its parent. */
  ghost predicate HeapOrdered<T>(hp: Priority<T>, t: Tree<T>) {
    forall i :: 0 <= i < |t.kids| ==> !hp(t.kids[i].item, t.item) && HeapOrdered(hp, t.kids[i])
  }

  ghost function Items<T>(t: Tree<T>): (m: multiset<T>)
    decreases t
  {
    multiset{t.item} + ForestItems(t.kids)
  }

  ghost function ForestItems<T>(f: Forest<T>): (m: multiset<T>)
    decreases f
  {
    if f == [] then multiset{} else Items(f[0]) + ForestItems(f[1..])
  }

  ghost predicate Increasing<T>(f: Forest<T>) {
    forall i, j :: 0 <= i < j < |f| ==> Degree(f[i]) < Degree(f[j])
  }

  ghost predicate GoodTree<T>(hp: Priority<T>, t: Tree<T>) {
    Binomial(t) && HeapOrdered(hp, t)
  }

  ghost predicate GoodTrees<T>(hp: Priority<T>, f: Forest<T>) {
    forall i :: 0 <= i < |f| ==> GoodTree(hp, f[i])
  }

  ghost predicate GoodForest<T>(hp: Priority<T>, f: Forest<T>) {
    GoodTrees(hp, f) && Increasing(f)
  }

  lemma {:induction false} ForestItemsConcat<T>(a: Forest<T>, b: Forest<T>)
    ensures ForestItems(a + b) == ForestItems(a) + ForestItems(b)
  {
    if a == [] {
      assert a + b == b;
    } else {
      assert (a + b)[1..] == a[1..] + b;
      ForestItemsConcat(a[1..], b);
    }
  }

  lemma {:induction false} ForestItemsSplit<T>(f: Forest<T>, i: nat)
    requires i < |f|
    ensures ForestItems(f) == ForestItems(f[..i]) + Items(f[i]) + ForestItems(f[i+1..])
  {
    assert f == f[..i] + ([f[i]] + f[i+1..]);
    ForestItemsConcat(f[..i], [f[i]] + f[i+1..]);
    assert ([f[i]] + f[i+1..])[1..] == f[i+1..];
  }

  lemma {:induction false} ForestItemsMember<T>(f: Forest<T>, x: T) returns (i: nat)
    requires x in ForestItems(f)
    ensures i < |f| && x in Items(f[i])
  {
    if x in Items(f[0]) {
      i := 0;
    } else {
      var j := ForestItemsMember(f[1..], x);
      i := j + 1;
    }
  }

  /** Replacing one tree of a forest changes the items by the difference of the two trees. */
  lemma {:induction false} ForestItemsUpdate<T>(f: Forest<T>, g: Forest<T>, i: nat)
    requires i < |f| && |g| == |f|
    requires forall j :: 0 <= j < |f| && j != i ==> g[j] == f[j]
    ensures ForestItems(g) + Items(f[i]) == ForestItems(f) + Items(g[i])
  {
    var a, b, c, d := Items(f[0]), Items(g[0]), ForestItems(f[1..]), ForestItems(g[1..]);
    assert ForestItems(f) == a + c && ForestItems(g) == b + d;
    if i == 0 {
      assert f[1..] == g[1..];
    } else {
      ForestItemsUpdate(f[1..], g[1..], i - 1);
      AddToBoth(a, c, d, Items(f[i]), Items(g[i]));
    }
  }

  lemma {:induction false} AddToBoth<T>(a: multiset<T>, c: multiset<T>, d: multiset<T>, x: multiset<T>, y: multiset<T>)
    requires d + x == c + y
    ensures (a + d) + x == (a + c) + y
  {
    assert (a + d) + x == a + (d + x);
    assert (a + c) + y == a + (c + y);
  }

  /** The root of a heap-ordered tree is beaten by nothing in the tree. */
  lemma {:induction false} RootIsUnbeaten<T(!new)>(hp: Priority<T>, t: Tree<T>, x: T)
    requires StrictWeakOrder(hp) && HeapOrdered(hp, t) && x in Items(t)
    ensures !hp(x, t.item)
    decreases t
  {
    if x != t.item {
      var i := ForestItemsMember(t.kids, x);
      RootIsUnbeaten(hp, t.kids[i], x);
      NotBeatenIsTransitive(hp, x, t.kids[i].item, t.item);
    }
  }

  // ---------- Linking, merging and carrying ----------

  /** __heap_link: child becomes the child of highest degree. */
  function Link<T>(root: Tree<T>, child: Tree<T>): Tree<T> {
    Tree(root.item, root.kids + [child])
  }

  lemma {:induction false} LinkIsGood<T>(hp: Priority<T>, root: Tree<T>, child: Tree<T>)
    requires GoodTree(hp, root) && GoodTree(hp, child)
    requires Degree(root) == Degree(child) && !hp(child.item, root.item)
    ensures GoodTree(hp, Link(root, child)) && Degree(Link(root, child)) == Degree(root) + 1
    ensures Items(Link(root, child)) == Items(root) + Items(child)
  {
    LinkItems(root, child);
  }

  lemma {:induction false} LinkItems<T>(root: Tree<T>, child: Tree<T>)
    ensures Items(Link(root, child)) == Items(root) + Items(child)
  {
    ForestItemsConcat(root.kids, [child]);
    assert ForestItems([child]) == Items(child);
  }

  /** __heap_merge: on equal degrees the root of the second list comes first. */
  function Merge<T>(a: Forest<T>, b: Forest<T>): Forest<T> {
    if a == [] then b
    else if b == [] then a
    else if Degree(a[0]) < Degree(b[0]) then [a[0]] + Merge(a[1..], b)
    else [b[0]] + Merge(a, b[1..])
  }

  /** A merged list: degrees never decrease and at most two roots share a degree. */
  ghost predicate AtMostTwoPerDegree<T>(f: Forest<T>) {
    && (forall i, j :: 0 <= i < j < |f| ==> Degree(f[i]) <= Degree(f[j]))
    && (forall i, j :: 0 <= i && i + 2 <= j < |f| ==> Degree(f[i]) < Degree(f[j]))
  }

  ghost predicate DegreesAtLeast<T>(f: Forest<T>, d: nat) {
    forall i :: 0 <= i < |f| ==> Degree(f[i]) >= d
  }

  lemma {:induction false} MergeDegrees<T>(a: Forest<T>, b: Forest<T>, d: nat)
    requires DegreesAtLeast(a, d) && DegreesAtLeast(b, d)
    ensures DegreesAtLeast(Merge(a, b), d)
  {
    if a != [] && b != [] {
      if Degree(a[0]) < Degree(b[0]) {
        MergeDegrees(a[1..], b, d);
      } else {
        MergeDegrees(a, b[1..], d);
      }
    }
  }

  lemma {:induction false} MergeItems<T>(a: Forest<T>, b: Forest<T>)
    ensures ForestItems(Merge(a, b)) == ForestItems(a) + ForestItems(b)
  {
    if a != [] && b != [] {
      if Degree(a[0]) < Degree(b[0]) {
        MergeItems(a[1..], b);
      } else {
        MergeItems(a, b[1..]);
      }
    }
  }

  lemma {:induction false} MergeGoodTrees<T>(hp: Priority<T>, a: Forest<T>, b: Forest<T>)
    requires GoodTrees(hp, a) && GoodTrees(hp, b)
    ensures GoodTrees(hp, Merge(a, b))
  {
    if a != [] && b != [] {
      if Degree(a[0]) < Degree(b[0]) {
        MergeGoodTrees(hp, a[1..], b);
      } else {
        MergeGoodTrees(hp, a, b[1..]);
      }
    }
  }

  lemma {:induction false} MergeShape<T>(a: Forest<T>, b: Forest<T>)
    requires Increasing(a) && Increasing(b)
    ensures AtMostTwoPerDegree(Merge(a, b))
  {
    if a != [] && b != [] {
      if Degree(a[0]) < Degree(b[0]) {
        MergeShape(a[1..], b);
        MergeDegrees(a[1..], b, Degree(a[0]) + 1);
        PrependLower(a[0], Merge(a[1..], b));
      } else {
        MergeShape(a, b[1..]);
        if Degree(a[0]) == Degree(b[0]) {
          MergeShapeTie(a, b);
        } else {
          MergeDegrees(a, b[1..], Degree(b[0]) + 1);
          PrependLower(b[0], Merge(a, b[1..]));
        }
      }
    }
  }

  lemma {:induction false} MergeShapeTie<T>(a: Forest<T>, b: Forest<T>)
    requires Increasing(a) && Increasing(b) && a != [] && b != [] && Degree(a[0]) == Degree(b[0])
    requires AtMostTwoPerDegree(Merge(a, b[1..]))
    ensures AtMostTwoPerDegree(Merge(a, b))
  {
    var m := Merge(a[1..], b[1..]);
    MergeDegrees(a[1..], b[1..], Degree(a[0]) + 1);
    assert Merge(a, b[1..]) == [a[0]] + m;
    PrependEqual(b[0], a[0], m);
  }

  lemma {:induction false} PrependLower<T>(t: Tree<T>, f: Forest<T>)
    requires AtMostTwoPerDegree(f) && DegreesAtLeast(f, Degree(t) + 1)
    ensures AtMostTwoPerDegree([t] + f)
  {
  }

  lemma {:induction false} PrependEqual<T>(t: Tree<T>, u: Tree<T>, f: Forest<T>)
    requires Degree(t) == Degree(u) && AtMostTwoPerDegree([u] + f) && DegreesAtLeast(f, Degree(t) + 1)
    ensures AtMostTwoPerDegree([t] + ([u] + f))
  {
    var g := [u] + f;
    assert forall i :: 0 < i < |g| ==> g[i] == f[i-1];
  }

  /** The carry loop of __heap_union: two neighbours of equal degree are linked unless a third one
      of that degree follows. A beaten or tied first root becomes a child of the second. */
  function Carry<T>(hp: Priority<T>, f: Forest<T>): Forest<T>
    decreases |f|
  {
    if |f| < 2 then f
    else if Degree(f[0]) != Degree(f[1]) || (|f| > 2 && Degree(f[2]) == Degree(f[0])) then
      [f[0]] + Carry(hp, f[1..])
    else if hp(f[0].item, f[1].item) then Carry(hp, [Link(f[0], f[1])] + f[2..])
    else Carry(hp, [Link(f[1], f[0])] + f[2..])
  }

  /** One step of the carry loop at position k that moves on. */
  lemma {:induction false} CarryAdvances<T>(hp: Priority<T>, f: Forest<T>, k: nat)
    requires k + 1 < |f|
    requires Degree(f[k]) != Degree(f[k+1]) || (k + 2 < |f| && Degree(f[k+2]) == Degree(f[k]))
    ensures f[..k] + Carry(hp, f[k..]) == f[..k+1] + Carry(hp, f[k+1..])
  {
    var c := Carry(hp, f[k+1..]);
    assert f[k..][1..] == f[k+1..];
    assert Carry(hp, f[k..]) == [f[k]] + c;
    assert f[..k+1] == f[..k] + [f[k]];
    assert f[..k] + ([f[k]] + c) == (f[..k] + [f[k]]) + c;
  }

  /** The trees at positions k and k + 1 become one tree. */
  function LinkedAt<T>(f: Forest<T>, k: nat, t: Tree<T>): (g: Forest<T>)
    requires k + 1 < |f|
    ensures |g| == |f| - 1
    ensures forall i :: 0 <= i < |g| ==> g[i] == if i < k then f[i] else if i == k then t else f[i+1]
  {
    f[..k] + [t] + f[k+2..]
  }

  /** One step of the carry loop at position k that links two roots. */
  lemma {:induction false} CarryLinks<T>(hp: Priority<T>, f: Forest<T>, k: nat)
    requires k + 1 < |f|
    requires !(Degree(f[k]) != Degree(f[k+1]) || (k + 2 < |f| && Degree(f[k+2]) == Degree(f[k])))
    ensures var t := if hp(f[k].item, f[k+1].item) then Link(f[k], f[k+1]) else Link(f[k+1], f[k]);
            var g := LinkedAt(f, k, t);
            f[..k] + Carry(hp, f[k..]) == g[..k] + Carry(hp, g[k..])
  {
    var t := if hp(f[k].item, f[k+1].item) then Link(f[k], f[k+1]) else Link(f[k+1], f[k]);
    var g, before, after := LinkedAt(f, k, t), f[..k], [t] + f[k+2..];
    assert f[k..][2..] == f[k+2..];
    assert g == before + after;
    assert (before + after)[..k] == before && (before + after)[k..] == after;
  }

  /** The shape the carry loop sees: behind the current root at most two roots share a degree, so
      counting the current root at most three do. */
  ghost predicate Carrying<T>(f: Forest<T>) {
    f != [] ==> AtMostTwoPerDegree(f[1..]) && DegreesAtLeast(f[1..], Degree(f[0]))
  }

  /** The carry loop links the first two roots: they have the same degree, and no third one has. */
  predicate LinksFirst<T>(f: Forest<T>) {
    |f| >= 2 && Degree(f[0]) == Degree(f[1]) && !(|f| > 2 && Degree(f[2]) == Degree(f[0]))
  }

  /** Behind a root that stays, the shape is the same; there, the first two roots are linked if their
      degree is that of the root. */
  lemma {:induction false} CarryingRest<T>(f: Forest<T>)
    requires Carrying(f) && |f| >= 2 && !LinksFirst(f)
    ensures Carrying(f[1..]) && (Degree(f[1]) > Degree(f[0]) || (Degree(f[1]) == Degree(f[0]) && LinksFirst(f[1..])))
  {
    var g := f[1..];
    assert forall i {:trigger g[1..][i]} :: 0 <= i < |g| - 1 ==> g[1..][i] == g[i+1];
  }

  lemma {:induction false} PrependRoot<T>(hp: Priority<T>, t: Tree<T>, g: Forest<T>)
    requires GoodTree(hp, t) && GoodForest(hp, g) && DegreesAtLeast(g, Degree(t) + 1)
    ensures GoodForest(hp, [t] + g) && DegreesAtLeast([t] + g, Degree(t))
  {
  }

  lemma {:induction false} LinkFirst<T(!new)>(hp: Priority<T>, f: Forest<T>) returns (t: Tree<T>)
    requires StrictWeakOrder(hp) && GoodTrees(hp, f) && Carrying(f) && LinksFirst(f)
    ensures t == if hp(f[0].item, f[1].item) then Link(f[0], f[1]) else Link(f[1], f[0])
    ensures GoodTrees(hp, [t] + f[2..]) && Carrying([t] + f[2..]) && Degree(t) == Degree(f[0]) + 1
  {
    if hp(f[0].item, f[1].item) {
      LinkIsGood(hp, f[0], f[1]);
      t := Link(f[0], f[1]);
    } else {
      LinkIsGood(hp, f[1], f[0]);
      t := Link(f[1], f[0]);
    }
    CarryRest(hp, f, t);
  }

  lemma {:induction false} CarryIsGood<T(!new)>(hp: Priority<T>, f: Forest<T>)
    requires StrictWeakOrder(hp) && GoodTrees(hp, f) && Carrying(f)
    ensures GoodForest(hp, Carry(hp, f))
    ensures f != [] ==> DegreesAtLeast(Carry(hp, f), Degree(f[0]))
    ensures LinksFirst(f) ==> DegreesAtLeast(Carry(hp, f), Degree(f[0]) + 1)
    decreases |f|
  {
    if |f| >= 2 {
      if LinksFirst(f) {
        var t := LinkFirst(hp, f);
        CarryIsGood(hp, [t] + f[2..]);
      } else {
        CarryingRest(f);
        CarryIsGood(hp, f[1..]);
        PrependRoot(hp, f[0], Carry(hp, f[1..]));
      }
    }
  }

  lemma {:induction false} CarryItems<T>(hp: Priority<T>, f: Forest<T>)
    ensures ForestItems(Carry(hp, f)) == ForestItems(f)
    decreases |f|
  {
    if |f| >= 2 {
      if Degree(f[0]) != Degree(f[1]) || (|f| > 2 && Degree(f[2]) == Degree(f[0])) {
        CarryItems(hp, f[1..]);
      } else {
        var t := if hp(f[0].item, f[1].item) then Link(f[0], f[1]) else Link(f[1], f[0]);
        LinkItems(f[0], f[1]);
        LinkItems(f[1], f[0]);
        CarryItems(hp, [t] + f[2..]);
        assert ([t] + f[2..])[1..] == f[1..][1..];
      }
    }
  }

  /** Linking the first two roots keeps the shape of the carry loop. */
  lemma {:induction false} CarryRest<T>(hp: Priority<T>, f: Forest<T>, t: Tree<T>)
    requires |f| >= 2 && GoodTrees(hp, f) && Carrying(f) && GoodTree(hp, t)
    requires Degree(t) == Degree(f[0]) + 1 && Degree(f[0]) == Degree(f[1])
    requires !(|f| > 2 && Degree(f[2]) == Degree(f[0]))
    ensures GoodTrees(hp, [t] + f[2..]) && Carrying([t] + f[2..])
  {
    var g := [t] + f[2..];
    assert g[1..] == f[2..] == f[1..][1..];
    forall i | 0 <= i < |f[2..]|
      ensures Degree(f[2..][i]) >= Degree(t)
    {
      assert f[2..][i] == f[1..][i+1] && Degree(f[1..][1]) <= Degree(f[1..][i+1]);
    }
    forall i | 0 <= i < |g|
      ensures GoodTree(hp, g[i])
    {
      if i > 0 {
        assert g[i] == f[i+1];
      }
    }
    forall i, j | 0 <= i < j < |f[2..]|
      ensures Degree(f[2..][i]) <= Degree(f[2..][j])
      ensures i + 2 <= j ==> Degree(f[2..][i]) < Degree(f[2..][j])
    {
      assert f[2..][i] == f[1..][i+1] && f[2..][j] == f[1..][j+1];
    }
  }

  /** __heap_union: merging, then carrying, unless one of the lists is empty. */
  function UnionForests<T>(hp: Priority<T>, a: Forest<T>, b: Forest<T>): Forest<T> {
    if b == [] then a
    else if a == [] then b
    else Carry(hp, Merge(a, b))
  }

  lemma {:induction false} ShapeIsCarrying<T>(m: Forest<T>)
    requires AtMostTwoPerDegree(m)
    ensures Carrying(m)
  {
    if m != [] {
      assert forall i {:trigger m[1..][i]} :: 0 <= i < |m| - 1 ==> m[1..][i] == m[i+1];
    }
  }

  lemma {:induction false} UnionIsGood<T(!new)>(hp: Priority<T>, a: Forest<T>, b: Forest<T>)
    requires StrictWeakOrder(hp) && GoodForest(hp, a) && GoodForest(hp, b)
    ensures GoodForest(hp, UnionForests(hp, a, b))
    ensures ForestItems(UnionForests(hp, a, b)) == ForestItems(a) + ForestItems(b)
  {
    hide Carry, Merge, GoodTree, AtMostTwoPerDegree, Carrying;
    if a != [] && b != [] {
      MergeItems(a, b);
      MergeGoodTrees(hp, a, b);
      MergeShape(a, b);
      ShapeIsCarrying(Merge(a, b));
      CarryIsGood(hp, Merge(a, b));
      CarryItems(hp, Merge(a, b));
    }
  }

  // ---------- Binary addition ----------

  function Pow2(k: nat): (p: nat)
    ensures p >= 1
  {
    if k == 0 then 1 else 2 * Pow2(k - 1)
  }

  /** Is bit k of n set? */
  predicate Bit(n: nat, k: nat) {
    if k == 0 then n % 2 == 1 else Bit(n / 2, k - 1)
  }

  predicate HasDegree<T>(f: Forest<T>, k: nat) {
    exists i :: 0 <= i < |f| && Degree(f[i]) == k
  }

  /** A binomial tree of degree k has 2^k nodes. */
  lemma {:induction false} TreeSize<T>(t: Tree<T>)
    requires Binomial(t)
    ensures |Items(t)| == Pow2(Degree(t))
    decreases t, 1
  {
    ChildrenSize(t, Degree(t));
    assert t.kids[..Degree(t)] == t.kids;
  }

  lemma {:induction false} ChildrenSize<T>(t: Tree<T>, i: nat)
    requires Binomial(t) && i <= |t.kids|
    ensures 1 + |ForestItems(t.kids[..i])| == Pow2(i)
    decreases t, 0, i
  {
    if i > 0 {
      TreeSize(t.kids[i-1]);
      ChildrenSize(t, i - 1);
      assert t.kids[..i] == t.kids[..i-1] + [t.kids[i-1]];
      ForestItemsConcat(t.kids[..i-1], [t.kids[i-1]]);
      assert ForestItems([t.kids[i-1]]) == Items(t.kids[i-1]);
    }
  }

  /** The node count of a forest without degrees below b, in units of 2^b. */
  ghost function Units<T>(f: Forest<T>, b: nat): nat
    requires DegreesAtLeast(f, b)
  {
    if f == [] then 0 else Pow2(Degree(f[0]) - b) + Units(f[1..], b)
  }

  lemma {:induction false} UnitsCount<T>(f: Forest<T>)
    requires forall i :: 0 <= i < |f| ==> Binomial(f[i])
    ensures |ForestItems(f)| == Units(f, 0)
  {
    if f != [] {
      TreeSize(f[0]);
      UnitsCount(f[1..]);
    }
  }

  lemma {:induction false} UnitsDouble<T>(f: Forest<T>, b: nat)
    requires DegreesAtLeast(f, b + 1)
    ensures DegreesAtLeast(f, b) && Units(f, b) == 2 * Units(f, b + 1)
  {
    if f != [] {
      UnitsDouble(f[1..], b);
    }
  }

  lemma {:induction false} UnitsBits<T>(f: Forest<T>, b: nat, k: nat)
    requires Increasing(f) && DegreesAtLeast(f, b)
    ensures Bit(Units(f, b), k) <==> HasDegree(f, b + k)
    decreases k
  {
    if f != [] && Degree(f[0]) == b {
      UnitsDouble(f[1..], b);
      if k > 0 {
        UnitsBits(f[1..], b + 1, k - 1);
        assert HasDegree(f, b + k) <==> HasDegree(f[1..], b + k) by {
          assert forall i :: 0 < i < |f| ==> f[i] == f[1..][i-1];
        }
      }
    } else {
      assert DegreesAtLeast(f, b + 1) by {
        assert forall i :: 0 < i < |f| ==> Degree(f[0]) < Degree(f[i]);
      }
      UnitsDouble(f, b);
      if k > 0 {
        UnitsBits(f, b + 1, k - 1);
      }
    }
  }

  /** A root of degree k is present exactly if bit k of the node count is set. */
  lemma {:induction false} RootsAreBinaryDigits<T>(hp: Priority<T>, f: Forest<T>, k: nat)
    requires GoodForest(hp, f)
    ensures HasDegree(f, k) <==> Bit(|ForestItems(f)|, k)
  {
    UnitsCount(f);
    UnitsBits(f, 0, k);
  }

  lemma {:induction false} SumSize<T>(m: multiset<T>, a: multiset<T>, b: multiset<T>)
    requires m == a + b
    ensures |m| == |a| + |b|
  {
  }

  /** The union of two forests is binary addition of their node counts. */
  lemma {:induction false} UnionIsBinaryAddition<T(!new)>(hp: Priority<T>, a: Forest<T>, b: Forest<T>, k: nat)
    requires StrictWeakOrder(hp) && GoodForest(hp, a) && GoodForest(hp, b)
    ensures HasDegree(UnionForests(hp, a, b), k) <==> Bit(|ForestItems(a)| + |ForestItems(b)|, k)
  {
    var u := UnionForests(hp, a, b);
    assert GoodForest(hp, u) && |ForestItems(u)| == |ForestItems(a)| + |ForestItems(b)| by {
      UnionIsGood(hp, a, b);
      SumSize(ForestItems(u), ForestItems(a), ForestItems(b));
    }
    RootsAreBinaryDigits(hp, u, k);
  }

  // ---------- Extracting the minimum ----------

  /** The scan of __heap_min from position i on, with the best position so far. */
  function MinScan<T>(hp: Priority<T>, f: Forest<T>, i: nat, best: nat): (m: nat)
    requires best < i <= |f|
    ensures m < |f|
    decreases |f| - i
  {
    if i == |f| then best
    else MinScan(hp, f, i + 1, if hp(f[i].item, f[best].item) then i else best)
  }

  function MinIndex<T>(hp: Priority<T>, f: Forest<T>): (m: nat)
    requires f != []
    ensures m < |f|
  {
    MinScan(hp, f, 1, 0)
  }

  lemma {:induction false} MinScanIsUnbeaten<T(!new)>(hp: Priority<T>, f: Forest<T>, i: nat, best: nat)
    requires StrictWeakOrder(hp) && best < i <= |f|
    requires forall j :: 0 <= j < i ==> !hp(f[j].item, f[best].item)
    ensures forall j :: 0 <= j < |f| ==> !hp(f[j].item, f[MinScan(hp, f, i, best)].item)
    decreases |f| - i
  {
    if i < |f| {
      MinScanIsUnbeaten(hp, f, i + 1, if hp(f[i].item, f[best].item) then i else best);
    }
  }

  lemma {:induction false} MinIndexIsUnbeaten<T(!new)>(hp: Priority<T>, f: Forest<T>, x: T)
    requires StrictWeakOrder(hp) && GoodTrees(hp, f) && f != []
    requires x in ForestItems(f)
    ensures !hp(x, f[MinIndex(hp, f)].item)
  {
    MinScanIsUnbeaten(hp, f, 1, 0);
    var i := ForestItemsMember(f, x);
    RootIsUnbeaten(hp, f[i], x);
    NotBeatenIsTransitive(hp, x, f[i].item, f[MinIndex(hp, f)].item);
  }

  /** Removing the root at position i: its children rejoin the forest. */
  function RemoveRoot<T>(hp: Priority<T>, f: Forest<T>, i: nat): Forest<T>
    requires i < |f|
  {
    UnionForests(hp, f[..i] + f[i+1..], f[i].kids)
  }

  lemma {:induction false} RemoveRootIsGood<T(!new)>(hp: Priority<T>, f: Forest<T>, i: nat)
    requires StrictWeakOrder(hp) && i < |f|
    requires GoodForest(hp, f[..i] + f[i+1..]) && GoodForest(hp, f[i].kids)
    ensures GoodForest(hp, RemoveRoot(hp, f, i))
    ensures ForestItems(f) == ForestItems(RemoveRoot(hp, f, i)) + multiset{f[i].item}
  {
    UnionIsGood(hp, f[..i] + f[i+1..], f[i].kids);
    ForestItemsSplit(f, i);
    ForestItemsConcat(f[..i], f[i+1..]);
    RegroupItems(ForestItems(f[..i]), f[i].item, ForestItems(f[i].kids), ForestItems(f[i+1..]));
  }

  lemma {:induction false} RegroupItems<T>(a: multiset<T>, x: T, b: multiset<T>, c: multiset<T>)
    ensures a + (multiset{x} + b) + c == ((a + c) + b) + multiset{x}
  {
  }

  // ---------- Moving a value up ----------

  /** A node on the way of a moving value o: its tree t is out of date, its own item has moved on,
      and its subtrees are now `kids`. */
  ghost predicate Moving<T(!new)>(hp: Priority<T>, t: Tree<T>, kids: Forest<T>, o: T) {
    && |kids| == |t.kids|
    && (forall i :: 0 <= i < |kids| ==> GoodTree(hp, kids[i]) && Degree(kids[i]) == i && !hp(kids[i].item, t.item))
    && ForestItems(kids) + multiset{o} == Items(t)
  }

  /** Replacing a child: the items change by the difference of the two children. */
  lemma {:induction false} ReplaceChildItems<T>(p: Tree<T>, d: nat, k: Tree<T>, o: T, y: T)
    requires d < |p.kids| && Items(k) + multiset{o} == Items(p.kids[d]) + multiset{y}
    ensures ForestItems(p.kids[d := k]) + multiset{o} == ForestItems(p.kids) + multiset{y}
  {
    ForestItemsUpdate(p.kids, p.kids[d := k], d);
    Cancel(ForestItems(p.kids[d := k]), Items(p.kids[d]), ForestItems(p.kids), Items(k), multiset{o}, multiset{y});
  }

  lemma {:induction false} Cancel<T>(a: multiset<T>, b: multiset<T>, c: multiset<T>, d: multiset<T>, o: multiset<T>, y: multiset<T>)
    requires a + b == c + d && d + o == b + y
    ensures a + o == c + y
  {
    forall x
      ensures (a + o)[x] == (c + y)[x]
    {
      assert (a + b)[x] == (c + d)[x] && (d + o)[x] == (b + y)[x];
    }
  }

  lemma {:induction false} MoveDown<T(!new)>(hp: Priority<T>, p: Tree<T>, d: nat, kids: Forest<T>, o: T)
    requires StrictWeakOrder(hp) && GoodTree(hp, p) && d < |p.kids| && Moving(hp, p.kids[d], kids, o)
    ensures GoodTree(hp, Tree(p.item, kids)) && Degree(Tree(p.item, kids)) == d
  {
    forall i | 0 <= i < |kids|
      ensures !hp(kids[i].item, p.item)
    {
      NotBeatenIsTransitive(hp, kids[i].item, p.kids[d].item, p.item);
    }
  }

  lemma {:induction false} MoveUpItems<T(!new)>(hp: Priority<T>, p: Tree<T>, d: nat, kids: Forest<T>, o: T)
    requires d < |p.kids| && Moving(hp, p.kids[d], kids, o)
    ensures ForestItems(p.kids[d := Tree(p.item, kids)]) + multiset{o} == Items(p)
  {
    var k := Tree(p.item, kids);
    assert Items(k) + multiset{o} == multiset{p.item} + (ForestItems(kids) + multiset{o});
    ReplaceChildItems(p, d, k, o, p.item);
  }

  /** The parent's item moves down into a node, and o moves up into the parent. */
  lemma {:induction false} MoveUp<T(!new)>(hp: Priority<T>, p: Tree<T>, d: nat, kids: Forest<T>, o: T)
    requires StrictWeakOrder(hp) && GoodTree(hp, p) && d < |p.kids| && Moving(hp, p.kids[d], kids, o)
    ensures GoodTree(hp, Tree(p.item, kids)) && Moving(hp, p, p.kids[d := Tree(p.item, kids)], o)
  {
    MoveDown(hp, p, d, kids, o);
    MoveUpItems(hp, p, d, kids, o);
  }

  /** Tree k is tree t with the item o replaced by x. */
  ghost predicate Replaces<T>(k: Tree<T>, t: Tree<T>, o: T, x: T) {
    Degree(k) == Degree(t) && Items(k) + multiset{o} == Items(t) + multiset{x}
  }

  /** The moving value takes a node for good: the item of the node is now x. */
  lemma {:induction false} MoveEnds<T(!new)>(hp: Priority<T>, t: Tree<T>, kids: Forest<T>, o: T, x: T)
    requires StrictWeakOrder(hp) && Moving(hp, t, kids, o) && !hp(t.item, x)
    ensures GoodTree(hp, Tree(x, kids)) && Replaces(Tree(x, kids), t, o, x)
  {
    forall i | 0 <= i < |kids|
      ensures !hp(kids[i].item, x)
    {
      NotBeatenIsTransitive(hp, kids[i].item, t.item, x);
    }
    assert Items(Tree(x, kids)) + multiset{o} == multiset{x} + (ForestItems(kids) + multiset{o});
  }

  /** The change of a child shows in its parent. */
  lemma {:induction false} ReplaceInParent<T>(p: Tree<T>, d: nat, k: Tree<T>, o: T, x: T)
    requires d < |p.kids| && Replaces(k, p.kids[d], o, x)
    ensures Replaces(Tree(p.item, p.kids[d := k]), p, o, x)
  {
    var q := Tree(p.item, p.kids[d := k]);
    ReplaceChildItems(p, d, k, o, x);
    assert Items(q) + multiset{o} == multiset{p.item} + (ForestItems(q.kids) + multiset{o});
  }

  lemma {:induction false} ReplaceKeepsGood<T>(hp: Priority<T>, p: Tree<T>, d: nat, k: Tree<T>)
    requires GoodTree(hp, p) && d < |p.kids| && Degree(k) == d
    ensures GoodTree(hp, Tree(p.item, p.kids[d := k])) <==> GoodTree(hp, k) && !hp(k.item, p.item)
  {
    var q := Tree(p.item, p.kids[d := k]);
    assert q.kids[d] == k;
  }

  lemma {:induction false} RootItemsKept<T(!new)>(hp: Priority<T>, f: Forest<T>, j: nat, kids: Forest<T>, o: T)
    requires j < |f| && Moving(hp, f[j], kids, o)
    ensures ForestItems(f[j := Tree(o, kids)]) == ForestItems(f)
  {
    var g := f[j := Tree(o, kids)];
    ForestItemsUpdate(f, g, j);
    assert Items(g[j]) == Items(f[j]);
    CancelSame(ForestItems(g), ForestItems(f), Items(f[j]));
  }

  lemma {:induction false} CancelSame<T>(a: multiset<T>, b: multiset<T>, m: multiset<T>)
    requires a + m == b + m
    ensures a == b
  {
    forall x
      ensures a[x] == b[x]
    {
      assert (a + m)[x] == (b + m)[x];
    }
  }

  /** A moving value has reached a root. The forest has its old values, with this one on top of its
      tree. Without this root the forest is still good, and so are the subtrees of the root. */
  lemma {:induction false} MoveReachesRoot<T(!new)>(hp: Priority<T>, f: Forest<T>, j: nat, kids: Forest<T>, o: T)
    requires GoodForest(hp, f) && j < |f| && Moving(hp, f[j], kids, o)
    ensures ForestItems(f[j := Tree(o, kids)]) == ForestItems(f)
    ensures GoodForest(hp, f[..j] + f[j+1..]) && GoodForest(hp, kids)
  {
    RootItemsKept(hp, f, j, kids, o);
  }

  /** One tree of a good forest has been replaced. */
  lemma {:induction false} ReplaceRoot<T(!new)>(hp: Priority<T>, f: Forest<T>, j: nat, k: Tree<T>, o: T, x: T)
    requires GoodForest(hp, f) && j < |f| && Replaces(k, f[j], o, x)
    ensures ForestItems(f[j := k]) + multiset{o} == ForestItems(f) + multiset{x}
    ensures GoodForest(hp, f[j := k]) <==> GoodTree(hp, k)
  {
    ReplaceRootItems(f, j, k, o, x);
    ReplaceRootGood(hp, f, j, k);
  }

  lemma {:induction false} ReplaceRootItems<T>(f: Forest<T>, j: nat, k: Tree<T>, o: T, x: T)
    requires j < |f| && Replaces(k, f[j], o, x)
    ensures ForestItems(f[j := k]) + multiset{o} == ForestItems(f) + multiset{x}
  {
    ForestItemsUpdate(f, f[j := k], j);
    Cancel(ForestItems(f[j := k]), Items(f[j]), ForestItems(f), Items(k), multiset{o}, multiset{x});
  }

  lemma {:induction false} ReplaceRootGood<T>(hp: Priority<T>, f: Forest<T>, j: nat, k: Tree<T>)
    requires GoodForest(hp, f) && j < |f| && Degree(k) == Degree(f[j])
    ensures GoodForest(hp, f[j := k]) <==> GoodTree(hp, k)
  {
    assert f[j := k][j] == k;
  }

  lemma {:induction false} TreeItemsInForest<T>(f: Forest<T>, i: nat, x: T)
    requires i < |f| && x in Items(f[i])
    ensures x in ForestItems(f)
  {
    ForestItemsSplit(f, i);
  }

  // ---------- Heaps with a cached minimum ----------

  datatype HeapState<T> = HeapState(forest: Forest<T>, min: Option<T>)

  /** heap_init */
  function EmptyHeap<T>(): HeapState<T> {
    HeapState([], None)
  }

  ghost function Contents<T>(s: HeapState<T>): multiset<T> {
    ForestItems(s.forest) + if s.min.Some? then multiset{s.min.value} else multiset{}
  }

  ghost predicate Unbeaten<T(!new)>(hp: Priority<T>, x: T, m: multiset<T>) {
    forall y :: y in m ==> !hp(y, x)
  }

  /** The cached minimum lies outside the forest and is beaten by nothing in it. */
  ghost predicate GoodHeap<T(!new)>(hp: Priority<T>, s: HeapState<T>) {
    && GoodForest(hp, s.forest)
    && (s.min.Some? ==> Unbeaten(hp, s.min.value, ForestItems(s.forest)))
  }

  function Leaf<T>(x: T): Tree<T> {
    Tree(x, [])
  }

  lemma {:induction false} LessIsGood<T(!new)>(hp: Priority<T>, s: HeapState<T>, f: Forest<T>, x: T)
    requires GoodHeap(hp, s) && GoodForest(hp, f) && ForestItems(s.forest) == ForestItems(f) + multiset{x}
    ensures GoodHeap(hp, s.(forest := f)) && Contents(s) == Contents(s.(forest := f)) + multiset{x}
  {
    var m := if s.min.Some? then multiset{s.min.value} else multiset{};
    assert (ForestItems(f) + multiset{x}) + m == (ForestItems(f) + m) + multiset{x};
  }

  /** In a good heap, x replaces an item o of the forest that does not beat it. */
  lemma {:induction false} ReplacedIsGood<T(!new)>(hp: Priority<T>, s: HeapState<T>, f: Forest<T>, o: T, x: T)
    requires StrictWeakOrder(hp) && GoodHeap(hp, s) && o in ForestItems(s.forest)
    requires ForestItems(f) + multiset{o} == ForestItems(s.forest) + multiset{x}
    ensures Contents(s.(forest := f)) + multiset{o} == Contents(s) + multiset{x}
    ensures GoodHeap(hp, s.(forest := f)) <==>
            GoodForest(hp, f) && (s.min.None? || !hp(x, s.min.value))
  {
    var m := if s.min.Some? then multiset{s.min.value} else multiset{};
    assert (ForestItems(f) + m) + multiset{o} == (ForestItems(f) + multiset{o}) + m;
    assert (ForestItems(s.forest) + m) + multiset{x} == (ForestItems(s.forest) + multiset{x}) + m;
    ReplacedMembers(ForestItems(s.forest), ForestItems(f), o, x);
  }

  lemma {:induction false} ReplacedMembers<T>(a: multiset<T>, b: multiset<T>, o: T, x: T)
    requires o in a && b + multiset{o} == a + multiset{x}
    ensures x in b && forall y :: y in b ==> y in a || y == x
    ensures forall y :: y in a && y != o ==> y in b
  {
    forall y
      ensures b[y] + multiset{o}[y] == a[y] + multiset{x}[y]
    {
      assert (b + multiset{o})[y] == (a + multiset{x})[y];
    }
  }

  /** In a good heap, x replaces a cached minimum o that does not beat it. */
  lemma {:induction false} ReplacedMinIsGood<T(!new)>(hp: Priority<T>, f: Forest<T>, o: T, x: T)
    requires StrictWeakOrder(hp) && GoodHeap(hp, HeapState(f, Some(o))) && !hp(o, x)
    ensures GoodHeap(hp, HeapState(f, Some(x)))
    ensures Contents(HeapState(f, Some(x))) + multiset{o} == Contents(HeapState(f, Some(o))) + multiset{x}
  {
    forall y | y in ForestItems(f)
      ensures !hp(y, x)
    {
      NotBeatenIsTransitive(hp, y, o, x);
    }
  }

  /** heap_insert */
  function Insert<T>(hp: Priority<T>, s: HeapState<T>, x: T): HeapState<T> {
    if s.min.Some? && hp(x, s.min.value) then
      HeapState(UnionForests(hp, s.forest, [Leaf(s.min.value)]), Some(x))
    else
      s.(forest := UnionForests(hp, s.forest, [Leaf(x)]))
  }

  /** __uncache_min */
  function Uncache<T>(hp: Priority<T>, s: HeapState<T>): HeapState<T> {
    if s.min.Some? then Insert(hp, s.(min := None), s.min.value) else s
  }

  /** heap_union, as seen by its target */
  function Meld<T>(hp: Priority<T>, s: HeapState<T>, t: HeapState<T>): HeapState<T> {
    var target := Uncache(hp, s);
    target.(forest := UnionForests(hp, target.forest, Uncache(hp, t).forest))
  }

  /** heap_peek: the result is the cached minimum of the new state. */
  function Peek<T>(hp: Priority<T>, s: HeapState<T>): HeapState<T> {
    if s.min.Some? || s.forest == [] then s
    else
      var m := MinIndex(hp, s.forest);
      HeapState(RemoveRoot(hp, s.forest, m), Some(s.forest[m].item))
  }

  /** heap_take: the result is the cached minimum of `Peek`. */
  function Take<T>(hp: Priority<T>, s: HeapState<T>): HeapState<T> {
    Peek(hp, s).(min := None)
  }

  lemma {:induction false} LeafIsGood<T>(hp: Priority<T>, x: T)
    ensures GoodForest(hp, [Leaf(x)]) && ForestItems([Leaf(x)]) == multiset{x}
  {
    assert ForestItems([Leaf(x)]) == Items(Leaf(x)) + ForestItems([]);
  }

  lemma {:induction false} InsertIsGood<T(!new)>(hp: Priority<T>, s: HeapState<T>, x: T)
    requires StrictWeakOrder(hp) && GoodHeap(hp, s)
    ensures GoodHeap(hp, Insert(hp, s, x))
    ensures Contents(Insert(hp, s, x)) == Contents(s) + multiset{x}
    ensures s.min.None? <==> Insert(hp, s, x).min.None?
  {
    var swap := s.min.Some? && hp(x, s.min.value);
    var y := if swap then s.min.value else x;
    var f := UnionForests(hp, s.forest, [Leaf(y)]);
    LeafIsGood(hp, y);
    UnionIsGood(hp, s.forest, [Leaf(y)]);
    assert ForestItems(f) == ForestItems(s.forest) + multiset{y};
    if swap {
      NewMinIsGood(hp, s, f, x);
    }
  }

  /** A new item that beats the cached minimum takes its place. */
  lemma {:induction false} NewMinIsGood<T(!new)>(hp: Priority<T>, s: HeapState<T>, f: Forest<T>, x: T)
    requires StrictWeakOrder(hp) && GoodHeap(hp, s) && s.min.Some? && hp(x, s.min.value)
    requires GoodForest(hp, f) && ForestItems(f) == ForestItems(s.forest) + multiset{s.min.value}
    ensures GoodHeap(hp, HeapState(f, Some(x)))
  {
    forall y | y in ForestItems(f)
      ensures !hp(y, x)
    {
      NotBeatenIsTransitive(hp, y, s.min.value, x);
    }
  }

  lemma {:induction false} UncacheIsGood<T(!new)>(hp: Priority<T>, s: HeapState<T>)
    requires StrictWeakOrder(hp) && GoodHeap(hp, s)
    ensures GoodHeap(hp, Uncache(hp, s)) && Uncache(hp, s).min.None?
    ensures ForestItems(Uncache(hp, s).forest) == Contents(Uncache(hp, s)) == Contents(s)
  {
    if s.min.Some? {
      InsertIsGood(hp, s.(min := None), s.min.value);
    }
  }

  lemma {:induction false} MeldIsGood<T(!new)>(hp: Priority<T>, s: HeapState<T>, t: HeapState<T>)
    requires StrictWeakOrder(hp) && GoodHeap(hp, s) && GoodHeap(hp, t)
    ensures GoodHeap(hp, Meld(hp, s, t))
    ensures Contents(Meld(hp, s, t)) == Contents(s) + Contents(t)
  {
    UncacheIsGood(hp, s);
    UncacheIsGood(hp, t);
    UnionIsGood(hp, Uncache(hp, s).forest, Uncache(hp, t).forest);
  }

  lemma {:induction false} PeekIsGood<T(!new)>(hp: Priority<T>, s: HeapState<T>)
    requires StrictWeakOrder(hp) && GoodHeap(hp, s)
    ensures GoodHeap(hp, Peek(hp, s)) && Contents(Peek(hp, s)) == Contents(s)
    ensures Peek(hp, s).min.None? <==> Contents(s) == multiset{}
    ensures Peek(hp, s).min.Some? ==>
              Peek(hp, s).min.value in Contents(s) && Unbeaten(hp, Peek(hp, s).min.value, Contents(s))
  {
    if s.min.None? && s.forest != [] {
      var m := MinIndex(hp, s.forest);
      RestOfForestIsGood(hp, s.forest, m);
      RemoveRootIsGood(hp, s.forest, m);
      forall y | y in ForestItems(s.forest)
        ensures !hp(y, s.forest[m].item)
      {
        MinIndexIsUnbeaten(hp, s.forest, y);
      }
    }
  }

  lemma {:induction false} RestOfForestIsGood<T>(hp: Priority<T>, f: Forest<T>, i: nat)
    requires GoodForest(hp, f) && i < |f|
    ensures GoodForest(hp, f[..i] + f[i+1..]) && GoodForest(hp, f[i].kids)
  {
  }

  lemma {:induction false} TakeIsGood<T(!new)>(hp: Priority<T>, s: HeapState<T>)
    requires StrictWeakOrder(hp) && GoodHeap(hp, s)
    ensures GoodHeap(hp, Take(hp, s))
    ensures Contents(s) == multiset{} ==> Take(hp, s) == s
    ensures Contents(s) != multiset{} ==>
              var m := Peek(hp, s).min;
              m.Some? && Contents(s) == Contents(Take(hp, s)) + multiset{m.value} && Unbeaten(hp, m.value, Contents(s))
  {
    PeekIsGood(hp, s);
  }
}
