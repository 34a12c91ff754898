/** The heap of include/heap.h: a root list of binomial trees and a cached minimum. */
module BinomialHeap {
  import opened Options
  import opened BinomialForest
  import opened HeapNodes
  import opened HeapBubbling
  import opened HeapCounting

  class Heap<V(!new)> {
    var head: Node?<V>
    var min: Node?<V>
    ghost var nodes: set<Node<V>>   // the nodes in the forest; the cached minimum is not among them
    ghost var roots: seq<Node<V>>   // the root list
    ghost var forest: Forest<V>     // its value-level view

    /** The root list is `roots`, and it shows `forest`. */
    ghost predicate Rooted()
      reads this, nodes
    {
      && RootList(nodes, roots)
      && head == At(roots, 0)
      && Shows(roots, forest)
    }

    /** All nodes in the heap, the cached minimum included. */
    ghost function Members(): set<Node<V>>
      reads this
    {
      nodes + if min == null then {} else {min}
    }

    /** The pointer structure is sound; nothing is said about priorities. */
    ghost predicate Intact()
      reads this, Members(), set n | n in Members() && n.ref != null :: n.ref
    {
      Rooted() && min !in nodes && HandlesFollow(Members())
    }

    ghost predicate Valid(hp: Priority<V>)
      reads this, Members(), set n | n in Members() && n.ref != null :: n.ref
    {
      Intact() && GoodHeap(hp, View())
    }

    ghost function View(): HeapState<V>
      reads this, min
    {
      HeapState(forest, if min == null then None else Some(min.value))
    }

    /** There are as many nodes as values, and the root list has a root of degree k if and only if bit k
        of their number is set. */
    lemma {:induction false} RootDegreesAreBinaryDigits(hp: Priority<V>, k: nat)
      requires Rooted() && GoodForest(hp, forest)
      ensures |nodes| == |ForestItems(forest)|
      ensures (exists i :: 0 <= i < |roots| && roots[i].degree == k) <==> Bit(|nodes|, k)
    {
      CountNodes(nodes, roots, forest);
      RootsAreBinaryDigits(hp, forest, k);
      assert forall i {:trigger roots[i]} :: 0 <= i < |roots| ==> roots[i].degree == Degree(forest[i]);
    }

    /** heap_init */
    constructor ()
      ensures Rooted() && nodes == {} && View() == EmptyHeap()
    {
      head := null;
      min := null;
      nodes, roots, forest := {}, [], [];
    }

    /** The common end of both branches of heap_insert: a single node joins the forest. */
    method AddRoot(hp: Priority<V>, x: Node<V>)
      requires Rooted() && x !in nodes
      modifies this`head, this`nodes, this`roots, this`forest
      modifies (nodes + {x})`parent, (nodes + {x})`next, (nodes + {x})`child, (nodes + {x})`degree
      modifies (nodes + {x})`kids, (nodes + {x})`tree
      ensures Rooted() && nodes == old(nodes) + {x}
      ensures forest == UnionForests(hp, old(forest), [Leaf(x.value)])
    {
      var h, r := AddNode(hp, head, x, nodes, roots, forest);
      label Linked:
      head := h;
      nodes, roots, forest := nodes + {x}, r, UnionForests(hp, forest, [Leaf(x.value)]);
      RootListFrame@Linked(nodes, r, forest);
    }

    /** The common end of __heap_extract_min and heap_delete: a root leaves the heap. */
    method TakeRoot(hp: Priority<V>, prev: Node?<V>, node: Node<V>, ghost i: nat)
      requires Rooted() && i < |roots| && node == roots[i] && prev == Last(roots, i)
      modifies this`head, this`nodes, this`roots, this`forest
      modifies nodes`parent, nodes`next, nodes`child, nodes`degree, nodes`kids, nodes`tree
      ensures Rooted() && nodes == old(nodes) - {node}
      ensures forest == RemoveRoot(hp, old(forest), i)
    {
      var h, r := TakeRootFrom(hp, head, prev, node, nodes, roots, i, forest);
      label Linked:
      head := h;
      nodes, roots, forest := nodes - {node}, r, RemoveRoot(hp, forest, i);
      RootListFrame@Linked(nodes, r, forest);
    }

    /** __heap_extract_min */
    method ExtractMin(hp: Priority<V>) returns (node: Node?<V>)
      requires Rooted()
      modifies this`head, this`nodes, this`roots, this`forest
      modifies nodes`parent, nodes`next, nodes`child, nodes`degree, nodes`kids, nodes`tree
      ensures Rooted()
      ensures old(forest) == [] ==> node == null && forest == [] && nodes == old(nodes)
      ensures old(forest) != [] ==>
                var m := MinIndex(hp, old(forest));
                && node != null && node in old(nodes) && node.value == old(forest)[m].item
                && nodes == old(nodes) - {node} && forest == RemoveRoot(hp, old(forest), m)
    {
      var prev;
      prev, node := FindMin(hp, head, roots, forest);
      if node == null {
        return null;
      }
      TakeRoot(hp, prev, node, MinIndex(hp, forest));
    }

    /** Fills the empty cache with the extracted minimum. */
    method CacheMin(hp: Priority<V>)
      requires Intact() && min == null
      modifies this, nodes`parent, nodes`next, nodes`child, nodes`degree, nodes`kids, nodes`tree
      ensures Intact() && View() == BinomialForest.Peek(hp, old(View())) && Members() == old(Members())
    {
      hide RootList, GoodForest, ForestItems;
      ghost var M := Members();
      var m := ExtractMin(hp);
      SetMin(m);
      HandlesFollowFrame(M);
    }

    /** Empties the cache, whose node leaves the heap. */
    method DropMin()
      requires Intact()
      modifies this`min, (if min == null then {} else {min})`degree
      ensures Intact() && min == null && unchanged(`nodes) && unchanged(`forest)
      ensures old(min) != null ==> old(min).degree == NOT_IN_HEAP && Members() == old(Members()) - {old(min)}
      ensures HandlesKept(old(Members()), old(HandlesOf(Members())))
    {
      var node := min;
      min := null;
      if node != null {
        node.degree := NOT_IN_HEAP;
      }
      RootListFrame(nodes, roots, forest);
    }

    method SetMin(node: Node?<V>)
      requires Rooted()
      modifies this`min
      ensures Rooted() && min == node
    {
      min := node;
      RootListFrame(nodes, roots, forest);
    }

    /** The new node takes over the cache, and the old minimum joins the forest. */
    method SwapMin(hp: Priority<V>, node: Node<V>)
      requires Rooted() && min != null && min !in nodes && node !in Members()
      modifies this
      modifies Members()`parent, Members()`next, Members()`child, Members()`degree, Members()`kids, Members()`tree
      ensures Rooted() && min == node && nodes == old(Members())
      ensures forest == UnionForests(hp, old(forest), [Leaf(old(min.value))])
    {
      AddRoot(hp, min);
      SetMin(node);
    }

    /** heap_insert */
    method Insert(hp: Priority<V>, node: Node<V>)
      requires StrictWeakOrder(hp) && Valid(hp) && node !in Members() && HandlesFollow({node})
      modifies this
      modifies (Members() + {node})`parent, (Members() + {node})`next, (Members() + {node})`child
      modifies (Members() + {node})`degree, (Members() + {node})`kids, (Members() + {node})`tree
      ensures Valid(hp) && View() == BinomialForest.Insert(hp, old(View()), node.value)
      ensures Members() == old(Members()) + {node}
    {
      hide RootList, GoodForest, ForestItems;
      InsertIsGood(hp, View(), node.value);
      ghost var M := Members() + {node};
      assert HandlesFollow(M);
      if min != null && hp(node.value, min.value) {
        SwapMin(hp, node);
      } else {
        AddRoot(hp, node);
      }
      HandlesFollowFrame(M);
      assert Members() == M;
    }

    /** heap_peek */
    method Peek(hp: Priority<V>) returns (node: Node?<V>)
      requires StrictWeakOrder(hp) && Valid(hp)
      modifies this, Members()`parent, Members()`next, Members()`child, Members()`degree, Members()`kids, Members()`tree
      ensures Valid(hp) && View() == BinomialForest.Peek(hp, old(View())) && node == min
      ensures Members() == old(Members())
    {
      hide RootList, GoodForest, ForestItems;
      PeekIsGood(hp, View());
      if min == null {
        CacheMin(hp);
      }
      node := min;
    }

    /** heap_take */
    method Take(hp: Priority<V>) returns (node: Node?<V>)
      requires StrictWeakOrder(hp) && Valid(hp)
      modifies this, Members()`parent, Members()`next, Members()`child, Members()`degree, Members()`kids, Members()`tree
      ensures Valid(hp) && View() == BinomialForest.Take(hp, old(View()))
      ensures BinomialForest.Peek(hp, old(View())).min == if node == null then None else Some(node.value)
      ensures node == null ==> Members() == old(Members())
      ensures node != null ==> node in old(Members()) && Members() == old(Members()) - {node} && node.degree == NOT_IN_HEAP
    {
      hide RootList, GoodForest, ForestItems;
      TakeIsGood(hp, View());
      if min == null {
        CacheMin(hp);
      }
      node := min;
      DropMin();
    }

    /** __uncache_min */
    method UncacheMin(hp: Priority<V>)
      requires StrictWeakOrder(hp) && Valid(hp)
      modifies this, Members()`parent, Members()`next, Members()`child, Members()`degree, Members()`kids, Members()`tree
      ensures Valid(hp) && View() == Uncache(hp, old(View())) && Members() == old(Members()) && min == null
    {
      hide RootList, GoodForest, ForestItems;
      UncacheIsGood(hp, View());
      if min != null {
        var m := min;
        min := null;
        RootListFrame(nodes, roots, forest);
        Insert(hp, m);
      }
    }

    /** heap_union */
    method Union(hp: Priority<V>, addition: Heap<V>)
      requires StrictWeakOrder(hp) && Valid(hp) && addition.Valid(hp)
      requires this != addition && Members() !! addition.Members()
      modifies this, Members()`parent, Members()`next, Members()`child, Members()`degree, Members()`kids, Members()`tree
      modifies addition, addition.Members()`parent, addition.Members()`next, addition.Members()`child
      modifies addition.Members()`degree, addition.Members()`kids, addition.Members()`tree
      ensures Valid(hp) && View() == Meld(hp, old(View()), old(addition.View()))
      ensures Members() == old(Members()) + old(addition.Members())
      ensures addition.Valid(hp) && addition.View() == EmptyHeap() && addition.Members() == {}
    {
      hide RootList, GoodForest, ForestItems;
      MeldIsGood(hp, View(), addition.View());
      UncacheBoth(hp, addition);
      JoinUncached(hp, addition);
      EmptyIsGood(hp);
    }

    method JoinUncached(hp: Priority<V>, addition: Heap<V>)
      requires Rooted() && addition.Rooted() && this != addition && nodes !! addition.nodes
      requires min == addition.min == null && HandlesFollow(nodes + addition.nodes)
      modifies this`head, this`nodes, this`roots, this`forest
      modifies addition`head, addition`nodes, addition`roots, addition`forest
      modifies nodes`parent, nodes`next, nodes`child, nodes`degree, nodes`kids, nodes`tree
      modifies addition.nodes`parent, addition.nodes`next, addition.nodes`child
      modifies addition.nodes`degree, addition.nodes`kids, addition.nodes`tree
      ensures Intact() && addition.Intact() && nodes == old(nodes) + old(addition.nodes) && addition.Members() == {}
      ensures View() == HeapState(UnionForests(hp, old(forest), old(addition.forest)), None) && addition.View() == EmptyHeap()
    {
      ghost var M := nodes + addition.nodes;
      AbsorbRoots(hp, addition);
      HandlesFollowFrame(M);
    }

    lemma {:induction false} EmptyIsGood(hp: Priority<V>)
      ensures GoodHeap(hp, EmptyHeap())
    {
    }

    method UncacheBoth(hp: Priority<V>, addition: Heap<V>)
      requires StrictWeakOrder(hp) && Valid(hp) && addition.Valid(hp)
      requires this != addition && Members() !! addition.Members()
      modifies this, Members()`parent, Members()`next, Members()`child, Members()`degree, Members()`kids, Members()`tree
      modifies addition, addition.Members()`parent, addition.Members()`next, addition.Members()`child
      modifies addition.Members()`degree, addition.Members()`kids, addition.Members()`tree
      ensures Rooted() && addition.Rooted() && HandlesFollow(nodes + addition.nodes)
      ensures View() == Uncache(hp, old(View())) && addition.View() == Uncache(hp, old(addition.View()))
      ensures min == addition.min == null && nodes == old(Members()) && addition.nodes == old(addition.Members())
    {
      hide RootList, GoodForest, ForestItems;
      UncacheIsGood(hp, View());
      UncacheIsGood(hp, addition.View());
      UncacheBeside(hp, addition);
      addition.UncacheBeside(hp, this);
    }

    /** Uncaching leaves a separate heap alone. */
    method UncacheBeside(hp: Priority<V>, other: Heap<V>)
      requires StrictWeakOrder(hp) && Valid(hp) && other.Valid(hp)
      requires this != other && Members() !! other.Members()
      modifies this, Members()`parent, Members()`next, Members()`child, Members()`degree, Members()`kids, Members()`tree
      ensures Valid(hp) && View() == Uncache(hp, old(View())) && Members() == old(Members()) && min == null
      ensures other.Valid(hp) && other.View() == old(other.View()) && other.Members() == old(other.Members())
      ensures unchanged(other)
    {
      UncacheMin(hp);
      other.Untouched(hp);
    }

    /** A heap does not depend on anything but its nodes and their handles. */
    twostate lemma Untouched(new hp: Priority<V>)
      requires old(allocated(hp))
      requires old(Valid(hp)) && unchanged(this)
      requires forall n :: n in nodes || n == min ==> unchanged(n)
      requires forall n :: (n in nodes || n == min) && n.ref != null ==> unchanged(n.ref)
      ensures Valid(hp) && View() == old(View()) && Members() == old(Members())
    {
      RootListFrame(nodes, roots, forest);
    }

    /** The forest of another heap joins this one. */
    method AbsorbRoots(hp: Priority<V>, addition: Heap<V>)
      requires Rooted() && addition.Rooted() && this != addition && nodes !! addition.nodes
      modifies this`head, this`nodes, this`roots, this`forest
      modifies addition`head, addition`nodes, addition`roots, addition`forest
      modifies nodes`parent, nodes`next, nodes`child, nodes`degree, nodes`kids, nodes`tree
      modifies addition.nodes`parent, addition.nodes`next, addition.nodes`child
      modifies addition.nodes`degree, addition.nodes`kids, addition.nodes`tree
      ensures Rooted() && nodes == old(nodes) + old(addition.nodes)
      ensures forest == UnionForests(hp, old(forest), old(addition.forest))
      ensures addition.Rooted() && addition.nodes == {} && addition.forest == []
    {
      var h, r := JoinForests(hp, head, addition.head, nodes, addition.nodes, roots, addition.roots, forest, addition.forest);
      label Linked:
      head := h;
      addition.head := null;
      nodes, roots, forest := nodes + addition.nodes, r, UnionForests(hp, forest, addition.forest);
      addition.nodes, addition.roots, addition.forest := {}, [], [];
      RootListFrame@Linked(nodes, roots, forest);
      EmptyRootList(addition.nodes, addition.roots, addition.forest);
    }

    /** The search of heap_delete for the predecessor of a root. */
    method FindRoot(node: Node<V>, ghost j: nat) returns (prev: Node?<V>)
      requires Rooted() && j < |roots| && node == roots[j]
      ensures prev == Last(roots, j)
    {
      prev := null;
      var pos := head;
      ghost var i := 0;
      while pos != node
        invariant i <= j && pos == At(roots, i) && prev == Last(roots, i)
        decreases j - i
      {
        prev := pos;
        pos := pos.next;
        i := i + 1;
      }
      assert i == j;
    }

    /** heap_delete for a node in the forest: its value moves to the root, and the root leaves. */
    method DeleteFromForest(hp: Priority<V>, node0: Node<V>, ghost H: set<Handle<V>>, ghost values: map<Handle<V>, V>)
      returns (node: Node<V>)
      requires StrictWeakOrder(hp) && Rooted() && GoodForest(hp, forest) && node0 in nodes && node0.ref != null
      requires Tracked(nodes, H) && LeadsTo(H, values)
      modifies this`head, this`nodes, this`roots, this`forest, nodes, H
      ensures Rooted() && GoodForest(hp, forest) && nodes == old(nodes) - {node} && node in old(nodes)
      ensures node.ref == old(node0.ref) && node.value == old(node0.value) && node.degree == NOT_IN_HEAP
      ensures Tracked(old(nodes), H) && LeadsTo(H, values)
      ensures old(ForestItems(forest)) == ForestItems(forest) + multiset{node.value}
    {
      hide RootList, GoodForest, ForestItems;
      ghost var j, g;
      ghost var N := nodes;
      node, j, g := LiftToRoot(hp, node0, N, roots, forest, H, values);
      label Lifted:
      forest := g;
      RootListFrame@Lifted(N, roots, forest);
      DetachRoot(hp, node, j, H, values);
    }

    lemma {:induction false} RootIsNode(j: nat)
      requires Rooted() && j < |roots|
      ensures roots[j] in nodes
    {
    }

    method DetachRoot(hp: Priority<V>, node: Node<V>, ghost j: nat, ghost H: set<Handle<V>>, ghost values: map<Handle<V>, V>)
      requires StrictWeakOrder(hp) && Rooted() && j < |roots| && node == roots[j]
      requires GoodForest(hp, forest[..j] + forest[j+1..]) && GoodForest(hp, forest[j].kids)
      requires Tracked(nodes, H) && LeadsTo(H, values)
      modifies this`head, this`nodes, this`roots, this`forest
      modifies nodes`parent, nodes`next, nodes`child, nodes`degree, nodes`kids, nodes`tree
      ensures Rooted() && GoodForest(hp, forest) && nodes == old(nodes) - {node} && node in old(nodes)
      ensures old(ForestItems(forest)) == ForestItems(forest) + multiset{old(forest[j].item)}
      ensures Tracked(old(nodes), H) && LeadsTo(H, values) && node.degree == NOT_IN_HEAP
    {
      hide RootList, GoodForest, ForestItems;
      RemoveRootIsGood(hp, forest, j);
      RootIsNode(j);
      ghost var N := nodes;
      var prev := FindRoot(node, j);
      TakeRoot(hp, prev, node, j);
      label Taken:
      node.degree := NOT_IN_HEAP;
      RootListFrame@Taken(nodes, roots, forest);
      HandlesFrame(N, H, values);
    }

    /** The node that the handle now leads to holds the value v and has left the heap, and no other
        node has. */
    ghost predicate Gone(before: set<Node<V>>, handle: Handle<V>, v: V)
      reads this, handle, handle.node
    {
      && handle.node != null && handle.node in before && Members() == before - {handle.node}
      && handle.node.value == v && handle.node.degree == NOT_IN_HEAP
    }

    /** heap_delete */
    method Delete(hp: Priority<V>, node: Node<V>)
      requires StrictWeakOrder(hp) && Valid(hp) && node in Members()
      modifies this, Members(), HandlesOf(Members())
      ensures Valid(hp) && HandlesKept(old(Members()), old(HandlesOf(Members())))
      ensures old(node.ref) == null ==> View() == old(View()) && Members() == old(Members())
      ensures old(node.ref) != null ==>
                && old(Contents(View())) == Contents(View()) + multiset{old(node.value)}
                && Gone(old(Members()), old(node.ref), old(node.value))
    {
      if node.ref == null {
        return;
      }
      if min != node {
        DeleteBelowMin(hp, node);
      } else {
        DeleteMin(hp);
      }
    }

    method DeleteMin(hp: Priority<V>)
      requires StrictWeakOrder(hp) && Valid(hp) && min != null
      modifies this`min, min`degree
      ensures Valid(hp) && old(Contents(View())) == Contents(View()) + multiset{old(min.value)}
      ensures HandlesKept(old(Members()), old(HandlesOf(Members())))
      ensures old(min.ref) != null ==> Gone(old(Members()), old(min.ref), old(min.value))
    {
      DropMin();
      assert Contents(View()) == ForestItems(forest);
    }

    method DeleteBelowMin(hp: Priority<V>, node: Node<V>)
      requires StrictWeakOrder(hp) && Valid(hp) && node in nodes && node.ref != null
      modifies this`head, this`nodes, this`roots, this`forest, nodes, HandlesOf(nodes)
      ensures Valid(hp) && old(Contents(View())) == Contents(View()) + multiset{old(node.value)}
      ensures HandlesKept(old(Members()), old(HandlesOf(Members())))
      ensures Gone(old(Members()), old(node.ref), old(node.value))
    {
      DeleteKeepsLinks(hp, node);
      LessIsGood(hp, old(View()), forest, old(node.value));
      assert View() == old(View()).(forest := forest);
    }

    method DeleteKeepsLinks(hp: Priority<V>, node0: Node<V>)
      requires StrictWeakOrder(hp) && Intact() && GoodForest(hp, forest) && node0 in nodes && node0.ref != null
      modifies this`head, this`nodes, this`roots, this`forest, nodes, HandlesOf(nodes)
      ensures Intact() && GoodForest(hp, forest)
      ensures old(ForestItems(forest)) == ForestItems(forest) + multiset{old(node0.value)}
      ensures HandlesKept(old(Members()), old(HandlesOf(Members())))
      ensures Gone(old(Members()), old(node0.ref), old(node0.value))
    {
      hide RootList, GoodForest, ForestItems;
      ghost var N, H := nodes, HandlesOf(nodes);
      ghost var values := ValuesOf(H);
      AllTracked(nodes);
      var node := DeleteFromForest(hp, node0, H, values);
      TrackedAreKept(N, H, values);
    }

    // ---------- Decreasing ----------

    /** The heap as it was before the value of the node changed from o. */
    ghost function Before(node: Node<V>, o: V): HeapState<V>
      reads this, min
    {
      HeapState(forest, if min == null then None else Some(if min == node then o else min.value))
    }

    /** What heap_decrease expects: in a valid heap, the value of one node has changed from o to one
        that o does not beat. */
    ghost predicate Changed(hp: Priority<V>, node: Node<V>, o: V)
      reads this, Members(), set n | n in Members() && n.ref != null :: n.ref
    {
      && node in Members() && !hp(o, node.value)
      && min !in nodes && HandlesFollow(Members())
      && RootsOf(nodes, roots) && IsList(roots) && head == At(roots, 0) && Shows(roots, forest)
      && GoodHeap(hp, Before(node, o))
      && if node == min then Linked(nodes) && TreesMatch(nodes) else OutOfDateAt(nodes, node, o)
    }

    /** The caller's change of a value. */
    method ChangeValue(hp: Priority<V>, node: Node<V>, v: V)
      requires Valid(hp) && node in Members() && !hp(node.value, v)
      modifies node`value
      ensures node.value == v && Changed(hp, node, old(node.value))
      ensures Before(node, old(node.value)) == old(View())
    {
      node.value := v;
    }

    /** Is heap_decrease enough to make the heap valid again? A node without a reference stays where
        it is, and nothing is ever compared with a cached minimum in another node. */
    ghost predicate DecreaseSuffices(hp: Priority<V>, node: Node<V>)
      reads this, node, min, node.parent
    {
      || node == min
      || (&& (node.ref != null || node.parent == null || !hp(node.value, node.parent.value))
          && (min == null || !hp(node.value, min.value)))
    }

    /** heap_decrease */
    method Decrease(hp: Priority<V>, node: Node<V>, ghost o: V)
      requires StrictWeakOrder(hp) && Changed(hp, node, o)
      modifies this`forest, nodes`value, nodes`ref, nodes`tree, HandlesOf(nodes)
      ensures Intact() && HandlesKept(old(Members()), old(HandlesOf(Members())))
      ensures Contents(View()) + multiset{o} == Contents(old(Before(node, o))) + multiset{old(node.value)}
      ensures Valid(hp) <==> old(DecreaseSuffices(hp, node))
    {
      hide Linked, TreesMatch, IsList, Shows, RootsOf, GoodForest, ForestItems;
      if min == node {
        ReplacedMinIsGood(hp, forest, o, node.value);
        return;
      }
      DecreaseBelowMin(hp, node, o);
      ReplacedIsGood(hp, old(Before(node, o)), forest, o, old(node.value));
      assert View() == old(Before(node, o)).(forest := forest);
    }

    method DecreaseBelowMin(hp: Priority<V>, node: Node<V>, ghost o: V)
      requires StrictWeakOrder(hp) && Changed(hp, node, o) && min != node
      modifies this`forest, nodes`value, nodes`ref, nodes`tree, HandlesOf(nodes)
      ensures Intact() && HandlesKept(old(Members()), old(HandlesOf(Members())))
      ensures ForestItems(forest) + multiset{o} == old(ForestItems(forest)) + multiset{old(node.value)}
      ensures o in old(ForestItems(forest))
      ensures GoodForest(hp, forest) <==>
              old(node.ref != null || node.parent == null || !hp(node.value, node.parent.value))
    {
      hide RootList, GoodForest, ForestItems;
      ghost var N, H := nodes, HandlesOf(nodes);
      ghost var values := ValuesOf(H);
      AllTracked(nodes);
      NodeItemsInForest(nodes, roots, forest, node, o, node, o, nodes);
      DecreaseInForest(hp, node, o, H, values);
      TrackedAreKept(N, H, values);
    }

    method DecreaseInForest(hp: Priority<V>, node: Node<V>, ghost o: V, ghost H: set<Handle<V>>, ghost values: map<Handle<V>, V>)
      requires StrictWeakOrder(hp) && OutOfDateAt(nodes, node, o) && !hp(o, node.value)
      requires RootsOf(nodes, roots) && IsList(roots) && head == At(roots, 0) && Shows(roots, forest)
      requires GoodForest(hp, forest) && Tracked(nodes, H) && LeadsTo(H, values)
      modifies this`forest, nodes`value, nodes`ref, nodes`tree, H
      ensures Rooted() && Tracked(nodes, H) && LeadsTo(H, values)
      ensures ForestItems(forest) + multiset{o} == old(ForestItems(forest)) + multiset{old(node.value)}
      ensures GoodForest(hp, forest) <==>
              old(node.ref != null || node.parent == null || !hp(node.value, node.parent.value))
    {
      ghost var N := nodes;
      ghost var g := DecreaseValue(hp, node, N, roots, forest, H, values, o);
      label Moved:
      forest := g;
      RootListFrame@Moved(N, roots, forest);
      HandlesFrame@Moved(N, H, values);
    }
  }
}
