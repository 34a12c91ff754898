/** Whole runs of heap operations against plain multisets. */
module HeapRuns {
  import opened Options
  import opened BinomialForest

  /** The public operations on a collection of heaps, named by number. */
  datatype Op<T> =
    | Init(h: nat)
    | Add(h: nat, x: T)
    | Look(h: nat)
    | Pop(h: nat)
    | Absorb(h: nat, addition: nat)

  type Pool<T> = map<nat, HeapState<T>>
  type Bags<T> = map<nat, multiset<T>>

  /** What C demands of a caller: initialized heaps, and two different heaps for heap_union. */
  predicate Allowed<T, H>(pool: map<nat, H>, op: Op<T>) {
    match op
    case Init(h) => true
    case Add(h, _) => h in pool
    case Look(h) => h in pool
    case Pop(h) => h in pool
    case Absorb(h, addition) => h in pool && addition in pool && h != addition
  }

  function Step<T>(hp: Priority<T>, pool: Pool<T>, op: Op<T>): (Pool<T>, Option<T>)
    requires Allowed(pool, op)
  {
    match op
    case Init(h) => (pool[h := EmptyHeap()], None)
    case Add(h, x) => (pool[h := Insert(hp, pool[h], x)], None)
    case Look(h) => (pool[h := Peek(hp, pool[h])], Peek(hp, pool[h]).min)
    case Pop(h) => (pool[h := Take(hp, pool[h])], Peek(hp, pool[h]).min)
    case Absorb(h, addition) =>
      (pool[h := Meld(hp, pool[h], pool[addition])][addition := EmptyHeap()], None)
  }

  /** The abstract priority queue: which result and which next bags does an operation allow? */
  ghost predicate QueueStep<T(!new)>(hp: Priority<T>, bags: Bags<T>, op: Op<T>, out: Option<T>, bags': Bags<T>)
    requires Allowed(bags, op)
  {
    match op
    case Init(h) => out.None? && bags' == bags[h := multiset{}]
    case Add(h, x) => out.None? && bags' == bags[h := bags[h] + multiset{x}]
    case Look(h) => FrontOf(hp, bags[h], out) && bags' == bags
    case Pop(h) =>
      && FrontOf(hp, bags[h], out)
      && bags' == bags[h := if out.Some? then bags[h] - multiset{out.value} else bags[h]]
    case Absorb(h, addition) =>
      out.None? && bags' == bags[h := bags[h] + bags[addition]][addition := multiset{}]
  }

  /** A queue's front: an element no element beats, or nothing exactly if the queue is empty. */
  ghost predicate FrontOf<T(!new)>(hp: Priority<T>, bag: multiset<T>, out: Option<T>) {
    match out
    case None => bag == multiset{}
    case Some(x) => x in bag && Unbeaten(hp, x, bag)
  }

  ghost function BagsOf<T>(pool: Pool<T>): Bags<T> {
    map h | h in pool :: Contents(pool[h])
  }

  ghost predicate GoodPool<T(!new)>(hp: Priority<T>, pool: Pool<T>) {
    forall h :: h in pool ==> GoodHeap(hp, pool[h])
  }

  lemma {:induction false} UpdateRefines<T(!new)>(hp: Priority<T>, pool: Pool<T>, h: nat, s: HeapState<T>)
    requires GoodPool(hp, pool) && GoodHeap(hp, s)
    ensures GoodPool(hp, pool[h := s]) && BagsOf(pool[h := s]) == BagsOf(pool)[h := Contents(s)]
  {
  }

  lemma {:induction false} StepRefinesQueue<T(!new)>(hp: Priority<T>, pool: Pool<T>, op: Op<T>)
    requires StrictWeakOrder(hp) && GoodPool(hp, pool) && Allowed(pool, op)
    ensures GoodPool(hp, Step(hp, pool, op).0)
    ensures QueueStep(hp, BagsOf(pool), op, Step(hp, pool, op).1, BagsOf(Step(hp, pool, op).0))
  {
    var e: HeapState<T> := EmptyHeap();
    assert Contents(e) == multiset{} && GoodHeap(hp, e);
    match op
    case Init(h) =>
      UpdateRefines(hp, pool, h, e);
    case Add(h, x) =>
      InsertIsGood(hp, pool[h], x);
      UpdateRefines(hp, pool, h, Insert(hp, pool[h], x));
    case Look(h) =>
      LookRefines(hp, pool, h);
    case Pop(h) =>
      PopRefines(hp, pool, h);
    case Absorb(h, addition) =>
      var m := Meld(hp, pool[h], pool[addition]);
      MeldIsGood(hp, pool[h], pool[addition]);
      UpdateRefines(hp, pool, h, m);
      UpdateRefines(hp, pool[h := m], addition, e);
  }

  lemma {:induction false} LookRefines<T(!new)>(hp: Priority<T>, pool: Pool<T>, h: nat)
    requires StrictWeakOrder(hp) && GoodPool(hp, pool) && h in pool
    ensures GoodPool(hp, pool[h := Peek(hp, pool[h])])
    ensures BagsOf(pool[h := Peek(hp, pool[h])]) == BagsOf(pool)
    ensures FrontOf(hp, BagsOf(pool)[h], Peek(hp, pool[h]).min)
  {
    PeekIsGood(hp, pool[h]);
    UpdateRefines(hp, pool, h, Peek(hp, pool[h]));
  }

  lemma {:induction false} PopRefines<T(!new)>(hp: Priority<T>, pool: Pool<T>, h: nat)
    requires StrictWeakOrder(hp) && GoodPool(hp, pool) && h in pool
    ensures GoodPool(hp, Step(hp, pool, Pop(h)).0)
    ensures QueueStep(hp, BagsOf(pool), Pop(h), Step(hp, pool, Pop(h)).1, BagsOf(Step(hp, pool, Pop(h)).0))
  {
    PeekIsGood(hp, pool[h]);
    TakeIsGood(hp, pool[h]);
    UpdateRefines(hp, pool, h, Take(hp, pool[h]));
    if Contents(pool[h]) != multiset{} {
      RemoveAdded(Contents(pool[h]), Contents(Take(hp, pool[h])), Peek(hp, pool[h]).min.value);
    }
  }

  lemma {:induction false} RemoveAdded<T>(m: multiset<T>, rest: multiset<T>, x: T)
    requires m == rest + multiset{x}
    ensures rest == m - multiset{x}
  {
  }

  /** The states and results of a run. Operations that C does not allow end the run. */
  function Run<T>(hp: Priority<T>, pool: Pool<T>, ops: seq<Op<T>>): (Pool<T>, seq<Option<T>>)
    decreases |ops|
  {
    if ops == [] || !Allowed(pool, ops[0]) then (pool, [])
    else
      var (next, out) := Step(hp, pool, ops[0]);
      var (final, outs) := Run(hp, next, ops[1..]);
      (final, [out] + outs)
  }

  /** Is this run possible for plain multiset priority queues? */
  ghost predicate QueueRun<T(!new)>(hp: Priority<T>, bags: Bags<T>, ops: seq<Op<T>>, outs: seq<Option<T>>, final: Bags<T>)
    decreases |ops|
  {
    if ops == [] || !Allowed(bags, ops[0]) then outs == [] && final == bags
    else
      && outs != []
      && exists next :: QueueStep(hp, bags, ops[0], outs[0], next) && QueueRun(hp, next, ops[1..], outs[1..], final)
  }

  /** Over every interleaving of operations on any number of heaps, the heaps behave as multiset
      priority queues, however often minima are cached and uncached. */
  lemma {:induction false} RunsRefineQueues<T(!new)>(hp: Priority<T>, pool: Pool<T>, ops: seq<Op<T>>)
    requires StrictWeakOrder(hp) && GoodPool(hp, pool)
    ensures GoodPool(hp, Run(hp, pool, ops).0)
    ensures QueueRun(hp, BagsOf(pool), ops, Run(hp, pool, ops).1, BagsOf(Run(hp, pool, ops).0))
    decreases |ops|
  {
    if ops != [] && Allowed(pool, ops[0]) {
      var (next, out) := Step(hp, pool, ops[0]);
      StepRefinesQueue(hp, pool, ops[0]);
      RunsRefineQueues(hp, next, ops[1..]);
      var (final, outs) := Run(hp, next, ops[1..]);
      assert ([out] + outs)[1..] == outs;
      assert QueueStep(hp, BagsOf(pool), ops[0], out, BagsOf(next));
    }
  }

  // ---------- Draining ----------

  /** The results of heap_take until the heap is empty. */
  ghost function Drained<T(!new)>(hp: Priority<T>, s: HeapState<T>): (r: seq<T>)
    requires StrictWeakOrder(hp) && GoodHeap(hp, s)
    decreases |Contents(s)|
  {
    TakeIsGood(hp, s);
    if Contents(s) == multiset{} then [] else [Peek(hp, s).min.value] + Drained(hp, Take(hp, s))
  }

  ghost predicate InOrder<T(!new)>(hp: Priority<T>, s: seq<T>) {
    forall i, j :: 0 <= i < j < |s| ==> !hp(s[j], s[i])
  }

  /** Draining a heap sorts its contents. */
  lemma {:induction false} DrainedIsSorted<T(!new)>(hp: Priority<T>, s: HeapState<T>)
    requires StrictWeakOrder(hp) && GoodHeap(hp, s)
    ensures InOrder(hp, Drained(hp, s)) && multiset(Drained(hp, s)) == Contents(s)
    decreases |Contents(s)|
  {
    TakeIsGood(hp, s);
    if Contents(s) != multiset{} {
      DrainedIsSorted(hp, Take(hp, s));
      FrontComesFirst(hp, Peek(hp, s).min.value, Drained(hp, Take(hp, s)), Contents(s));
    }
  }

  lemma {:induction false} FrontComesFirst<T(!new)>(hp: Priority<T>, x: T, rest: seq<T>, m: multiset<T>)
    requires InOrder(hp, rest) && m == multiset(rest) + multiset{x} && Unbeaten(hp, x, m)
    ensures InOrder(hp, [x] + rest) && multiset([x] + rest) == m
  {
    forall j | 0 <= j < |rest|
      ensures !hp(rest[j], x)
    {
      assert rest[j] in multiset(rest);
    }
  }

  // ---------- A decreased value below the cached minimum ----------

  predicate Smaller(a: int, b: int) {
    a < b
  }

  lemma {:induction false} PeekAfterTwoInserts()
    ensures Peek(Smaller, Insert(Smaller, Insert(Smaller, EmptyHeap(), 5), 4)) == HeapState([Leaf(5)], Some(4))
  {
    var both := Tree(4, [Leaf(5)]);
    assert Insert(Smaller, EmptyHeap(), 5) == HeapState([Leaf(5)], None);
    assert Merge([Leaf(5)], [Leaf(4)]) == [Leaf(4), Leaf(5)] by {
      assert Merge([Leaf(5)], []) == [Leaf(5)];
    }
    assert Link(Leaf(4), Leaf(5)) == both;
    assert Carry(Smaller, [Leaf(4), Leaf(5)]) == [both] by {
      assert [both] + [Leaf(4), Leaf(5)][2..] == [both];
    }
    assert UnionForests(Smaller, [Leaf(5)], [Leaf(4)]) == [both];
    assert MinIndex(Smaller, [both]) == 0 && RemoveRoot(Smaller, [both], 0) == [Leaf(5)];
  }

  /** heap_decrease compares the node with its ancestors only. Insert 5 and 4 into an empty heap and
      peek: 4 is cached, and 5 is a lone root. If its value drops to 3, heap_decrease leaves the cache
      alone and the forest with the one value 3, as the contract of Heap.Decrease says. In every such
      state the heap is not valid and still offers 4. */
  lemma {:induction false} DecreaseMissesCachedMin(f: Forest<int>)
    requires ForestItems(f) == multiset{3}
    ensures var before := Peek(Smaller, Insert(Smaller, Insert(Smaller, EmptyHeap(), 5), 4));
            var after := before.(forest := f);
            && StrictWeakOrder(Smaller) && GoodHeap(Smaller, before) && before.min == Some(4)
            && Contents(before) == multiset{4, 5} && Contents(after) == multiset{3, 4}
            && !GoodHeap(Smaller, after) && Peek(Smaller, after).min == Some(4)
  {
    hide Insert;
    PeekAfterTwoInserts();
    LeafIsGood(Smaller, 5);
    assert 3 in ForestItems(f);
  }
}
