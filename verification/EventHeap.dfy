/** The heap of scheduling events: src/eheap.c and the first part of src/load.c. */
module EventHeap {
  import opened Options
  import opened BinomialForest
  import opened HeapNodes
  import opened BinomialHeap
  import opened SchedTrace

  /** What the heap demands of earlier_event, with its tie break by PID for records without a time. */
  lemma {:induction false} EarlierEventIsOrder()
    ensures StrictWeakOrder(EarlierEvent)
  {
  }

  /** The records of several files, each of which may have failed to map */
  ghost function AllRecords(files: seq<Option<seq<StRecord>>>): multiset<StRecord> {
    if files == [] then multiset{}
    else
      var last := files[|files|-1];
      AllRecords(files[..|files|-1]) + if last.None? then multiset{} else multiset(last.value)
  }

  lemma {:induction false} OneMoreFile(files: seq<Option<seq<StRecord>>>, i: nat)
    requires i <= |files|
    ensures if i == |files| then files[..i] == files
            else files[i].Some? ==> AllRecords(files[..i+1]) == AllRecords(files[..i]) + multiset(files[i].value)
  {
    if i < |files| {
      assert files[..i+1][..i] == files[..i];
    }
  }

  /** heap_init on a new heap */
  method NewHeap() returns (h: Heap<StRecord>)
    ensures fresh(h) && h.Valid(EarlierEvent) && h.Members() == {} && Contents(h.View()) == multiset{}
  {
    h := new Heap<StRecord>();
    h.EmptyIsGood(EarlierEvent);
  }

  /** The node of a record is allocated and inserted. */
  method InsertRecord(h: Heap<StRecord>, r: StRecord)
    requires h.Valid(EarlierEvent)
    modifies h, h.Members()
    ensures h.Valid(EarlierEvent) && Contents(h.View()) == old(Contents(h.View())) + multiset{r}
    ensures fresh(h.Members() - old(h.Members()))
  {
    hide GoodHeap, Contents, Insert, StrictWeakOrder, Heap.Rooted;
    EarlierEventIsOrder();
    var node := new Node<StRecord>(r);
    InsertIsGood(EarlierEvent, h.View(), r);
    h.Insert(EarlierEvent, node);
  }

  lemma {:induction false} OneMoreRecord(ev: seq<StRecord>, i: nat)
    requires i <= |ev|
    ensures if i == |ev| then ev[..i] == ev else multiset(ev[..i+1]) == multiset(ev[..i]) + multiset{ev[i]}
  {
    if i < |ev| {
      assert ev[..i+1] == ev[..i] + [ev[i]];
    }
  }

  /** heapify_events */
  method HeapifyEvents(ev: seq<StRecord>) returns (h: Heap<StRecord>)
    ensures fresh(h) && fresh(h.Members()) && h.Valid(EarlierEvent)
    ensures Contents(h.View()) == multiset(ev)
  {
    hide Heap.Valid, Heap.Intact, Heap.View, GoodHeap, Contents;
    h := NewHeap();
    var i := 0;
    while i < |ev|
      invariant 0 <= i <= |ev| && h.Valid(EarlierEvent) && fresh(h.Members())
      invariant Contents(h.View()) == multiset(ev[..i])
    {
      OneMoreRecord(ev, i);
      InsertRecord(h, ev[i]);
      i := i + 1;
    }
    OneMoreRecord(ev, i);
  }

  lemma {:induction false} NoFiles(files: seq<Option<seq<StRecord>>>)
    ensures AllRecords(files[..0]) == multiset{}
  {
  }

  /** load: the union of the files' heaps and the number of their records, or null if there is no
      file or a file could not be mapped. */
  method Load(files: seq<Option<seq<StRecord>>>) returns (h: Heap?<StRecord>, count: nat)
    ensures h == null <==> files == [] || None in files
    ensures h != null ==> && fresh(h) && fresh(h.Members()) && h.Valid(EarlierEvent)
                          && Contents(h.View()) == AllRecords(files) && count == |AllRecords(files)|
  {
    hide Heap.Valid, Heap.Intact, Heap.View, GoodHeap, Contents, AllRecords;
    NoFiles(files);
    h, count := null, 0;
    var i := 0;
    while i < |files|
      invariant 0 <= i <= |files| && None !in files[..i] && (h == null <==> i == 0)
      invariant h != null ==> fresh(h) && fresh(h.Members()) && h.Valid(EarlierEvent)
      invariant h != null ==> Contents(h.View()) == AllRecords(files[..i])
      invariant count == |AllRecords(files[..i])|
    {
      if files[i].None? {
        return null, count;
      }
      var h2 := HeapifyEvents(files[i].value);
      OneMoreFile(files, i);
      if h != null {
        UnionHeaps(h, h2);
      } else {
        h := h2;
      }
      count := count + |files[i].value|;
      i := i + 1;
    }
    OneMoreFile(files, i);
  }

  /** heap_union of two separate heaps of events */
  method UnionHeaps(h: Heap<StRecord>, h2: Heap<StRecord>)
    requires h != h2 && h.Members() !! h2.Members() && h.Valid(EarlierEvent) && h2.Valid(EarlierEvent)
    modifies h, h.Members(), h2, h2.Members()
    ensures h.Valid(EarlierEvent) && h.Members() == old(h.Members()) + old(h2.Members())
    ensures Contents(h.View()) == old(Contents(h.View())) + old(Contents(h2.View()))
  {
    EarlierEventIsOrder();
    MeldIsGood(EarlierEvent, h.View(), h2.View());
    h.Union(EarlierEvent, h2);
  }
}
