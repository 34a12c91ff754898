/** The task table of src/load.c and its lists with tail pointers. */
module TraceLoader {
  import opened Options
  import opened Trace
  import opened SchedTrace
  import opened BinomialForest
  import opened HeapRuns
  import opened HeapNodes
  import opened BinomialHeap
  import opened EventHeap
  import opened Demultiplexing
  import opened StreamLaws

  /** struct evlink */
  class EvLink {
    var next: EvLink?
    var rec: StRecord
    ghost var owner: EventList?  // the list of the link
    ghost var index: nat         // and its position there

    constructor (rec: StRecord)
      ensures this.rec == rec && next == null && owner == null
    {
      next, this.rec, owner, index := null, rec, null, 0;
    }
  }

  /** A null-terminated list. The C code keeps the address of the pointer to write next: that of the
      last link, or that of the list itself if there is none. */
  class EventList {
    var first: EvLink?
    var last: EvLink?
    ghost var links: seq<EvLink>

    constructor ()
      ensures Valid() && links == []
    {
      first, last, links := null, null, [];
    }

    ghost function LinkAt(i: nat): EvLink?
      reads this
    {
      if i < |links| then links[i] else null
    }

    ghost predicate Valid()
      reads this, links
    {
      && first == LinkAt(0)
      && last == (if links == [] then null else links[|links|-1])
      && (forall k {:trigger links[k].next} :: 0 <= k < |links| ==> links[k].next == LinkAt(k + 1))
      && (forall k {:trigger links[k].owner} {:trigger links[k].index} ::
            0 <= k < |links| ==> links[k].owner == this && links[k].index == k)
    }

    ghost function Records(): (rs: seq<StRecord>)
      reads this, links
      ensures |rs| == |links| && forall k :: 0 <= k < |rs| ==> rs[k] == links[k].rec
    {
      seq(|links|, k requires 0 <= k < |links| reads this, links => links[k].rec)
    }

    /** A list does not depend on anything but its links. */
    twostate lemma Untouched()
      requires old(Valid()) && unchanged(this) && forall k :: 0 <= k < |links| ==> unchanged(links[k])
      ensures Valid() && Records() == old(Records())
    {
    }

    /** Writes a link to the tail pointer. Other lists are left alone. */
    method Append(link: EvLink)
      requires Valid() && link.owner == null && link.next == null
      modifies this, link`owner, link`index, (if last == null then {} else {last})`next
      ensures Valid() && links == old(links) + [link] && last == link && Records() == old(Records()) + [link.rec]
      ensures forall l: EventList {:trigger l.Valid()} {:trigger l.Records()} ::
                old(allocated(l)) && l != this && old(l.Valid()) ==> l.Valid() && l.Records() == old(l.Records())
    {
      AppendHere(link);
      forall l: EventList | old(allocated(l)) && l != this && old(l.Valid())
        ensures l.Valid() && l.Records() == old(l.Records())
      {
        assert forall k {:trigger l.links[k]} :: 0 <= k < |l.links| ==> old(l.links[k].owner) == l;
        l.Untouched();
      }
    }

    method AppendHere(link: EvLink)
      requires Valid() && link.owner == null && link.next == null
      modifies this, link`owner, link`index, (if last == null then {} else {last})`next
      ensures Valid() && links == old(links) + [link] && last == link && Records() == old(Records()) + [link.rec]
      ensures old(last) != null ==> old(last.owner) == this
    {
      ghost var before := links;
      assert forall k {:trigger before[k]} :: 0 <= k < |before| ==> before[k].owner == this && before[k].index == k;
      if last == null {
        first := link;
      } else {
        last.next := link;
      }
      last := link;
      link.owner, link.index := this, |links|;
      links := links + [link];
    }
  }

  /** The results of heap_take until the heap is empty */
  ghost function DrainOf(h: Heap<StRecord>): seq<StRecord>
    requires h.Valid(EarlierEvent)
    reads h, h.Members(), set n | n in h.Members() && n.ref != null :: n.ref
  {
    EarlierEventIsOrder();
    Drained(EarlierEvent, h.View())
  }

  /** heap_take, and the record of the node that is taken */
  method TakeRecord(h: Heap<StRecord>) returns (r: Option<StRecord>)
    requires h.Valid(EarlierEvent)
    modifies h, h.Members()
    ensures h.Valid(EarlierEvent) && h.Members() <= old(h.Members())
    ensures old(DrainOf(h)) == (if r.Some? then [r.value] else []) + DrainOf(h)
    ensures r.None? ==> Contents(h.View()) == multiset{} && DrainOf(h) == []
  {
    EarlierEventIsOrder();
    TakeIsGood(EarlierEvent, h.View());
    PeekIsGood(EarlierEvent, h.View());
    var node := h.Take(EarlierEvent);
    r := if node == null then None else Some(node.value);
  }

  /** struct task */
  class Task {
    var pid: u16
    var noEvents: nat
    var name: Option<StRecord>
    var param: Option<StRecord>
    const events: EventList

    constructor ()
      ensures fresh(events) && events.Valid() && events.links == [] && View() == FREE
    {
      pid, noEvents, name, param := 0, 0, None, None;
      events := new EventList();
    }

    ghost function View(): Entry
      reads this, events, events.links
    {
      Entry(pid, noEvents, name, param, events.Records())
    }
  }

  /** The global variables of src/load.c */
  class TaskTable {
    const tasks: seq<Task>
    const sysEvents: EventList
    var time0: u64
    ghost var links: set<EvLink>  // of all lists

    /** The entries and their lists are separate objects. */
    ghost predicate Separate() {
      && |tasks| == MAX_TASKS
      && (forall i, j :: 0 <= i < j < MAX_TASKS ==> tasks[i] != tasks[j] && tasks[i].events != tasks[j].events)
      && (forall i :: 0 <= i < MAX_TASKS ==> tasks[i].events != sysEvents)
    }

    /** All lists */
    ghost function Lists(): set<EventList> {
      {sysEvents} + set i | 0 <= i < |tasks| :: tasks[i].events
    }

    ghost predicate HoldsAt(i: nat, e: Entry)
      requires i < |tasks|
      reads `links, tasks[i], tasks[i].events, tasks[i].events.links
    {
      ValidList(tasks[i].events) && tasks[i].View() == e
    }

    ghost predicate ValidList(l: EventList)
      reads `links, l, l.links
    {
      l.Valid() && (l.last != null ==> l.last in links)
    }

    /** The table shows entries es, and the list of system events shows sys. */
    ghost predicate Holds(es: seq<Entry>, sys: seq<StRecord>)
      reads `links, tasks, sysEvents, sysEvents.links
      reads set i | 0 <= i < |tasks| :: tasks[i].events
      reads set i, k | 0 <= i < |tasks| && 0 <= k < |tasks[i].events.links| :: tasks[i].events.links[k]
    {
      && Separate() && |es| == MAX_TASKS
      && (forall i {:trigger HoldsAt(i, es[i])} {:trigger tasks[i].events} :: 0 <= i < MAX_TASKS ==> HoldsAt(i, es[i]))
      && ValidList(sysEvents) && sysEvents.Records() == sys
    }

    /** init_tasks, on the zero-initialised global variables */
    constructor ()
      ensures Holds(Table([]), []) && time0 == 0
      ensures fresh(tasks) && fresh(Lists()) && links == {}
    {
      var all: seq<Task> := [];
      while |all| < MAX_TASKS
        invariant |all| <= MAX_TASKS && fresh(all)
        invariant forall i {:trigger all[i]} :: 0 <= i < |all| ==>
                    fresh(all[i].events) && all[i].events.Valid() && all[i].View() == FREE && all[i].events.links == []
        invariant forall i, j :: 0 <= i < j < |all| ==> all[i] != all[j] && all[i].events != all[j].events
        decreases MAX_TASKS - |all|
      {
        var t := new Task();
        all := all + [t];
      }
      tasks := all;
      sysEvents := new EventList();
      time0, links := 0, {};
    }

    /** A change of a field of one entry leaves the other entries and all lists alone. */
    twostate lemma KeepsOthers(new j: nat, new es: seq<Entry>, new now: seq<Entry>, new sys: seq<StRecord>)
      requires j < MAX_TASKS && old(Holds(es, sys)) && |now| == MAX_TASKS && unchanged(`links)
      requires forall i {:trigger tasks[i]} :: 0 <= i < MAX_TASKS ==>
                 && unchanged(tasks[i].events) && (forall k :: 0 <= k < |tasks[i].events.links| ==> unchanged(tasks[i].events.links[k]))
                 && (i != j ==> unchanged(tasks[i]) && now[i] == es[i])
      requires unchanged(sysEvents) && forall k :: 0 <= k < |sysEvents.links| ==> unchanged(sysEvents.links[k])
      requires tasks[j].View() == now[j]
      ensures Holds(now, sys)
    {
      forall i | 0 <= i < MAX_TASKS
        ensures HoldsAt(i, now[i])
      {
        assert old(HoldsAt(i, es[i]));
      }
    }

    /** A slot is allocated. */
    method SetPid(t: nat, pid: u16, ghost es: seq<Entry>, ghost sys: seq<StRecord>)
      requires t < MAX_TASKS && Holds(es, sys)
      modifies {tasks[t]}`pid
      ensures Holds(WithPid(es, t, pid), sys)
    {
      assert HoldsAt(t, es[t]);
      tasks[t].pid := pid;
      KeepsOthers(t, es, WithPid(es, t, pid), sys);
    }

    /** by_pid */
    method ByPid(pid: u16, ghost es: seq<Entry>, ghost sys: seq<StRecord>) returns (r: Option<nat>)
      requires Holds(es, sys)
      modifies tasks`pid
      ensures r == if pid == 0 then None else FindSlot(es, pid, 0)
      ensures |tasks| == MAX_TASKS
      ensures Holds(if r.Some? then WithPid(es, r.value, pid) else es, sys)
    {
      if pid == 0 {
        return None;
      }
      var t := 0;
      while t < MAX_TASKS
        invariant 0 <= t <= MAX_TASKS && FindSlot(es, pid, t) == FindSlot(es, pid, 0) && Holds(es, sys)
      {
        assert HoldsAt(t, es[t]);
        if tasks[t].pid == 0 {
          SetPid(t, pid, es, sys);
          assert HoldsAt(t, es[t].(pid := pid));
        }
        if tasks[t].pid == pid {
          assert es[t].pid == pid ==> WithPid(es, t, pid) == es;
          return Some(t);
        }
        t := t + 1;
      }
      return None;
    }

    /** Stores a record in a new link at the end of a list. */
    method AddLink(list: EventList, rec: StRecord)
      requires ValidList(list)
      modifies `links, list, links`next
      ensures ValidList(list) && list.Records() == old(list.Records()) + [rec]
      ensures forall l: EventList {:trigger ValidList(l)} ::
                old(allocated(l)) && l != list && old(ValidList(l)) ==> ValidList(l) && l.Records() == old(l.Records())
      ensures fresh(links - old(links))
    {
      hide EventList.Valid, EventList.Records;
      var link := new EvLink(rec);
      list.Append(link);
      label Appended:
      links := links + {link};
      forall l: EventList | old(allocated(l)) && l != list && old(ValidList(l))
        ensures ValidList(l) && l.Records() == old(l.Records())
      {
        assert old@Appended(l.Valid()) && old@Appended(l.Records()) == old(l.Records());
      }
    }

    /** A record joins the list of a task. */
    method AddLinkToTask(j: nat, rec: StRecord, ghost es: seq<Entry>, ghost sys: seq<StRecord>)
      requires j < MAX_TASKS && Holds(es, sys)
      modifies `links, tasks[j].events, links`next
      ensures Holds(WithEvent(es, j, rec), sys)
      ensures fresh(links - old(links))
    {
      assert forall i {:trigger tasks[i]} :: 0 <= i < MAX_TASKS ==> HoldsAt(i, es[i]);
      AddLink(tasks[j].events, rec);
      ghost var now := WithEvent(es, j, rec);
      forall i | 0 <= i < MAX_TASKS
        ensures HoldsAt(i, now[i])
      {
        assert ValidList(tasks[i].events);
      }
    }

    /** ... and is counted. */
    method AppendToTask(j: nat, rec: StRecord, ghost es: seq<Entry>, ghost sys: seq<StRecord>)
      requires j < MAX_TASKS && Holds(es, sys) && IsListed(rec)
      modifies `links, {tasks[j]}`noEvents, tasks[j].events, links`next
      ensures Holds(AddRecord(es, j, rec), sys)
      ensures fresh(links - old(links))
    {
      AddLinkToTask(j, rec, es, sys);
      label AfterLink:
      ghost var now := WithEvent(es, j, rec);
      tasks[j].noEvents := tasks[j].noEvents + 1;
      KeepsOthers@AfterLink(j, now, AddRecord(es, j, rec), sys);
    }

    /** A record joins the list of system events. */
    method AppendToSys(rec: StRecord, ghost es: seq<Entry>, ghost sys: seq<StRecord>)
      requires Holds(es, sys)
      modifies `links, sysEvents, links`next
      ensures Holds(es, sys + [rec])
      ensures fresh(links - old(links))
    {
      assert forall i {:trigger tasks[i]} :: 0 <= i < MAX_TASKS ==> HoldsAt(i, es[i]);
      AddLink(sysEvents, rec);
      forall i | 0 <= i < MAX_TASKS
        ensures HoldsAt(i, es[i])
      {
        assert ValidList(tasks[i].events);
      }
    }

    /** The records rs have been filed. */
    ghost predicate Filed(rs: seq<StRecord>)
      reads `links, tasks, sysEvents, sysEvents.links
      reads set i | 0 <= i < |tasks| :: tasks[i].events
      reads set i, k | 0 <= i < |tasks| && 0 <= k < |tasks[i].events.links| :: tasks[i].events.links[k]
    {
      Holds(Table(rs), SysEvents(rs, Slots(rs)))
    }

    /** The case distinction of split, for a record whose task has slot j */
    method FileInTask(j: nat, rec: StRecord, ghost es: seq<Entry>, ghost sys: seq<StRecord>)
      requires j < MAX_TASKS && Holds(es, sys)
      modifies `links, {tasks[j]}`noEvents, {tasks[j]}`name, {tasks[j]}`param, tasks[j].events, links`next
      ensures Holds(AddRecord(es, j, rec), sys)
      ensures fresh(links - old(links))
    {
      assert HoldsAt(j, es[j]);
      if rec.kind == ST_PARAM {
        tasks[j].param := Some(rec);
        KeepsOthers(j, es, AddRecord(es, j, rec), sys);
      } else if rec.kind == ST_NAME {
        tasks[j].name := Some(rec);
        KeepsOthers(j, es, AddRecord(es, j, rec), sys);
      } else {
        AppendToTask(j, rec, es, sys);
      }
    }

    /** One iteration of split. A name or a parameter record without a task is dropped. */
    method FileRecord(rec: StRecord, ghost rs: seq<StRecord>)
      requires Filed(rs)
      modifies `links, tasks, Lists(), links`next
      ensures Filed(rs + [rec])
      ensures fresh(links - old(links))
    {
      hide Holds, Table, SysEvents, Slots, AddRecord, WithPid;
      ghost var es, sys := Table(rs), SysEvents(rs, Slots(rs));
      TableOneMore(rs, rec);
      var t := ByPid(rec.pid, es, sys);
      if t.Some? {
        FileInTask(t.value, rec, WithPid(es, t.value, rec.pid), sys);
      } else if IsListed(rec) {
        AppendToSys(rec, es, sys);
      }
    }

    /** split's search for the first time */
    method NoteTime(rec: StRecord, findTime0: bool, ghost drained: seq<StRecord>, ghost initial: u64)
      requires time0 == if findTime0 && initial == 0 then FirstTime(drained) else initial
      modifies this`time0
      ensures time0 == if findTime0 && initial == 0 then FirstTime(drained + [rec]) else initial
    {
      assert (drained + [rec])[..|drained|] == drained;
      var time := EventTime(rec);
      if findTime0 && time0 == 0 && time != 0 {
        time0 := time;
      }
    }

    /** One iteration of split */
    method FileAndNote(rec: StRecord, findTime0: bool, ghost rs: seq<StRecord>, ghost drained: seq<StRecord>, ghost initial: u64)
      requires Filed(rs + drained)
      requires time0 == if findTime0 && initial == 0 then FirstTime(drained) else initial
      modifies this`time0, `links, tasks, Lists(), links`next
      ensures Filed(rs + (drained + [rec])) && fresh(links - old(links))
      ensures time0 == if findTime0 && initial == 0 then FirstTime(drained + [rec]) else initial
    {
      hide Holds, Table, SysEvents, Slots, FirstTime;
      NoteTime(rec, findTime0, drained, initial);
      FileRecord(rec, rs + drained);
      assert rs + drained + [rec] == rs + (drained + [rec]);
    }

    /** One iteration of split leaves a heap alone. */
    method FileBeside(h: Heap<StRecord>, rec: StRecord, findTime0: bool, ghost rs: seq<StRecord>,
                      ghost drained: seq<StRecord>, ghost initial: u64)
      requires h.Valid(EarlierEvent) && Filed(rs + drained)
      requires time0 == if findTime0 && initial == 0 then FirstTime(drained) else initial
      modifies this`time0, `links, tasks, Lists(), links`next
      ensures Filed(rs + (drained + [rec])) && fresh(links - old(links))
      ensures time0 == if findTime0 && initial == 0 then FirstTime(drained + [rec]) else initial
      ensures h.Valid(EarlierEvent) && h.Members() == old(h.Members()) && DrainOf(h) == old(DrainOf(h))
    {
      hide Filed, FirstTime, Heap.Valid, Heap.Intact, Heap.Rooted, GoodHeap;
      FileAndNote(rec, findTime0, rs, drained, initial);
      h.Untouched(EarlierEvent);
    }

    /** The table does not depend on anything but its entries, lists and links. */
    twostate lemma Untouched(new rs: seq<StRecord>)
      requires old(allocated(rs))
      requires old(Filed(rs)) && unchanged(`links) && unchanged(sysEvents)
      requires forall k :: 0 <= k < |sysEvents.links| ==> unchanged(sysEvents.links[k])
      requires forall i {:trigger tasks[i]} :: 0 <= i < MAX_TASKS ==> unchanged(tasks[i]) && unchanged(tasks[i].events)
      requires forall i, k :: 0 <= i < MAX_TASKS && 0 <= k < |tasks[i].events.links| ==> unchanged(tasks[i].events.links[k])
      ensures Filed(rs)
    {
      ghost var es := Table(rs);
      forall i | 0 <= i < MAX_TASKS
        ensures HoldsAt(i, es[i])
      {
        assert old(HoldsAt(i, es[i]));
      }
    }

    /** Taking a record from a heap leaves the table alone. */
    method TakeBeside(h: Heap<StRecord>, ghost rs: seq<StRecord>) returns (r: Option<StRecord>)
      requires h.Valid(EarlierEvent) && Filed(rs)
      modifies h, h.Members()
      ensures h.Valid(EarlierEvent) && h.Members() <= old(h.Members())
      ensures old(DrainOf(h)) == (if r.Some? then [r.value] else []) + DrainOf(h)
      ensures r.None? ==> Contents(h.View()) == multiset{} && DrainOf(h) == []
      ensures Filed(rs)
    {
      hide Heap.Valid, Heap.Intact, Heap.Rooted, GoodHeap, Contents, DrainOf, Table, SysEvents;
      r := TakeRecord(h);
      Untouched(rs);
    }

    /** split. The links are allocated one by one. */
    method Split(h: Heap<StRecord>, findTime0: bool, ghost rs: seq<StRecord>) returns (ghost drained: seq<StRecord>)
      requires h.Valid(EarlierEvent) && Filed(rs)
      modifies h, h.Members(), this`time0, `links, tasks, Lists(), links`next
      ensures h.Valid(EarlierEvent) && Contents(h.View()) == multiset{}
      ensures drained == old(DrainOf(h)) && Filed(rs + drained)
      ensures time0 == if findTime0 && old(time0) == 0 then FirstTime(drained) else old(time0)
      ensures InTraceOrder(drained) && (findTime0 && old(time0) == 0 ==> IsLeastTime(drained, time0))
    {
      hide *;
      drained := [];
      NoTimeYet();
      DrainIsTimed(h);
      ghost var all := DrainOf(h);
      var r := TakeBeside(h, rs);
      assert rs + drained == rs;
      while r.Some?
        invariant h.Valid(EarlierEvent) && h.Members() <= old(h.Members())
        invariant all == drained + (if r.Some? then [r.value] else []) + DrainOf(h)
        invariant r.None? ==> Contents(h.View()) == multiset{} && DrainOf(h) == []
        invariant Filed(rs + drained) && fresh(links - old(links))
        invariant time0 == if findTime0 && old(time0) == 0 then FirstTime(drained) else old(time0)
        decreases |all| - |drained|
      {
        FileBeside(h, r.value, findTime0, rs, drained, old(time0));
        drained := drained + [r.value];
        r := TakeBeside(h, rs + drained);
      }
    }

    lemma {:induction false} NoTimeYet()
      ensures FirstTime([]) == 0
    {
    }
  }

  /** The records that a heap gives are its contents in order. */
  lemma {:induction false} DrainIsOrdered(h: Heap<StRecord>)
    requires h.Valid(EarlierEvent)
    ensures InOrder(EarlierEvent, DrainOf(h)) && multiset(DrainOf(h)) == Contents(h.View())
  {
    EarlierEventIsOrder();
    DrainedIsSorted(EarlierEvent, h.View());
  }

  /** ... by time and PID, and the first time is the least one. */
  lemma {:induction false} DrainIsTimed(h: Heap<StRecord>)
    requires h.Valid(EarlierEvent)
    ensures InTraceOrder(DrainOf(h)) && IsLeastTime(DrainOf(h), FirstTime(DrainOf(h)))
  {
    hide Heap.Valid, Heap.Intact, Heap.Rooted, GoodHeap, DrainOf, Contents, InTraceOrder, IsLeastTime;
    DrainIsOrdered(h);
    OrderIsExact(DrainOf(h));
    FirstTimeIsExact(DrainOf(h), FirstTime(DrainOf(h)));
  }

  /** init_tasks and split */
  method SplitIntoNew(h: Heap<StRecord>) returns (table: TaskTable, ghost rs: seq<StRecord>)
    requires h.Valid(EarlierEvent)
    modifies h, h.Members()
    ensures rs == old(DrainOf(h)) && table.Filed(rs) && table.time0 == FirstTime(rs)
    ensures InTraceOrder(rs) && IsLeastTime(rs, table.time0)
  {
    hide Heap.Valid, Heap.Intact, Heap.Rooted, GoodHeap, DrainOf, FirstTime, InTraceOrder, IsLeastTime, TaskTable.Holds, Table, SysEvents, Slots;
    table := NewTable();
    rs := table.Split(h, true, []);
    assert [] + rs == rs;
  }

  /** init_tasks */
  method NewTable() returns (table: TaskTable)
    ensures fresh(table) && fresh(table.tasks) && fresh(table.Lists()) && table.links == {}
    ensures table.Filed([]) && table.time0 == 0
  {
    NothingFiled();
    table := new TaskTable();
  }

  lemma {:induction false} NothingFiled()
    ensures SysEvents([], Slots([])) == []
  {
  }

  /** The beginning of the main function of src/job_stats.c: load, init_tasks and split. The ghost
      result rs is the stream of all records in order. */
  method LoadTrace(files: seq<Option<seq<StRecord>>>) returns (table: TaskTable?, count: nat, ghost rs: seq<StRecord>)
    ensures table == null <==> files == [] || None in files
    ensures table != null ==>
              && InOrder(EarlierEvent, rs) && multiset(rs) == AllRecords(files) && count == |rs|
              && table.Filed(rs) && table.time0 == FirstTime(rs)
              && InTraceOrder(rs) && IsLeastTime(rs, table.time0)
  {
    hide Heap.Valid, Heap.Intact, Heap.Rooted, GoodHeap, DrainOf, FirstTime, InTraceOrder, IsLeastTime, TaskTable.Filed, Contents, InOrder, AllRecords;
    table, rs := null, [];
    var h;
    h, count := Load(files);
    if h != null {
      DrainIsOrdered(h);
      table, rs := SplitIntoNew(h);
      assert |rs| == |multiset(rs)|;
    }
  }
}
