/** What src/load.c makes of a stream of scheduling events: per-task lists, as functions of the
    stream. */
module Demultiplexing {
  import opened Options
  import opened Trace
  import opened SchedTrace
  import opened Selections
  import opened HeapRuns

  const MAX_TASKS: nat := 512

  // ---------- The task table ----------

  /** A PID takes the first free slot when it first appears. */
  function Allocate(slots: seq<u16>, pid: u16): (r: seq<u16>)
    ensures slots <= r
  {
    if pid == 0 || pid in slots || |slots| >= MAX_TASKS then slots else slots + [pid]
  }

  /** The PIDs that have a slot after the records rs */
  function Slots(rs: seq<StRecord>): seq<u16> {
    if rs == [] then [] else Allocate(Slots(rs[..|rs|-1]), rs[|rs|-1].pid)
  }

  /** The distinct PIDs in order of their first appearance, PID 0 excluded */
  function Pids(rs: seq<StRecord>): seq<u16> {
    if rs == [] then []
    else
      var pids, pid := Pids(rs[..|rs|-1]), rs[|rs|-1].pid;
      if pid == 0 || pid in pids then pids else pids + [pid]
  }

  /** Pids are the nonzero PIDs of the records, each once. */
  lemma {:induction false} PidsAreDistinct(rs: seq<StRecord>)
    ensures forall i, j :: 0 <= i < j < |Pids(rs)| ==> Pids(rs)[i] != Pids(rs)[j]
    decreases |rs|
  {
    if rs != [] {
      PidsAreDistinct(rs[..|rs|-1]);
    }
  }

  lemma {:induction false} PidsOccur(rs: seq<StRecord>, pid: u16)
    ensures pid in Pids(rs) <==> pid != 0 && exists k :: 0 <= k < |rs| && rs[k].pid == pid
    decreases |rs|
  {
    if rs != [] {
      var before, r := rs[..|rs|-1], rs[|rs|-1];
      PidsOccur(before, pid);
      assert rs == before + [r] && rs[|rs|-1].pid == r.pid;
    }
  }

  lemma {:induction false} SlotsArePrefix(rs: seq<StRecord>)
    ensures Slots(rs) == if |Pids(rs)| <= MAX_TASKS then Pids(rs) else Pids(rs)[..MAX_TASKS]
    decreases |rs|
  {
    if rs != [] {
      SlotsArePrefix(rs[..|rs|-1]);
    }
  }

  /** The used slots are a prefix of the table: the first distinct PIDs, each once. */
  lemma {:induction false} SlotsAreFirstPids(rs: seq<StRecord>)
    ensures Slots(rs) == if |Pids(rs)| <= MAX_TASKS then Pids(rs) else Pids(rs)[..MAX_TASKS]
    ensures forall i, j :: 0 <= i < j < |Pids(rs)| ==> Pids(rs)[i] != Pids(rs)[j]
    ensures forall pid :: pid in Pids(rs) <==> pid != 0 && exists k :: 0 <= k < |rs| && rs[k].pid == pid
  {
    SlotsArePrefix(rs);
    PidsAreDistinct(rs);
    forall pid
      ensures pid in Pids(rs) <==> pid != 0 && exists k :: 0 <= k < |rs| && rs[k].pid == pid
    {
      PidsOccur(rs, pid);
    }
  }

  // ---------- The lists ----------

  /** Names and parameters are kept per task; every other record becomes a link of a list. */
  predicate IsListed(r: StRecord) {
    r.kind != ST_PARAM && r.kind != ST_NAME
  }

  /** The records in the list of a task */
  function EventsOf(rs: seq<StRecord>, pid: u16): seq<StRecord> {
    Select(rs, (r: StRecord) => IsListed(r) && r.pid == pid)
  }

  /** The records in the list of system events, if slots has the PIDs of the tasks */
  function SysEvents(rs: seq<StRecord>, slots: seq<u16>): seq<StRecord> {
    Select(rs, (r: StRecord) => IsListed(r) && r.pid !in slots)
  }

  /** The last record of a kind and a task */
  function LastOf(rs: seq<StRecord>, pid: u16, kind: u8): Option<StRecord> {
    if rs == [] then None
    else if rs[|rs|-1].pid == pid && rs[|rs|-1].kind == kind then Some(rs[|rs|-1])
    else LastOf(rs[..|rs|-1], pid, kind)
  }

  /** The entry of the task table for slot i */
  datatype Entry = Entry(pid: u16, noEvents: nat, name: Option<StRecord>, param: Option<StRecord>, events: seq<StRecord>)

  const FREE := Entry(0, 0, None, None, [])

  function EntryAt(rs: seq<StRecord>, slots: seq<u16>, i: nat): Entry {
    if i < |slots| then
      var pid := slots[i];
      Entry(pid, |EventsOf(rs, pid)|, LastOf(rs, pid, ST_NAME), LastOf(rs, pid, ST_PARAM), EventsOf(rs, pid))
    else FREE
  }

  /** An entry after a record of its task */
  function WithRecord(e: Entry, r: StRecord): Entry {
    if r.kind == ST_PARAM then e.(param := Some(r))
    else if r.kind == ST_NAME then e.(name := Some(r))
    else e.(noEvents := e.noEvents + 1, events := e.events + [r])
  }

  // ---------- Every record is in one list ----------

  /** The records in the lists of the tasks with a slot */
  ghost function InTaskLists(rs: seq<StRecord>, slots: seq<u16>): multiset<StRecord> {
    if slots == [] then multiset{}
    else InTaskLists(rs, slots[..|slots|-1]) + multiset(EventsOf(rs, slots[|slots|-1]))
  }

  /** The lists share out the listed records: each is in exactly one of them. */
  lemma {:induction false} ListsShareOut(rs: seq<StRecord>, slots: seq<u16>)
    requires forall i, j :: 0 <= i < j < |slots| ==> slots[i] != slots[j]
    ensures multiset(Select(rs, IsListed)) == multiset(SysEvents(rs, slots)) + InTaskLists(rs, slots)
    decreases |slots|
  {
    if slots == [] {
      SelectSame(rs, IsListed, (r: StRecord) => IsListed(r) && r.pid !in slots);
    } else {
      var fewer, pid := slots[..|slots|-1], slots[|slots|-1];
      ListsShareOut(rs, fewer);
      assert slots == fewer + [pid];
      OneListMore(rs, fewer, pid);
    }
  }

  lemma {:induction false} OneListMore(rs: seq<StRecord>, slots: seq<u16>, pid: u16)
    requires pid !in slots
    ensures multiset(SysEvents(rs, slots)) == multiset(SysEvents(rs, slots + [pid])) + multiset(EventsOf(rs, pid))
  {
    SelectSplits(rs, (r: StRecord) => IsListed(r) && r.pid !in slots,
                     (r: StRecord) => IsListed(r) && r.pid !in slots + [pid],
                     (r: StRecord) => IsListed(r) && r.pid == pid);
  }

  /** A list keeps the order of the stream. */
  lemma {:induction false} ListIsInOrder(rs: seq<StRecord>, f: StRecord -> bool)
    requires InOrder(EarlierEvent, rs)
    ensures InOrder(EarlierEvent, Select(rs, f))
  {
    if rs != [] {
      ListIsInOrder(rs[1..], f);
      var rest := Select(rs[1..], f);
      forall j | 0 <= j < |rest|
        ensures !EarlierEvent(rest[j], rs[0])
      {
        var k := SelectedFrom(rs[1..], f, j);
        assert rs[1..][k] == rs[k+1];
      }
    }
  }

  lemma {:induction false} SelectedFrom(rs: seq<StRecord>, f: StRecord -> bool, j: nat) returns (k: nat)
    requires j < |Select(rs, f)|
    ensures k < |rs| && rs[k] == Select(rs, f)[j]
  {
    if f(rs[0]) && j == 0 {
      k := 0;
    } else {
      k := SelectedFrom(rs[1..], f, if f(rs[0]) then j - 1 else j);
      k := k + 1;
    }
  }

  // ---------- The first time ----------

  /** The first nonzero time of the stream, or 0 */
  function FirstTime(rs: seq<StRecord>): u64 {
    if rs == [] then 0
    else if FirstTime(rs[..|rs|-1]) != 0 then FirstTime(rs[..|rs|-1])
    else EventTime(rs[|rs|-1])
  }

  /** In an ordered stream, the first nonzero time is the least one. */
  lemma {:induction false} FirstTimeIsLeast(rs: seq<StRecord>)
    requires InOrder(EarlierEvent, rs)
    ensures FirstTime(rs) != 0 ==> exists k :: 0 <= k < |rs| && EventTime(rs[k]) == FirstTime(rs)
    ensures forall k :: 0 <= k < |rs| && EventTime(rs[k]) != 0 ==> 0 < FirstTime(rs) <= EventTime(rs[k])
    decreases |rs|
  {
    if rs != [] {
      var before := rs[..|rs|-1];
      FirstTimeIsLeast(before);
      assert forall k :: 0 <= k < |before| ==> rs[k] == before[k];
      if FirstTime(before) != 0 {
        var k :| 0 <= k < |before| && EventTime(before[k]) == FirstTime(before);
        assert !EarlierEvent(rs[|rs|-1], rs[k]);
      }
    }
  }

  // ---------- One record more ----------

  lemma {:induction false} SlotsOneMore(rs: seq<StRecord>, r: StRecord)
    ensures Slots(rs + [r]) == Allocate(Slots(rs), r.pid)
  {
    assert (rs + [r])[..|rs|] == rs;
  }

  /** Before the table is full, only records without a PID are not in it. */
  lemma {:induction false} NotYetFull(rs: seq<StRecord>)
    ensures forall k :: 0 <= k < |rs| ==> rs[k].pid == 0 || rs[k].pid in Slots(rs) || |Slots(rs)| >= MAX_TASKS
    decreases |rs|
  {
    if rs != [] {
      NotYetFull(rs[..|rs|-1]);
      assert forall k :: 0 <= k < |rs| - 1 ==> rs[k] == rs[..|rs|-1][k];
    }
  }

  lemma {:induction false} SlotsAreDistinct(rs: seq<StRecord>)
    ensures |Slots(rs)| <= MAX_TASKS && 0 !in Slots(rs)
    ensures forall i, j :: 0 <= i < j < |Slots(rs)| ==> Slots(rs)[i] != Slots(rs)[j]
    decreases |rs|
  {
    if rs != [] {
      SlotsAreDistinct(rs[..|rs|-1]);
    }
  }

  /** A PID that has just got a slot has no records yet. */
  lemma {:induction false} NewSlotIsFree(rs: seq<StRecord>, pid: u16)
    requires pid != 0 && pid !in Slots(rs) && |Slots(rs)| < MAX_TASKS
    ensures EntryAt(rs, [pid], 0) == FREE.(pid := pid)
    ensures SysEvents(rs, Slots(rs) + [pid]) == SysEvents(rs, Slots(rs))
  {
    NotYetFull(rs);
    SelectNothing(rs, (r: StRecord) => IsListed(r) && r.pid == pid);
    NoneOf(rs, pid, ST_NAME);
    NoneOf(rs, pid, ST_PARAM);
    SelectSame(rs, (r: StRecord) => IsListed(r) && r.pid !in Slots(rs) + [pid],
                   (r: StRecord) => IsListed(r) && r.pid !in Slots(rs));
  }

  lemma {:induction false} NoneOf(rs: seq<StRecord>, pid: u16, kind: u8)
    requires forall k :: 0 <= k < |rs| ==> rs[k].pid != pid
    ensures LastOf(rs, pid, kind) == None
    decreases |rs|
  {
    if rs != [] {
      NoneOf(rs[..|rs|-1], pid, kind);
    }
  }

  /** The table after one record more: its task's entry has the record, the other ones are the same. */
  lemma {:induction false} EntryOneMore(rs: seq<StRecord>, r: StRecord, i: nat)
    ensures var old', now := Slots(rs), Slots(rs + [r]);
            EntryAt(rs + [r], now, i) ==
              if i < |now| && now[i] == r.pid then
                WithRecord(if i < |old'| then EntryAt(rs, old', i) else FREE.(pid := r.pid), r)
              else EntryAt(rs, old', i)
  {
    SlotsOneMore(rs, r);
    var now := Slots(rs + [r]);
    if i < |now| {
      var pid := now[i];
      SelectOneMore(rs, r, (x: StRecord) => IsListed(x) && x.pid == pid);
      assert (rs + [r])[..|rs|] == rs;
      if i >= |Slots(rs)| {
        NewSlotIsFree(rs, pid);
      }
    }
  }

  lemma {:induction false} SysOneMore(rs: seq<StRecord>, r: StRecord)
    ensures var old', now := Slots(rs), Slots(rs + [r]);
            SysEvents(rs + [r], now) ==
              if IsListed(r) && r.pid !in now then SysEvents(rs, old') + [r] else SysEvents(rs, old')
  {
    SlotsOneMore(rs, r);
    var now := Slots(rs + [r]);
    SelectOneMore(rs, r, (x: StRecord) => IsListed(x) && x.pid !in now);
    if now != Slots(rs) {
      NewSlotIsFree(rs, r.pid);
    }
  }

  // ---------- The table as a whole ----------

  function Table(rs: seq<StRecord>): (es: seq<Entry>)
    ensures |es| == MAX_TASKS
  {
    seq(MAX_TASKS, i requires 0 <= i < MAX_TASKS => EntryAt(rs, Slots(rs), i))
  }

  /** The table with a PID in slot j */
  function WithPid(es: seq<Entry>, j: nat, pid: u16): (r: seq<Entry>)
    requires j < |es|
    ensures |r| == |es|
  {
    es[j := es[j].(pid := pid)]
  }

  /** The table with a record more in the entry of slot j */
  function AddRecord(es: seq<Entry>, j: nat, r: StRecord): (r': seq<Entry>)
    requires j < |es|
    ensures |r'| == |es|
  {
    es[j := WithRecord(es[j], r)]
  }

  /** ... as far as the list is concerned */
  function WithEvent(es: seq<Entry>, j: nat, r: StRecord): (r': seq<Entry>)
    requires j < |es|
    ensures |r'| == |es|
  {
    es[j := es[j].(events := es[j].events + [r])]
  }

  /** by_pid from slot i on: the first slot that is free or has the PID */
  function FindSlot(es: seq<Entry>, pid: u16, i: nat): (r: Option<nat>)
    requires i <= |es|
    ensures r.Some? ==> i <= r.value < |es|
    decreases |es| - i
  {
    if i == |es| then None
    else if es[i].pid == 0 || es[i].pid == pid then Some(i)
    else FindSlot(es, pid, i + 1)
  }

  lemma {:induction false} FindSlotIs(es: seq<Entry>, pid: u16, i: nat, j: nat)
    requires i <= j <= |es| && forall k :: i <= k < j ==> es[k].pid != 0 && es[k].pid != pid
    requires j < |es| ==> es[j].pid == 0 || es[j].pid == pid
    ensures FindSlot(es, pid, i) == if j < |es| then Some(j) else None
    decreases j - i
  {
    if i < j {
      FindSlotIs(es, pid, i + 1, j);
    }
  }

  /** by_pid finds the slot that the PID has from now on. */
  lemma {:induction false} FindSlotFinds(rs: seq<StRecord>, pid: u16)
    requires pid != 0
    ensures var r, now := FindSlot(Table(rs), pid, 0), Allocate(Slots(rs), pid);
            if r.Some? then r.value < |now| && now[r.value] == pid else pid !in now
    ensures forall i, j :: 0 <= i < j < |Allocate(Slots(rs), pid)| ==> Allocate(Slots(rs), pid)[i] != Allocate(Slots(rs), pid)[j]
  {
    SlotsAreDistinct(rs);
    var slots, now := Slots(rs), Allocate(Slots(rs), pid);
    if pid in now {
      var j :| 0 <= j < |now| && now[j] == pid;
      assert forall k :: 0 <= k < j ==> now[k] == slots[k] && slots[k] in slots && slots[k] != pid;
      FindSlotIs(Table(rs), pid, 0, j);
    } else {
      assert forall k :: 0 <= k < |slots| ==> slots[k] in slots && slots[k] != pid;
      FindSlotIs(Table(rs), pid, 0, MAX_TASKS);
    }
  }

  /** What a record does to the table and to the list of system events */
  lemma {:induction false} TableOneMore(rs: seq<StRecord>, r: StRecord)
    ensures var es, j := Table(rs), if r.pid == 0 then None else FindSlot(Table(rs), r.pid, 0);
            && Table(rs + [r]) ==
                 (if j.None? then es else AddRecord(WithPid(es, j.value, r.pid), j.value, r))
            && SysEvents(rs + [r], Slots(rs + [r])) ==
                 (if j.None? && IsListed(r) then SysEvents(rs, Slots(rs)) + [r] else SysEvents(rs, Slots(rs)))
  {
    SlotsOneMore(rs, r);
    SysOneMore(rs, r);
    SlotsAreDistinct(rs);
    var es, j := Table(rs), if r.pid == 0 then None else FindSlot(Table(rs), r.pid, 0);
    var expected := if j.None? then es else AddRecord(WithPid(es, j.value, r.pid), j.value, r);
    if r.pid != 0 {
      FindSlotFinds(rs, r.pid);
    }
    forall i | 0 <= i < MAX_TASKS
      ensures Table(rs + [r])[i] == expected[i]
    {
      EntryOneMore(rs, r, i);
    }
    assert Table(rs + [r]) == expected;
  }

  /** Of an ordered stream, the table and the list of system events are an ordered demultiplexing:
      each listed record is in one list, each list is in order and belongs to one PID, and the used
      slots are the first distinct PIDs. */
  lemma {:induction false} TableIsDemultiplexed(rs: seq<StRecord>)
    requires InOrder(EarlierEvent, rs)
    ensures multiset(Select(rs, IsListed)) == multiset(SysEvents(rs, Slots(rs))) + InTaskLists(rs, Slots(rs))
    ensures InOrder(EarlierEvent, SysEvents(rs, Slots(rs)))
    ensures forall i :: 0 <= i < MAX_TASKS ==>
              var e := Table(rs)[i];
              && InOrder(EarlierEvent, e.events) && e.noEvents == |e.events|
              && (forall k :: 0 <= k < |e.events| ==> e.events[k].pid == e.pid)
              && e.pid == if i < |Pids(rs)| then Pids(rs)[i] else 0
  {
    SlotsAreDistinct(rs);
    SlotsAreFirstPids(rs);
    ListsShareOut(rs, Slots(rs));
    ListIsInOrder(rs, (r: StRecord) => IsListed(r) && r.pid !in Slots(rs));
    forall i | 0 <= i < MAX_TASKS
      ensures var e := Table(rs)[i];
              && InOrder(EarlierEvent, e.events) && e.noEvents == |e.events|
              && (forall k :: 0 <= k < |e.events| ==> e.events[k].pid == e.pid)
              && e.pid == if i < |Pids(rs)| then Pids(rs)[i] else 0
    {
      if i < |Slots(rs)| {
        EventsAreOfTask(rs, Slots(rs)[i]);
      }
    }
  }

  lemma {:induction false} EventsAreOfTask(rs: seq<StRecord>, pid: u16)
    requires InOrder(EarlierEvent, rs)
    ensures InOrder(EarlierEvent, EventsOf(rs, pid))
    ensures forall k :: 0 <= k < |EventsOf(rs, pid)| ==> EventsOf(rs, pid)[k].pid == pid
  {
    ListIsInOrder(rs, (r: StRecord) => IsListed(r) && r.pid == pid);
    SelectedHold(rs, (r: StRecord) => IsListed(r) && r.pid == pid);
  }
}
