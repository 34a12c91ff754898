/** What the stream of src/load.c and its per-task lists are, record by record: the order of the events,
    the first time, and what each entry of the task table holds. */
module StreamLaws {
  import opened Counting
  import opened Options
  import opened Trace
  import opened SchedTrace
  import opened Selections
  import opened HeapRuns
  import opened EventHeap
  import opened Demultiplexing

  // ---------- The order of the stream ----------

  /** The kinds of records that carry a time, in the first word of their payload */
  predicate IsTimedKind(r: StRecord) {
    ST_RELEASE <= r.kind <= ST_NP_EXIT
  }

  predicate IsUntimed(r: StRecord) {
    IsTimedKind(r) ==> r.raw.0 == 0
  }

  /** Times do not decrease; no record of another kind follows one with a nonzero time; and records
      without a time come in the order of their PIDs. */
  ghost predicate InTraceOrder(rs: seq<StRecord>) {
    && (forall i, j :: 0 <= i < j < |rs| && IsTimedKind(rs[i]) && IsTimedKind(rs[j]) ==> rs[i].raw.0 <= rs[j].raw.0)
    && (forall i, j :: 0 <= i < j < |rs| && IsTimedKind(rs[i]) && !IsTimedKind(rs[j]) ==> rs[i].raw.0 == 0)
    && (forall i, j :: 0 <= i < j < |rs| && IsUntimed(rs[i]) && IsUntimed(rs[j]) ==> rs[i].pid <= rs[j].pid)
  }

  /** The order of earlier_event is that order. */
  lemma {:induction false} OrderIsExact(rs: seq<StRecord>)
    ensures InOrder(EarlierEvent, rs) <==> InTraceOrder(rs)
  {
    if InTraceOrder(rs) {
      forall i, j | 0 <= i < j < |rs|
        ensures !EarlierEvent(rs[j], rs[i])
      {
        assert IsTimedKind(rs[i]) || !IsTimedKind(rs[i]);
      }
    }
    if InOrder(EarlierEvent, rs) {
      forall i, j | 0 <= i < j < |rs|
        ensures IsTimedKind(rs[i]) && IsTimedKind(rs[j]) ==> rs[i].raw.0 <= rs[j].raw.0
        ensures IsTimedKind(rs[i]) && !IsTimedKind(rs[j]) ==> rs[i].raw.0 == 0
        ensures IsUntimed(rs[i]) && IsUntimed(rs[j]) ==> rs[i].pid <= rs[j].pid
      {
        assert !EarlierEvent(rs[j], rs[i]);
      }
    }
  }

  /** The least nonzero time, or 0 if there is none */
  ghost predicate IsLeastTime(rs: seq<StRecord>, t: u64) {
    && (forall i :: 0 <= i < |rs| && !IsUntimed(rs[i]) ==> 0 < t <= rs[i].raw.0)
    && (t != 0 ==> exists i :: 0 <= i < |rs| && IsTimedKind(rs[i]) && rs[i].raw.0 == t)
  }

  lemma {:induction false} FirstTimeIsExact(rs: seq<StRecord>, t: u64)
    requires InOrder(EarlierEvent, rs)
    ensures IsLeastTime(rs, t) <==> t == FirstTime(rs)
  {
    FirstTimeIsLeast(rs);
    var first := FirstTime(rs);
    if first != 0 {
      var k :| 0 <= k < |rs| && EventTime(rs[k]) == first;
      assert IsTimedKind(rs[k]);
    }
    forall i | 0 <= i < |rs| && !IsUntimed(rs[i])
      ensures 0 < first <= rs[i].raw.0
    {
      assert EventTime(rs[i]) != 0;
    }
  }

  // ---------- Names and parameters ----------

  /** The last record of a kind and a task, if there is one */
  ghost predicate IsLast(rs: seq<StRecord>, pid: u16, kind: u8, r: Option<StRecord>) {
    match r
    case None => forall k :: 0 <= k < |rs| ==> !(rs[k].pid == pid && rs[k].kind == kind)
    case Some(x) => exists k :: && 0 <= k < |rs| && rs[k] == x && x.pid == pid && x.kind == kind
                                && forall j :: k < j < |rs| ==> !(rs[j].pid == pid && rs[j].kind == kind)
  }

  lemma {:induction false} LastOfIsLast(rs: seq<StRecord>, pid: u16, kind: u8)
    ensures IsLast(rs, pid, kind, LastOf(rs, pid, kind))
    decreases |rs|
  {
    if rs != [] {
      var before, r := rs[..|rs|-1], rs[|rs|-1];
      LastOfIsLast(before, pid, kind);
      var last := LastOf(before, pid, kind);
      if r.pid == pid && r.kind == kind {
        assert rs[|rs|-1] == r;
      } else if last.Some? {
        var k :| && 0 <= k < |before| && before[k] == last.value
                 && forall j :: k < j < |before| ==> !(before[j].pid == pid && before[j].kind == kind);
        assert rs[k] == before[k];
      }
    }
  }

  lemma {:induction false} LastIsUnique(rs: seq<StRecord>, pid: u16, kind: u8, r: Option<StRecord>, r': Option<StRecord>)
    requires IsLast(rs, pid, kind, r) && IsLast(rs, pid, kind, r')
    ensures r == r'
  {
  }

  // ---------- The lists ----------

  /** The list has exactly the records that are neither names nor parameters and whose PID is in a set, or
      is not, in the order of the stream; at are their positions. */
  ghost predicate IsListAt(rs: seq<StRecord>, pids: set<u16>, inside: bool, events: seq<StRecord>, at: seq<nat>) {
    && |at| == |events|
    && (forall k :: 0 <= k < |at| ==> at[k] < |rs| && rs[at[k]] == events[k])
    && (forall j, k :: 0 <= j < k < |at| ==> at[j] < at[k])
    && (forall i: nat :: i < |rs| ==> (i in at <==> rs[i].kind != ST_NAME && rs[i].kind != ST_PARAM && (rs[i].pid in pids <==> inside)))
  }

  /** at are the positions of the elements for which f holds, and sel are these elements. */
  ghost predicate AreAt<T>(s: seq<T>, f: T -> bool, sel: seq<T>, at: seq<nat>) {
    && |at| == |sel|
    && (forall k :: 0 <= k < |at| ==> at[k] < |s| && s[at[k]] == sel[k])
    && (forall j, k :: 0 <= j < k < |at| ==> at[j] < at[k])
    && (forall i: nat :: i < |s| ==> (i in at <==> f(s[i])))
  }

  lemma {:induction false} OneMoreAt<T>(s: seq<T>, f: T -> bool, sel: seq<T>, at: seq<nat>, x: T)
    requires AreAt(s, f, sel, at)
    ensures f(x) ==> AreAt(s + [x], f, sel + [x], at + [|s|])
    ensures !f(x) ==> AreAt(s + [x], f, sel, at)
  {
    var at' := at + [|s|];
    assert forall i: nat :: i in at' <==> i in at || i == |s|;
    assert forall i :: i in at ==> i < |s|;
  }

  /** Where the selected elements come from. */
  lemma {:induction false} SelectedAt<T>(s: seq<T>, f: T -> bool) returns (at: seq<nat>)
    ensures AreAt(s, f, Select(s, f), at)
  {
    hide AreAt;
    if s == [] {
      at := [];
      NothingAt(s, f);
    } else {
      var before, x := s[..|s|-1], s[|s|-1];
      assert s == before + [x];
      at := SelectedAt(before, f);
      SelectOneMore(before, x, f);
      OneMoreAt(before, f, Select(before, f), at, x);
      at := if f(x) then at + [|before|] else at;
    }
  }

  lemma {:induction false} NothingAt<T>(s: seq<T>, f: T -> bool)
    requires s == []
    ensures AreAt(s, f, [], [])
  {
  }

  // ---------- The PIDs ----------

  /** The PIDs are in the order of their first records. */
  lemma {:induction false} PidsAreInOrder(rs: seq<StRecord>, a: nat, b: nat, j: nat) returns (i: nat)
    requires a < b < |Pids(rs)| && j < |rs| && rs[j].pid == Pids(rs)[b]
    ensures i < j && rs[i].pid == Pids(rs)[a]
    decreases |rs|
  {
    var before, r := rs[..|rs|-1], rs[|rs|-1];
    if b < |Pids(before)| && j < |before| {
      i := PidsAreInOrder(before, a, b, j);
    } else {
      assert Pids(before)[a] in Pids(before);
      PidsOccur(before, Pids(before)[a]);
      i :| 0 <= i < |before| && before[i].pid == Pids(before)[a];
      if j < |before| {
        assert before[j].pid == r.pid;
        PidsOccur(before, r.pid);
      }
    }
  }

  // ---------- The table ----------

  ghost predicate IsList(rs: seq<StRecord>, pids: set<u16>, inside: bool, events: seq<StRecord>) {
    exists at: seq<nat> :: IsListAt(rs, pids, inside, events, at)
  }

  /** What the entry with a PID holds after the records rs */
  ghost predicate IsEntry(rs: seq<StRecord>, pid: u16, e: Entry) {
    && e.pid == pid && e.noEvents == |e.events| && IsList(rs, {pid}, true, e.events)
    && IsLast(rs, pid, ST_NAME, e.name) && IsLast(rs, pid, ST_PARAM, e.param)
  }

  /** The first MAX_TASKS distinct nonzero PIDs */
  ghost function FirstPids(rs: seq<StRecord>): set<u16> {
    set i | 0 <= i < MAX_TASKS && i < |Pids(rs)| :: Pids(rs)[i]
  }

  lemma {:induction false} EntryIsExact(rs: seq<StRecord>, pid: u16)
    ensures IsEntry(rs, pid, EntryAt(rs, [pid], 0))
  {
    hide IsLast;
    LastOfIsLast(rs, pid, ST_NAME);
    LastOfIsLast(rs, pid, ST_PARAM);
    var at := SelectedAt(rs, (r: StRecord) => IsListed(r) && r.pid == pid);
    assert IsListAt(rs, {pid}, true, EventsOf(rs, pid), at);
  }

  lemma {:induction false} SystemListIsExact(rs: seq<StRecord>)
    ensures IsList(rs, FirstPids(rs), false, SysEvents(rs, Slots(rs)))
  {
    SlotsArePrefix(rs);
    assert forall pid :: pid in FirstPids(rs) <==> pid in Slots(rs);
    var at := SelectedAt(rs, (r: StRecord) => IsListed(r) && r.pid !in Slots(rs));
    assert IsListAt(rs, FirstPids(rs), false, SysEvents(rs, Slots(rs)), at);
  }

  /** There is an entry for each of the first distinct PIDs, with its last name, its last parameters, and
      exactly its other records in order. Nothing else is in the table; the records that have no entry
      are the system events. */
  lemma {:induction false} TableIsExact(rs: seq<StRecord>)
    ensures forall i :: 0 <= i < MAX_TASKS ==>
              if i < |Pids(rs)| then IsEntry(rs, Pids(rs)[i], Table(rs)[i]) else Table(rs)[i] == Entry(0, 0, None, None, [])
    ensures IsList(rs, FirstPids(rs), false, SysEvents(rs, Slots(rs)))
  {
    hide IsEntry, IsListAt, AreAt, EventsOf, LastOf;
    SlotsArePrefix(rs);
    forall i | 0 <= i < MAX_TASKS && i < |Pids(rs)|
      ensures IsEntry(rs, Pids(rs)[i], Table(rs)[i])
    {
      EntryIsExact(rs, Pids(rs)[i]);
      assert Table(rs)[i] == EntryAt(rs, Slots(rs), i);
    }
    SystemListIsExact(rs);
  }

  // ---------- The records of all files ----------

  ghost function Occurrences(s: seq<StRecord>, r: StRecord): set<nat> {
    set k: nat | k < |s| && s[k] == r
  }

  /** The places of a record: a file that has been mapped and a position in it */
  ghost function Places(files: seq<Option<seq<StRecord>>>, r: StRecord): set<(nat, nat)> {
    set i: nat, k: nat | i < |files| && files[i].Some? && k < |files[i].value| && files[i].value[k] == r :: (i, k)
  }

  lemma {:induction false} OccurrencesCount(s: seq<StRecord>, r: StRecord)
    ensures multiset(s)[r] == |Occurrences(s, r)|
    decreases |s|
  {
    if s != [] {
      var before, x := s[..|s|-1], s[|s|-1];
      OccurrencesCount(before, r);
      assert s == before + [x];
      assert Occurrences(s, r) == Occurrences(before, r) + if x == r then {|before|} else {};
    }
  }

  lemma {:induction false} PlacesInLast(files: seq<Option<seq<StRecord>>>, last: Option<seq<StRecord>>, r: StRecord)
    ensures var here := if last.Some? then Occurrences(last.value, r) else {};
            Places(files + [last], r) == Places(files, r) + PairedWith(|files|, here)
  {
    var all := files + [last];
    var here := if last.Some? then Occurrences(last.value, r) else {};
    forall i: nat, k: nat
      ensures (i, k) in Places(all, r) <==> (i, k) in Places(files, r) || (i, k) in PairedWith(|files|, here)
    {
      assert i < |files| ==> all[i] == files[i];
    }
  }

  /** All records of all files are counted, as often as they occur. */
  lemma {:induction false} AllRecordsCount(files: seq<Option<seq<StRecord>>>, r: StRecord)
    ensures AllRecords(files)[r] == |Places(files, r)|
    decreases |files|
  {
    if files != [] {
      var before, last := files[..|files|-1], files[|files|-1];
      AllRecordsCount(before, r);
      assert files == before + [last];
      var here := if last.Some? then Occurrences(last.value, r) else {};
      if last.Some? {
        OccurrencesCount(last.value, r);
      }
      PairedSize(|before|, here);
      PlacesInLast(before, last, r);
    }
  }
}
