/** The completion search and the preemption count of src/job_stats.c. */
module JobStatistics {
  import opened Counting
  import opened Options
  import opened Trace
  import opened SchedTrace
  import opened TraceLoader

  const MAX_COMPLETIONS_TO_CHECK: nat := 20

  // ---------- Preemptions and migrations ----------

  /** At position m, the job released at position i is switched away. */
  predicate IsAway(rs: seq<StRecord>, i: nat, m: nat)
    requires i < |rs| && m < |rs|
  {
    rs[m].kind == ST_SWITCH_AWAY && rs[m].job == rs[i].job
  }

  /** The job is last switched away before position k at position m. */
  ghost predicate IsLatestAway(rs: seq<StRecord>, i: nat, k: nat, m: nat) {
    i <= m < k <= |rs| && IsAway(rs, i, m) && forall x :: m < x < k ==> !IsAway(rs, i, x)
  }

  ghost function LatestAway(rs: seq<StRecord>, i: nat, k: nat): (r: Option<nat>)
    requires i <= k <= |rs| && i < |rs|
    ensures r.Some? ==> i <= r.value < k
    ensures forall m: nat {:trigger IsLatestAway(rs, i, k, m)} :: IsLatestAway(rs, i, k, m) <==> r == Some(m)
    decreases k
  {
    if i == k then None
    else if IsAway(rs, i, k - 1) then Some(k - 1)
    else
      var r := LatestAway(rs, i, k - 1);
      assert forall m: nat {:trigger IsLatestAway(rs, i, k, m)} ::
          IsLatestAway(rs, i, k, m) <==> IsLatestAway(rs, i, k - 1, m);
      r
  }

  predicate IsBack(rs: seq<StRecord>, i: nat, k: nat)
    requires i < |rs| && k < |rs|
  {
    rs[k].kind == ST_SWITCH_TO && rs[k].job == rs[i].job
  }

  /** At position k, the job continues after it has been switched away. */
  ghost predicate IsPreemption(rs: seq<StRecord>, i: nat, k: nat) {
    i < k < |rs| && IsBack(rs, i, k) && exists m :: i <= m < k && IsAway(rs, i, m)
  }

  /** ... and on another CPU than the one that it was last switched away from */
  ghost predicate IsMigration(rs: seq<StRecord>, i: nat, k: nat) {
    i < k < |rs| && IsBack(rs, i, k) && exists m: nat :: IsLatestAway(rs, i, k, m) && rs[m].cpu != rs[k].cpu
  }

  ghost function Preemptions(rs: seq<StRecord>, i: nat, j: nat): set<nat> {
    set k | i <= k < j && IsPreemption(rs, i, k)
  }

  ghost function Migrations(rs: seq<StRecord>, i: nat, j: nat): set<nat> {
    set k | i <= k < j && IsMigration(rs, i, k)
  }

  lemma {:induction false} LatestAwayExists(rs: seq<StRecord>, i: nat, k: nat)
    requires i <= k <= |rs| && i < |rs|
    ensures LatestAway(rs, i, k).Some? <==> exists m :: i <= m < k && IsAway(rs, i, m)
    decreases k
  {
    if i < k && !IsAway(rs, i, k - 1) {
      LatestAwayExists(rs, i, k - 1);
    }
  }

  /** No more migrations than preemptions */
  lemma {:induction false} MigrationsArePreemptions(rs: seq<StRecord>, i: nat, j: nat)
    ensures Migrations(rs, i, j) <= Preemptions(rs, i, j) && |Migrations(rs, i, j)| <= |Preemptions(rs, i, j)|
  {
    forall k | k in Migrations(rs, i, j)
      ensures k in Preemptions(rs, i, j)
    {
      var m: nat :| IsLatestAway(rs, i, k, m) && rs[m].cpu != rs[k].cpu;
      assert i <= m < k && IsAway(rs, i, m);
    }
    SubsetSize(Migrations(rs, i, j), Preemptions(rs, i, j));
  }

  /** What the loop knows about a record decides what it is. */
  lemma {:induction false} KindAt(rs: seq<StRecord>, i: nat, k: nat)
    requires i <= k < |rs|
    ensures var away := LatestAway(rs, i, k);
            && (IsPreemption(rs, i, k) <==> IsBack(rs, i, k) && away.Some?)
            && (IsMigration(rs, i, k) <==> IsBack(rs, i, k) && away.Some? && rs[away.value].cpu != rs[k].cpu)
  {
    LatestAwayExists(rs, i, k);
    var away := LatestAway(rs, i, k);
    if away.Some? {
      assert IsLatestAway(rs, i, k, away.value);
    }
  }

  /** Of the switches to the job, those are counted as preemptions that follow a switch away from it. Other
      jobs do not matter. */
  lemma {:induction false} PreemptionsAreExact(rs: seq<StRecord>, i: nat, j: nat, k: nat)
    requires i <= k < j <= |rs|
    ensures var job := rs[i].job;
            k in Preemptions(rs, i, j) <==>
              && rs[k].kind == ST_SWITCH_TO && rs[k].job == job
              && exists m :: i <= m < k && rs[m].kind == ST_SWITCH_AWAY && rs[m].job == job
  {
    KindAt(rs, i, k);
    assert forall m :: i <= m < k ==> (IsAway(rs, i, m) <==> rs[m].kind == ST_SWITCH_AWAY && rs[m].job == rs[i].job);
    assert forall m :: i <= m < k && rs[m].kind == ST_SWITCH_AWAY && rs[m].job == rs[i].job ==> IsAway(rs, i, m);
  }

  /** ... and as migrations if the latest switch away from the job is from another CPU. */
  lemma {:induction false} MigrationsAreExact(rs: seq<StRecord>, i: nat, j: nat, k: nat)
    requires i <= k < j <= |rs|
    ensures var job := rs[i].job;
            k in Migrations(rs, i, j) <==>
              && rs[k].kind == ST_SWITCH_TO && rs[k].job == job
              && exists m :: && i <= m < k && rs[m].kind == ST_SWITCH_AWAY && rs[m].job == job && rs[m].cpu != rs[k].cpu
                             && forall x :: m < x < k && rs[x].kind == ST_SWITCH_AWAY ==> rs[x].job != job
  {
    KindAt(rs, i, k);
    var away, job := LatestAway(rs, i, k), rs[i].job;
    if away.Some? {
      assert IsLatestAway(rs, i, k, away.value);
      forall x | away.value < x < k && rs[x].kind == ST_SWITCH_AWAY
        ensures rs[x].job != job
      {
        assert !IsAway(rs, i, x);
      }
    }
    forall m: nat | && i <= m < k && rs[m].kind == ST_SWITCH_AWAY && rs[m].job == job && rs[m].cpu != rs[k].cpu
                    && forall x :: m < x < k && rs[x].kind == ST_SWITCH_AWAY ==> rs[x].job != job
      ensures IsLatestAway(rs, i, k, m)
    {
    }
  }

  /** One record more */
  lemma {:induction false} CountsOneMore(rs: seq<StRecord>, i: nat, k: nat)
    requires i <= k < |rs|
    ensures |Preemptions(rs, i, k + 1)| == |Preemptions(rs, i, k)| + if IsPreemption(rs, i, k) then 1 else 0
    ensures |Migrations(rs, i, k + 1)| == |Migrations(rs, i, k)| + if IsMigration(rs, i, k) then 1 else 0
  {
    hide IsPreemption, IsMigration;
    var p, m := Preemptions(rs, i, k), Migrations(rs, i, k);
    if IsPreemption(rs, i, k) {
      assert Preemptions(rs, i, k + 1) == p + {k};
    } else {
      assert Preemptions(rs, i, k + 1) == p;
    }
    if IsMigration(rs, i, k) {
      assert Migrations(rs, i, k + 1) == m + {k};
    } else {
      assert Migrations(rs, i, k + 1) == m;
    }
  }

  lemma {:induction false} NothingCounted(rs: seq<StRecord>, i: nat)
    ensures Preemptions(rs, i, i) == {} && Migrations(rs, i, i) == {}
  {
  }

  /** count_preemptions, for the job released at position i of a list and completed at position j. */
  method CountPreemptions(list: EventList, release: EvLink, completion: EvLink, ghost i: nat, ghost j: nat)
    returns (preemptions: nat, migrations: nat)
    requires list.Valid() && i <= j < |list.links| && release == list.links[i] && completion == list.links[j]
    ensures preemptions == |Preemptions(list.Records(), i, j)| && migrations == |Migrations(list.Records(), i, j)|
  {
    hide IsPreemption, IsMigration, IsLatestAway, Preemptions, Migrations;
    NothingCounted(list.Records(), i);
    ghost var rs := list.Records();
    preemptions, migrations := 0, 0;
    var seenSwitchedAway, lastCpu: u8 := false, 0;
    var e := release;
    ghost var k := i;
    while e != completion
      invariant i <= k <= j && e == list.links[k]
      invariant seenSwitchedAway == LatestAway(rs, i, k).Some?
      invariant seenSwitchedAway ==> lastCpu == rs[LatestAway(rs, i, k).value].cpu
      invariant preemptions == |Preemptions(rs, i, k)| && migrations == |Migrations(rs, i, k)|
      decreases j - k
    {
      KindAt(rs, i, k);
      CountsOneMore(rs, i, k);
      if e.rec.job == release.rec.job {
        if e.rec.kind == ST_SWITCH_AWAY {
          seenSwitchedAway := true;
          lastCpu := e.rec.cpu;
        } else if e.rec.kind == ST_SWITCH_TO {
          if seenSwitchedAway {
            preemptions := preemptions + 1;
          }
          if seenSwitchedAway && e.rec.cpu != lastCpu {
            migrations := migrations + 1;
          }
        }
      }
      e := e.next;
      k := k + 1;
    }
    assert list.links[k].index == k && list.links[j].index == j;
  }

  // ---------- The search for the completion ----------

  /** The completions of any job between two positions */
  ghost function Completions(rs: seq<StRecord>, i: nat, j: nat): set<nat>
    requires j <= |rs|
  {
    set k: nat | i <= k < j && rs[k].kind == ST_COMPLETION
  }

  predicate Completes(rs: seq<StRecord>, i: nat, j: nat)
    requires i < |rs| && j < |rs|
  {
    rs[j].kind == ST_COMPLETION && rs[j].job == rs[i].job
  }

  /** Position j has the first completion of the job released at position i, and it is among the
      first MAX_COMPLETIONS_TO_CHECK completions from there on. */
  ghost predicate IsCompletionOf(rs: seq<StRecord>, i: nat, j: nat) {
    && i <= j < |rs| && Completes(rs, i, j) && (forall k :: i <= k < j ==> !Completes(rs, i, k))
    && |Completions(rs, i, j)| < MAX_COMPLETIONS_TO_CHECK
  }

  ghost function CompletionOf(rs: seq<StRecord>, i: nat): (r: Option<nat>)
    ensures r.Some? ==> i <= r.value < |rs|
    ensures forall j: nat {:trigger IsCompletionOf(rs, i, j)} :: IsCompletionOf(rs, i, j) <==> r == Some(j)
  {
    if exists j: nat :: IsCompletionOf(rs, i, j) then
      var j: nat :| IsCompletionOf(rs, i, j);
      Some(j)
    else None
  }

  /** The search loop of the main function, for the release at position i of a list */
  method FindCompletion(list: EventList, release: EvLink, ghost i: nat) returns (r: EvLink?)
    requires list.Valid() && i < |list.links| && release == list.links[i]
    ensures match CompletionOf(list.Records(), i)
            case None => r == null
            case Some(j) => j < |list.links| && r == list.links[j]
  {
    ghost var rs := list.Records();
    r := release;
    ghost var j := i;
    var count := 0;
    assert Completions(rs, i, i) == {};
    while r != null && count < MAX_COMPLETIONS_TO_CHECK
      invariant i <= j <= |rs| && r == list.LinkAt(j)
      invariant count == |Completions(rs, i, j)| <= MAX_COMPLETIONS_TO_CHECK
      invariant forall k :: i <= k < j ==> !Completes(rs, i, k)
      decreases |rs| - j
    {
      ghost var from := j;
      while r != null && r.rec.kind != ST_COMPLETION
        invariant from <= j <= |rs| && r == list.LinkAt(j)
        invariant count == |Completions(rs, i, j)|
        invariant forall k :: i <= k < j ==> !Completes(rs, i, k)
        decreases |rs| - j
      {
        CompletionsOneMore(rs, i, j);
        r, j := r.next, j + 1;
      }
      if r == null {
        break;
      }
      if r.rec.job == release.rec.job {
        assert IsCompletionOf(rs, i, j);
        return;
      }
      CompletionsOneMore(rs, i, j);
      r, j, count := r.next, j + 1, count + 1;
    }
    CompletionsGrow(rs, i, j);
    assert forall k: nat :: !IsCompletionOf(rs, i, k);
    r := null;
  }

  lemma {:induction false} CompletionsOneMore(rs: seq<StRecord>, i: nat, j: nat)
    requires i <= j < |rs|
    ensures |Completions(rs, i, j + 1)| == |Completions(rs, i, j)| + if rs[j].kind == ST_COMPLETION then 1 else 0
  {
    var before := Completions(rs, i, j);
    if rs[j].kind == ST_COMPLETION {
      assert Completions(rs, i, j + 1) == before + {j};
    } else {
      assert Completions(rs, i, j + 1) == before;
    }
  }

  /** Nothing is found later, if there are too many completions before. */
  lemma {:induction false} CompletionsGrow(rs: seq<StRecord>, i: nat, j: nat)
    requires i <= j <= |rs|
    ensures forall k :: j <= k <= |rs| ==> |Completions(rs, i, j)| <= |Completions(rs, i, k)|
  {
    forall k | j <= k <= |rs|
      ensures |Completions(rs, i, j)| <= |Completions(rs, i, k)|
    {
      SubsetSize(Completions(rs, i, j), Completions(rs, i, k));
    }
  }

  // ---------- The statistics of a task ----------

  /** What is printed for a job */
  datatype Row = Row(release: StRecord, completion: StRecord, preemptions: nat, migrations: nat)

  /** Is the job released at position i reported? The system release may have to be waited for. */
  predicate IsReported(rs: seq<StRecord>, waitFrom: Option<u64>, i: nat)
    requires i < |rs|
  {
    rs[i].kind == ST_RELEASE && (waitFrom.None? || rs[i].raw.0 >= waitFrom.value)
  }

  /** The row of the job released at position i, if it is reported and completes */
  ghost function RowAt(rs: seq<StRecord>, waitFrom: Option<u64>, i: nat): seq<Row>
    requires i < |rs|
  {
    var j := CompletionOf(rs, i);
    if IsReported(rs, waitFrom, i) && j.Some? then
      [Row(rs[i], rs[j.value], |Preemptions(rs, i, j.value)|, |Migrations(rs, i, j.value)|)]
    else []
  }

  /** The rows of the jobs released before position n */
  ghost function Rows(rs: seq<StRecord>, waitFrom: Option<u64>, n: nat): seq<Row>
    requires n <= |rs|
    decreases n
  {
    if n == 0 then [] else Rows(rs, waitFrom, n - 1) + RowAt(rs, waitFrom, n - 1)
  }

  /** The body of the loop of the main function over the events of a task */
  method JobRow(list: EventList, waitFrom: Option<u64>, e: EvLink, ghost i: nat) returns (row: seq<Row>)
    requires list.Valid() && i < |list.links| && e == list.links[i]
    ensures row == RowAt(list.Records(), waitFrom, i)
  {
    hide Preemptions, Migrations, IsCompletionOf, CompletionOf;
    row := [];
    if e.rec.kind == ST_RELEASE && (waitFrom.None? || e.rec.raw.0 >= waitFrom.value) {
      var pos := FindCompletion(list, e, i);
      if pos != null {
        var preemptions, migrations := CountPreemptions(list, e, pos, i, CompletionOf(list.Records(), i).value);
        row := [Row(e.rec, pos.rec, preemptions, migrations)];
      }
    }
  }

  /** The loop of the main function over the events of a task */
  method JobRows(list: EventList, waitFrom: Option<u64>) returns (rows: seq<Row>)
    requires list.Valid()
    ensures rows == Rows(list.Records(), waitFrom, |list.Records()|)
    ensures AreJobRows(list.Records(), waitFrom, rows)
  {
    hide RowAt, AreJobRows;
    ghost var rs := list.Records();
    RowsAreJobRows(rs, waitFrom);
    rows := [];
    var e := list.first;
    ghost var i := 0;
    while e != null
      invariant 0 <= i <= |rs| && e == list.LinkAt(i) && rows == Rows(rs, waitFrom, i)
      decreases |rs| - i
    {
      var row := JobRow(list, waitFrom, e, i);
      rows := rows + row;
      e, i := e.next, i + 1;
    }
  }

  /** In every row, the completion is one of the job that is released, and no more migrations are
      counted than preemptions. */
  lemma {:induction false} RowIsSound(rs: seq<StRecord>, waitFrom: Option<u64>, n: nat, row: Row)
    requires n <= |rs| && row in Rows(rs, waitFrom, n)
    ensures row.release.kind == ST_RELEASE && row.completion.kind == ST_COMPLETION
    ensures row.completion.job == row.release.job && row.migrations <= row.preemptions
    decreases n
  {
    hide RowAt;
    if row in Rows(rs, waitFrom, n - 1) {
      RowIsSound(rs, waitFrom, n - 1, row);
    } else {
      RowAtIsSound(rs, waitFrom, n - 1, row);
    }
  }

  lemma {:induction false} RowAtIsSound(rs: seq<StRecord>, waitFrom: Option<u64>, i: nat, row: Row)
    requires i < |rs| && row in RowAt(rs, waitFrom, i)
    ensures row.release.kind == ST_RELEASE && row.completion.kind == ST_COMPLETION
    ensures row.completion.job == row.release.job && row.migrations <= row.preemptions
  {
    var j := CompletionOf(rs, i).value;
    assert IsCompletionOf(rs, i, j);
    MigrationsArePreemptions(rs, i, j);
  }

  // ---------- The rows, without the loop ----------

  /** The row belongs to the job that is released at position i and completed at position j. */
  ghost predicate IsRowOf(rs: seq<StRecord>, waitFrom: Option<u64>, i: nat, j: nat, row: Row) {
    && i < |rs| && rs[i].kind == ST_RELEASE && (waitFrom.None? || rs[i].raw.0 >= waitFrom.value)
    && IsCompletionOf(rs, i, j)
    && row == Row(rs[i], rs[j], |Preemptions(rs, i, j)|, |Migrations(rs, i, j)|)
  }

  ghost predicate HasRow(rs: seq<StRecord>, waitFrom: Option<u64>, i: nat, row: Row) {
    exists j: nat :: IsRowOf(rs, waitFrom, i, j, row)
  }

  /** There is one row for each release before position n that is reported and completed, in the order
      of the releases; at are their positions. */
  ghost predicate AreRowsAt(rs: seq<StRecord>, waitFrom: Option<u64>, n: nat, rows: seq<Row>, at: seq<nat>) {
    && |at| == |rows|
    && (forall k :: 0 <= k < |at| ==> at[k] < n && HasRow(rs, waitFrom, at[k], rows[k]))
    && (forall j, k :: 0 <= j < k < |at| ==> at[j] < at[k])
    && (forall i: nat, row :: i < n && HasRow(rs, waitFrom, i, row) ==> i in at)
  }

  ghost predicate AreJobRows(rs: seq<StRecord>, waitFrom: Option<u64>, rows: seq<Row>) {
    exists at: seq<nat> :: AreRowsAt(rs, waitFrom, |rs|, rows, at)
  }

  lemma {:induction false} RowAtIsExact(rs: seq<StRecord>, waitFrom: Option<u64>, i: nat, row: Row)
    requires i < |rs|
    ensures HasRow(rs, waitFrom, i, row) <==> RowAt(rs, waitFrom, i) == [row]
    ensures RowAt(rs, waitFrom, i) == [] || |RowAt(rs, waitFrom, i)| == 1
  {
    hide Preemptions, Migrations;
    var j := CompletionOf(rs, i);
    if j.Some? {
      assert IsCompletionOf(rs, i, j.value);
      assert RowAt(rs, waitFrom, i) == [row] ==> IsRowOf(rs, waitFrom, i, j.value, row);
    }
    if HasRow(rs, waitFrom, i, row) {
      var j': nat :| IsRowOf(rs, waitFrom, i, j', row);
      assert IsCompletionOf(rs, i, j');
    }
  }

  lemma {:induction false} NextRowAt(rs: seq<StRecord>, waitFrom: Option<u64>, n: nat, rows: seq<Row>, at: seq<nat>)
    returns (at': seq<nat>)
    requires n < |rs| && AreRowsAt(rs, waitFrom, n, rows, at)
    ensures AreRowsAt(rs, waitFrom, n + 1, rows + RowAt(rs, waitFrom, n), at')
  {
    hide HasRow;
    var next := RowAt(rs, waitFrom, n);
    at' := if next == [] then at else at + [n];
    forall row
      ensures HasRow(rs, waitFrom, n, row) <==> next == [row]
      ensures next == [] || |next| == 1
    {
      RowAtIsExact(rs, waitFrom, n, row);
    }
    assert next != [] ==> next == [next[0]];
    forall i: nat, row | i < n + 1 && HasRow(rs, waitFrom, i, row)
      ensures i in at'
    {
      assert i in at ==> i in at';
    }
  }

  lemma {:induction false} RowsAreAt(rs: seq<StRecord>, waitFrom: Option<u64>, n: nat) returns (at: seq<nat>)
    requires n <= |rs|
    ensures AreRowsAt(rs, waitFrom, n, Rows(rs, waitFrom, n), at)
  {
    hide RowAt, HasRow;
    at := [];
    if n > 0 {
      at := RowsAreAt(rs, waitFrom, n - 1);
      at := NextRowAt(rs, waitFrom, n - 1, Rows(rs, waitFrom, n - 1), at);
    }
  }

  lemma {:induction false} RowsAreJobRows(rs: seq<StRecord>, waitFrom: Option<u64>)
    ensures AreJobRows(rs, waitFrom, Rows(rs, waitFrom, |rs|))
  {
    var at := RowsAreAt(rs, waitFrom, |rs|);
  }

  /** A row is reported if and only if it is that of a release of interest with its completion. */
  lemma {:induction false} RowsAreExact(rs: seq<StRecord>, waitFrom: Option<u64>, rows: seq<Row>, row: Row)
    requires AreJobRows(rs, waitFrom, rows)
    ensures row in rows <==> exists i: nat, j: nat :: IsRowOf(rs, waitFrom, i, j, row)
  {
    hide IsRowOf;
    var at: seq<nat> :| AreRowsAt(rs, waitFrom, |rs|, rows, at);
    if row in rows {
      var k :| 0 <= k < |rows| && rows[k] == row;
      assert HasRow(rs, waitFrom, at[k], row);
    }
    if exists i: nat, j: nat :: IsRowOf(rs, waitFrom, i, j, row) {
      var i: nat, j: nat :| IsRowOf(rs, waitFrom, i, j, row);
      assert HasRow(rs, waitFrom, i, row);
      OfARecord(rs, waitFrom, i, j, row);
      var k :| 0 <= k < |at| && at[k] == i;
      OneRow(rs, waitFrom, i, row, rows[k]);
    }
  }

  lemma {:induction false} OfARecord(rs: seq<StRecord>, waitFrom: Option<u64>, i: nat, j: nat, row: Row)
    requires IsRowOf(rs, waitFrom, i, j, row)
    ensures i < |rs|
  {
  }

  lemma {:induction false} OneRow(rs: seq<StRecord>, waitFrom: Option<u64>, i: nat, row: Row, row': Row)
    requires HasRow(rs, waitFrom, i, row) && HasRow(rs, waitFrom, i, row')
    ensures row == row'
  {
    var j: nat :| IsRowOf(rs, waitFrom, i, j, row);
    RowAtIsExact(rs, waitFrom, i, row);
    RowAtIsExact(rs, waitFrom, i, row');
  }
}
