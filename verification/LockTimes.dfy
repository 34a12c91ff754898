/** The execution time of a request that is suspended and resumed: accumulate_exec_time of
    src/ft2csv.c as a recogniser, and the language it recognises. */
module LockTimes {
  import opened Options
  import opened Trace
  import opened EventScans

  /** The dummy that the code passes if it looks for one event only. Event 0 matches it. */
  const NO_EVENT: nat := 0

  // ---------- The recogniser ----------

  /** The result: the matching end and the execution time up to there; whether an interrupt stopped
      the scan; and the number of flagged records. */
  datatype Exec = Exec(second: Option<nat>, sum: nat, disturbed: bool, irqs: nat)

  /** The resumption after the suspension at position p, if the stream is not broken. */
  ghost function Resumption(s: seq<Record>, cfg: Config, p: nat): (r: Option<nat>)
    requires p < |s|
    ensures r.Some? ==> p < r.value < |s| && Time(s, p) <= Time(s, r.value)
  {
    var q := NextPid(s, cfg, p, TS_LOCK_RESUME, TS_SCHED_START, false).found;
    if q.None? || Time(s, q.value) < Time(s, p) then None
    else if s[q.value].event == TS_SCHED_START then
      var e := NextPid(s, cfg, q.value, TS_SCHED_END, NO_EVENT, false).found;
      if e.None? || Time(s, e.value) < Time(s, q.value) then None
      else
        var r := NextPid(s, cfg, e.value, TS_LOCK_RESUME, NO_EVENT, false).found;
        if r.None? || Time(s, r.value) < Time(s, q.value) then None else r
    else q
  }

  ghost function ExecTime(s: seq<Record>, cfg: Config, pos: nat, stopId: nat): (r: Exec)
    requires pos < |s|
    ensures r.second.Some? ==> pos < r.second.value < |s|
    decreases |s| - pos
  {
    var n := NextPid(s, cfg, pos, TS_LOCK_SUSPEND, stopId, true);
    if n.found.None? || Time(s, n.found.value) < Time(s, pos) then Exec(None, 0, n.disturbed, n.irqs)
    else
      var p := n.found.value;
      var executed := Time(s, p) - Time(s, pos);
      if s[p].event == stopId then Exec(Some(p), executed, false, n.irqs)
      else match Resumption(s, cfg, p)
        case None => Exec(None, 0, false, n.irqs)
        case Some(r) =>
          var rest := ExecTime(s, cfg, r, stopId);
          rest.(sum := executed + rest.sum, irqs := n.irqs + rest.irqs)
  }

  // ---------- The language ----------

  datatype Scheduled = Scheduled(start: nat, end: nat)

  /** A suspension with the position of its resumption, and the scheduler invocation in between. */
  datatype Suspension = Suspension(suspend: nat, resume: nat, scheduled: Option<Scheduled>)

  /** The task executes undisturbed from position i to its next record at position j. */
  ghost predicate Executes(s: seq<Record>, cfg: Config, i: nat, j: nat) {
    IsNextOfPid(s, i, j) && Time(s, i) <= Time(s, j) && Undisturbed(s, cfg, i, j)
  }

  /** SUSPEND (RESUME | SCHED_START SCHED_END RESUME), with the comparisons that the code makes */
  ghost predicate IsSuspension(s: seq<Record>, x: Suspension) {
    match x.scheduled
    case None =>
      && IsNextOfPid(s, x.suspend, x.resume) && s[x.suspend].event == TS_LOCK_SUSPEND
      && s[x.resume].event == TS_LOCK_RESUME && Time(s, x.suspend) <= Time(s, x.resume)
    case Some(c) =>
      && IsNextOfPid(s, x.suspend, c.start) && IsNextOfPid(s, c.start, c.end) && IsNextOfPid(s, c.end, x.resume)
      && s[x.suspend].event == TS_LOCK_SUSPEND && s[c.start].event == TS_SCHED_START
      && (s[c.end].event == TS_SCHED_END || s[c.end].event == NO_EVENT)
      && (s[x.resume].event == TS_LOCK_RESUME || s[x.resume].event == NO_EVENT)
      && Time(s, x.suspend) <= Time(s, c.start) && Time(s, c.start) <= Time(s, c.end) && Time(s, c.start) <= Time(s, x.resume)
  }

  /** The task executes from position i to suspension x, and is resumed later. */
  ghost predicate Suspends(s: seq<Record>, cfg: Config, i: nat, x: Suspension, stopId: nat) {
    Executes(s, cfg, i, x.suspend) && s[x.suspend].event != stopId && IsSuspension(s, x)
  }

  /** From i on, the task's next records in a hole-free stretch spell suspensions xs, and then the
      task executes until it records the end at position j. */
  ghost predicate Spells(s: seq<Record>, cfg: Config, i: nat, xs: seq<Suspension>, j: nat, stopId: nat)
    decreases |xs|
  {
    if xs == [] then Executes(s, cfg, i, j) && s[j].event == stopId
    else Suspends(s, cfg, i, xs[0], stopId) && Spells(s, cfg, xs[0].resume, xs[1..], j, stopId)
  }

  /** After suspensions xs and undisturbed execution in between, an interrupt at position q
      disturbs the execution. */
  ghost predicate SpellsUpTo(s: seq<Record>, cfg: Config, i: nat, xs: seq<Suspension>, q: nat, stopId: nat)
    decreases |xs|
  {
    if xs == [] then IsPidDisturbed(s, cfg, i, i + 1, q, TS_LOCK_SUSPEND, stopId, true)
    else Suspends(s, cfg, i, xs[0], stopId) && SpellsUpTo(s, cfg, xs[0].resume, xs[1..], q, stopId)
  }

  /** The positions that the request from i to j visits. This and the next predicate are not recursive,
      so that quantifiers over them have triggers. */
  ghost predicate IsParse(s: seq<Record>, cfg: Config, i: nat, xs: seq<Suspension>, j: nat, stopId: nat) {
    Spells(s, cfg, i, xs, j, stopId)
  }

  ghost predicate IsDisturbedParse(s: seq<Record>, cfg: Config, i: nat, xs: seq<Suspension>, q: nat, stopId: nat) {
    SpellsUpTo(s, cfg, i, xs, q, stopId)
  }

  // ---------- Recognition is exact ----------

  lemma {:induction false} ResumptionIsExact(s: seq<Record>, cfg: Config, p: nat, r: nat) returns (x: Suspension)
    requires p < |s| && cfg.maxInterleavedSkipped == 0 && s[p].event == TS_LOCK_SUSPEND
    requires Resumption(s, cfg, p) == Some(r)
    ensures x.suspend == p && x.resume == r && IsSuspension(s, x)
  {
    var q := NextPid(s, cfg, p, TS_LOCK_RESUME, TS_SCHED_START, false).found.value;
    NextPidIsExact(s, cfg, p, q, TS_LOCK_RESUME, TS_SCHED_START, false);
    if s[q].event == TS_SCHED_START {
      var e := NextPid(s, cfg, q, TS_SCHED_END, NO_EVENT, false).found.value;
      NextPidIsExact(s, cfg, q, e, TS_SCHED_END, NO_EVENT, false);
      NextPidIsExact(s, cfg, e, r, TS_LOCK_RESUME, NO_EVENT, false);
      x := Suspension(p, r, Some(Scheduled(q, e)));
    } else {
      x := Suspension(p, r, None);
    }
  }

  lemma {:induction false} SuspensionIsResumed(s: seq<Record>, cfg: Config, x: Suspension)
    requires cfg.maxInterleavedSkipped == 0 && IsSuspension(s, x)
    ensures x.suspend < |s| && Resumption(s, cfg, x.suspend) == Some(x.resume)
  {
    match x.scheduled
    case None =>
      NextPidIsExact(s, cfg, x.suspend, x.resume, TS_LOCK_RESUME, TS_SCHED_START, false);
    case Some(c) =>
      NextPidIsExact(s, cfg, x.suspend, c.start, TS_LOCK_RESUME, TS_SCHED_START, false);
      NextPidIsExact(s, cfg, c.start, c.end, TS_SCHED_END, NO_EVENT, false);
      NextPidIsExact(s, cfg, c.end, x.resume, TS_LOCK_RESUME, NO_EVENT, false);
  }

  /** Every word of the language is recognised, with the time spent executing. */
  lemma {:induction false} WordsAreRecognised(s: seq<Record>, cfg: Config, i: nat, xs: seq<Suspension>, j: nat, stopId: nat)
    requires cfg.maxInterleavedSkipped == 0 && Spells(s, cfg, i, xs, j, stopId)
    ensures i < |s| && ExecTime(s, cfg, i, stopId).second == Some(j)
    ensures ExecTime(s, cfg, i, stopId).sum == Executed(s, cfg, i, xs, j, stopId)
    decreases |xs|
  {
    if xs == [] {
      NextPidIsExact(s, cfg, i, j, TS_LOCK_SUSPEND, stopId, true);
    } else {
      NextPidIsExact(s, cfg, i, xs[0].suspend, TS_LOCK_SUSPEND, stopId, true);
      SuspensionIsResumed(s, cfg, xs[0]);
      WordsAreRecognised(s, cfg, xs[0].resume, xs[1..], j, stopId);
    }
  }

  /** Nothing else is recognised. */
  lemma {:induction false} RecognisedAreWords(s: seq<Record>, cfg: Config, i: nat, j: nat, stopId: nat) returns (xs: seq<Suspension>)
    requires i < |s| && cfg.maxInterleavedSkipped == 0 && ExecTime(s, cfg, i, stopId).second == Some(j)
    ensures Spells(s, cfg, i, xs, j, stopId)
    decreases |s| - i
  {
    var p := NextPid(s, cfg, i, TS_LOCK_SUSPEND, stopId, true).found.value;
    NextPidIsExact(s, cfg, i, p, TS_LOCK_SUSPEND, stopId, true);
    if s[p].event == stopId {
      xs := [];
    } else {
      var r := Resumption(s, cfg, p).value;
      var x := ResumptionIsExact(s, cfg, p, r);
      var rest := RecognisedAreWords(s, cfg, r, j, stopId);
      xs := [x] + rest;
      assert xs[1..] == rest;
    }
  }

  /** accumulate_exec_time succeeds if and only if the task's next records spell a word. */
  lemma {:induction false} RecognitionIsExact(s: seq<Record>, cfg: Config, i: nat, j: nat, stopId: nat)
    requires i < |s| && cfg.maxInterleavedSkipped == 0
    ensures ExecTime(s, cfg, i, stopId).second == Some(j) <==>
              exists xs: seq<Suspension> :: IsParse(s, cfg, i, xs, j, stopId)
  {
    if ExecTime(s, cfg, i, stopId).second == Some(j) {
      var xs := RecognisedAreWords(s, cfg, i, j, stopId);
      assert IsParse(s, cfg, i, xs, j, stopId);
    } else {
      forall xs: seq<Suspension> | IsParse(s, cfg, i, xs, j, stopId)
        ensures false
      {
        WordsAreRecognised(s, cfg, i, xs, j, stopId);
      }
    }
  }

  /** An interrupt is reported if and only if one is in the way of an executing segment. */
  lemma {:induction false} DisturbanceIsExact(s: seq<Record>, cfg: Config, i: nat, stopId: nat)
    requires i < |s| && cfg.maxInterleavedSkipped == 0
    ensures ExecTime(s, cfg, i, stopId).disturbed <==>
              exists xs: seq<Suspension>, q: nat :: IsDisturbedParse(s, cfg, i, xs, q, stopId)
  {
    if ExecTime(s, cfg, i, stopId).disturbed {
      var xs, q := DisturbedAfter(s, cfg, i, stopId);
      assert IsDisturbedParse(s, cfg, i, xs, q, stopId);
    }
    forall xs: seq<Suspension>, q: nat | IsDisturbedParse(s, cfg, i, xs, q, stopId)
      ensures ExecTime(s, cfg, i, stopId).disturbed
    {
      DisturbanceIsReported(s, cfg, i, xs, q, stopId);
    }
  }

  lemma {:induction false} DisturbedAfter(s: seq<Record>, cfg: Config, i: nat, stopId: nat) returns (xs: seq<Suspension>, q: nat)
    requires i < |s| && cfg.maxInterleavedSkipped == 0 && ExecTime(s, cfg, i, stopId).disturbed
    ensures SpellsUpTo(s, cfg, i, xs, q, stopId)
    decreases |s| - i
  {
    var n := NextPid(s, cfg, i, TS_LOCK_SUSPEND, stopId, true);
    if n.found.None? {
      q := PidDisturbanceIsReal(s, cfg, i, i + 1, TS_LOCK_SUSPEND, stopId, true);
      xs := [];
    } else {
      var p := n.found.value;
      NextPidIsExact(s, cfg, i, p, TS_LOCK_SUSPEND, stopId, true);
      var r := Resumption(s, cfg, p).value;
      var x := ResumptionIsExact(s, cfg, p, r);
      xs, q := DisturbedAfter(s, cfg, r, stopId);
      assert ([x] + xs)[1..] == xs;
      xs := [x] + xs;
    }
  }

  lemma {:induction false} DisturbanceIsReported(s: seq<Record>, cfg: Config, i: nat, xs: seq<Suspension>, q: nat, stopId: nat)
    requires i < |s| && cfg.maxInterleavedSkipped == 0 && SpellsUpTo(s, cfg, i, xs, q, stopId)
    ensures ExecTime(s, cfg, i, stopId).disturbed
    decreases |xs|
  {
    if xs == [] {
      ScanForPidIsExact(s, cfg, i, i + 1, q, TS_LOCK_SUSPEND, stopId, true);
      if NextPid(s, cfg, i, TS_LOCK_SUSPEND, stopId, true).found.Some? {
        }
    } else {
      NextPidIsExact(s, cfg, i, xs[0].suspend, TS_LOCK_SUSPEND, stopId, true);
      SuspensionIsResumed(s, cfg, xs[0]);
      DisturbanceIsReported(s, cfg, xs[0].resume, xs[1..], q, stopId);
    }
  }

  // ---------- Time is conserved ----------

  /** The time spent executing */
  ghost function Executed(s: seq<Record>, cfg: Config, i: nat, xs: seq<Suspension>, j: nat, stopId: nat): int
    requires Spells(s, cfg, i, xs, j, stopId)
    decreases |xs|
  {
    if xs == [] then Time(s, j) - Time(s, i)
    else Time(s, xs[0].suspend) - Time(s, i) + Executed(s, cfg, xs[0].resume, xs[1..], j, stopId)
  }

  /** The time spent suspended */
  ghost function Suspended(s: seq<Record>, xs: seq<Suspension>): int
    requires forall x :: x in xs ==> x.suspend < |s| && x.resume < |s|
  {
    if xs == [] then 0 else Time(s, xs[0].resume) - Time(s, xs[0].suspend) + Suspended(s, xs[1..])
  }

  /** No record goes back in time, and what the request took is what it executed and what it was
      suspended for. */
  lemma {:induction false} TimeIsConserved(s: seq<Record>, cfg: Config, i: nat, xs: seq<Suspension>, j: nat, stopId: nat)
    requires Spells(s, cfg, i, xs, j, stopId)
    ensures i < j < |s| && forall x :: x in xs ==> x.suspend < |s| && x.resume < |s| && Time(s, x.suspend) <= Time(s, x.resume)
    ensures Executed(s, cfg, i, xs, j, stopId) + Suspended(s, xs) == Time(s, j) - Time(s, i)
    ensures Executed(s, cfg, i, xs, j, stopId) >= 0 && Suspended(s, xs) >= 0
    decreases |xs|
  {
    if xs != [] {
      TimeIsConserved(s, cfg, xs[0].resume, xs[1..], j, stopId);
    }
  }

  // ---------- What a request encloses ----------

  /** The events that the language allows between start and end */
  predicate IsSuspensionEvent(e: u8) {
    e == NO_EVENT || e == TS_LOCK_SUSPEND || e == TS_LOCK_RESUME || e == TS_SCHED_START || e == TS_SCHED_END
  }

  /** Between the start and the end of a request, its PID records suspensions only. */
  lemma {:induction false} SuspensionsInBetween(s: seq<Record>, cfg: Config, i: nat, xs: seq<Suspension>, j: nat, stopId: nat, k: nat)
    requires Spells(s, cfg, i, xs, j, stopId) && i < k < j < |s| && s[k].pid == s[i].pid
    ensures IsSuspensionEvent(s[k].event)
    decreases |xs|
  {
    if xs != [] && k > xs[0].resume {
      SuspensionsInBetween(s, cfg, xs[0].resume, xs[1..], j, stopId, k);
    }
  }

  /** The end of a scheduler invocation inside a request is followed by the resumption. */
  lemma {:induction false} SchedEndIsResumed(s: seq<Record>, cfg: Config, i: nat, xs: seq<Suspension>, j: nat, stopId: nat, k: nat)
    returns (r: nat)
    requires Spells(s, cfg, i, xs, j, stopId) && i < k < j < |s| && s[k].pid == s[i].pid && s[k].event == TS_SCHED_END
    ensures IsNextOfPid(s, k, r) && IsEither(s[r].event, TS_LOCK_RESUME, NO_EVENT)
    decreases |xs|
  {
    if k > xs[0].resume {
      r := SchedEndIsResumed(s, cfg, xs[0].resume, xs[1..], j, stopId, k);
    } else {
      r := xs[0].resume;
    }
  }

  lemma {:induction false} EndIsOfPid(s: seq<Record>, cfg: Config, i: nat, xs: seq<Suspension>, j: nat, stopId: nat)
    requires Spells(s, cfg, i, xs, j, stopId)
    ensures i < j < |s| && s[j].pid == s[i].pid && s[j].event == stopId
    decreases |xs|
  {
    if xs != [] {
      EndIsOfPid(s, cfg, xs[0].resume, xs[1..], j, stopId);
    }
  }
}
