/** What the counters of src/ft2csv.c count, as sizes of sets of records. */
module EventCounts {
  import opened Counting
  import opened Options
  import opened Trace
  import opened EventScans
  import opened LockTimes
  import opened EventPairs

  // ---------- What becomes of a start record ----------

  datatype Outcome = Excluded | Complete | NonRealTime | Disturbed | Incomplete

  predicate TakesSuspensions(s: seq<Record>, cfg: Config, k: nat)
    requires k < |s|
  {
    s[k].event >= SUSPENSION_RANGE && cfg.maxInterleavedSkipped == 0
  }

  /** The start record at position k has an end. */
  ghost predicate HasPair(s: seq<Record>, cfg: Config, k: nat) {
    exists j: nat, t: nat {:trigger Pair(k, j, t)} ::
      if cfg.findByPid then IsPairByPid(s, cfg, Pair(k, j, t)) else IsPairById(s, cfg, Pair(k, j, t))
  }

  /** An interrupt is in the way to the next event of the PID. */
  ghost predicate IsDisturbedAt(s: seq<Record>, cfg: Config, k: nat, q: nat)
    requires k < |s|
  {
    IsPidDisturbed(s, cfg, k, k + 1, q, s[k].event + 1, NO_EVENT, true)
  }

  /** An interrupt is in the way from position k to an end. */
  ghost predicate IsInterrupted(s: seq<Record>, cfg: Config, k: nat)
    requires k < |s|
  {
    var id := s[k].event + 1;
    if !cfg.findByPid then exists q: nat :: IsDisturbed(s, cfg, k, s[k].cpu, id, s[k].event, q)
    else if TakesSuspensions(s, cfg, k) then exists xs: seq<Suspension>, q: nat :: IsDisturbedParse(s, cfg, k, xs, q, id)
    else exists q: nat :: IsDisturbedAt(s, cfg, k, q)
  }

  /** Only if best-effort tasks were wanted, too, the record would have an end. */
  ghost predicate IsBestEffort(s: seq<Record>, cfg: Config, k: nat) {
    !cfg.findByPid && !HasPair(s, cfg, k) && HasPair(s, cfg.(wantBestEffort := true), k)
  }

  ghost predicate Ends(s: seq<Record>, cfg: Config, k: nat, o: Outcome)
    requires k < |s|
  {
    if !Wanted(cfg, s[k].cpu) then o == Excluded
    else match o
      case Excluded => false
      case Complete => HasPair(s, cfg, k)
      case NonRealTime => IsBestEffort(s, cfg, k)
      case Disturbed => IsInterrupted(s, cfg, k)
      case Incomplete => !HasPair(s, cfg, k) && !IsBestEffort(s, cfg, k) && !IsInterrupted(s, cfg, k)
  }

  function OutcomeOf(v: Verdict): Outcome {
    match v
    case Avoided => Excluded
    case Paired(_, _) => Complete
    case NotRealTime => NonRealTime
    case Unmatched => Incomplete
    case Interrupted => Disturbed
  }

  ghost function VerdictOf(s: seq<Record>, cfg: Config, k: nat): Verdict
    requires k < |s|
  {
    if cfg.findByPid then AttemptByPid(s, cfg, k).verdict else AttemptById(s, cfg, k).verdict
  }

  lemma {:induction false} PairedIsExact(s: seq<Record>, cfg: Config, k: nat)
    requires k < |s|
    ensures VerdictOf(s, cfg, k).Paired? <==> HasPair(s, cfg, k)
  {
    hide IsPairById, IsPairByPid, AttemptById, AttemptByPid;
    var v := VerdictOf(s, cfg, k);
    forall j: nat, t: nat
      ensures v == Paired(j, t) <==> if cfg.findByPid then IsPairByPid(s, cfg, Pair(k, j, t)) else IsPairById(s, cfg, Pair(k, j, t))
    {
      VerdictIsExact(s, cfg, k, j, t);
    }
    if v.Paired? {
      assert Pair(k, v.second, v.execTime).first == k;
    }
  }

  lemma {:induction false} VerdictIsExact(s: seq<Record>, cfg: Config, k: nat, j: nat, t: nat)
    requires k < |s|
    ensures VerdictOf(s, cfg, k) == Paired(j, t) <==>
              if cfg.findByPid then IsPairByPid(s, cfg, Pair(k, j, t)) else IsPairById(s, cfg, Pair(k, j, t))
  {
    if cfg.findByPid {
      PairingByPidIsExact(s, cfg, k, j, t);
    } else {
      PairingByIdIsExact(s, cfg, k, j, t);
    }
  }

  lemma {:induction false} NonRealTimeIsExact(s: seq<Record>, cfg: Config, k: nat)
    requires k < |s| && !cfg.findByPid
    ensures AttemptById(s, cfg, k).verdict.NotRealTime? <==> IsBestEffort(s, cfg, k)
  {
    var best := cfg.(wantBestEffort := true);
    SameScan(s, cfg, best, k, s[k].cpu, s[k].event + 1, s[k].event);
    PairedIsExact(s, cfg, k);
    PairedIsExact(s, best, k);
  }

  /** The search does not depend on the option for best-effort tasks. */
  lemma {:induction false} SameScan(s: seq<Record>, cfg: Config, cfg': Config, pos: nat, cpu: u8, id: nat, stopId: nat)
    requires pos < |s| && cfg'.wantInterleaved == cfg.wantInterleaved && cfg'.wantInterrupted == cfg.wantInterrupted
    ensures ScanForId(s, cfg, pos, cpu, id, stopId) == ScanForId(s, cfg', pos, cpu, id, stopId)
    decreases |s| - pos
  {
    var n := NextOnCpu(s, pos, cpu);
    if n.Some? {
      SameScan(s, cfg, cfg', n.value, cpu, id, stopId);
    }
  }

  lemma {:induction false} DisturbedByIdIsExact(s: seq<Record>, cfg: Config, k: nat)
    requires k < |s| && !cfg.findByPid
    ensures AttemptById(s, cfg, k).verdict.Interrupted? <==> IsInterrupted(s, cfg, k)
  {
    hide ScanForId;
    var cpu, id, stopId := s[k].cpu, s[k].event + 1, s[k].event;
    forall q: nat | IsDisturbed(s, cfg, k, cpu, id, stopId, q)
      ensures NextId(s, cfg, k, cpu, id, stopId).disturbed
    {
      NextIdIsExact(s, cfg, k, cpu, id, stopId, q);
    }
    if NextId(s, cfg, k, cpu, id, stopId).disturbed {
      var q := DisturbanceIsReal(s, cfg, k, cpu, id, stopId);
    }
  }

  lemma {:induction false} DisturbedByPidIsExact(s: seq<Record>, cfg: Config, k: nat)
    requires k < |s| && cfg.findByPid
    ensures AttemptByPid(s, cfg, k).verdict.Interrupted? <==> IsInterrupted(s, cfg, k)
  {
    hide ExecTime, ScanForPid, IsPidDisturbed;
    var id := s[k].event + 1;
    if TakesSuspensions(s, cfg, k) {
      DisturbanceIsExact(s, cfg, k, id);
      if ExecTime(s, cfg, k, id).disturbed {
        NoEndIfDisturbed(s, cfg, k, id);
      }
    } else {
      forall q: nat | IsDisturbedAt(s, cfg, k, q)
        ensures NextPid(s, cfg, k, id, NO_EVENT, true).disturbed
      {
        ScanForPidIsExact(s, cfg, k, k + 1, q, id, NO_EVENT, true);
      }
      if NextPid(s, cfg, k, id, NO_EVENT, true).disturbed {
        var q := PidDisturbanceIsReal(s, cfg, k, k + 1, id, NO_EVENT, true);
        assert IsDisturbedAt(s, cfg, k, q);
      }
    }
  }

  lemma {:induction false} NoEndIfDisturbed(s: seq<Record>, cfg: Config, pos: nat, stopId: nat)
    requires pos < |s| && ExecTime(s, cfg, pos, stopId).disturbed
    ensures ExecTime(s, cfg, pos, stopId).second.None?
    decreases |s| - pos
  {
    var n := NextPid(s, cfg, pos, TS_LOCK_SUSPEND, stopId, true);
    if n.found.Some? && Time(s, pos) <= Time(s, n.found.value) {
      var r := Resumption(s, cfg, n.found.value);
      if r.Some? {
        NoEndIfDisturbed(s, cfg, r.value, stopId);
      }
    }
  }

  lemma {:induction false} OutcomeIsExact(s: seq<Record>, cfg: Config, k: nat, o: Outcome)
    requires k < |s|
    ensures Ends(s, cfg, k, o) <==> OutcomeOf(AttemptAt(s, cfg, k).verdict) == o
  {
    hide HasPair, IsInterrupted, IsBestEffort, ScanForId, ExecTime, NextPid, NextId;
    PairedIsExact(s, cfg, k);
    if cfg.findByPid {
      DisturbedByPidIsExact(s, cfg, k);
      NeverNonRealTime(s, cfg, k);
    } else {
      DisturbedByIdIsExact(s, cfg, k);
      NonRealTimeIsExact(s, cfg, k);
    }
  }

  lemma {:induction false} NeverNonRealTime(s: seq<Record>, cfg: Config, k: nat)
    requires k < |s| && cfg.findByPid
    ensures !AttemptByPid(s, cfg, k).verdict.NotRealTime? && !IsBestEffort(s, cfg, k)
  {
  }

  // ---------- Interleaved records, and flagged ends ----------

  /** Position j has the end that the search by event id comes to, whether or not it is accepted. */
  ghost predicate IsEndById(s: seq<Record>, cfg: Config, k: nat, j: nat)
    requires k < |s|
  {
    Reaches(s, cfg, k, s[k].cpu, s[k].event + 1, s[k].event, j) && s[j].event == s[k].event + 1
  }

  /** The search from position k passes over position r of the same CPU, and comes to an end. */
  ghost predicate IsInterleaved(s: seq<Record>, cfg: Config, k: nat, r: nat)
    requires k < |s|
  {
    !cfg.findByPid && k < r < |s| && s[r].cpu == s[k].cpu && exists j: nat :: r < j && IsEndById(s, cfg, k, j)
  }

  ghost function OnCpuBetween(s: seq<Record>, cpu: u8, i: nat, j: nat): set<nat>
    requires j <= |s|
  {
    set r: nat | i < r < j && s[r].cpu == cpu
  }

  lemma {:induction false} ScanForIdIsExact(s: seq<Record>, cfg: Config, pos: nat, cpu: u8, id: nat, stopId: nat, j: nat)
    requires pos < |s|
    ensures ScanForId(s, cfg, pos, cpu, id, stopId).found == Some(j) <==>
              Reaches(s, cfg, pos, cpu, id, stopId, j) && s[j].event == id
    decreases |s| - pos
  {
    if Reaches(s, cfg, pos, cpu, id, stopId, j) {
      ReachesFirst(s, cfg, pos, cpu, id, stopId, j);
    }
    var n := NextOnCpu(s, pos, cpu);
    if n.Some? {
      assert IsNextOnCpu(s, pos, cpu, n.value);
      if Passed(cfg, s[n.value], cpu, id, stopId) {
        ScanForIdIsExact(s, cfg, n.value, cpu, id, stopId, j);
        ReachesOver(s, cfg, pos, cpu, id, stopId, n.value, j);
      }
    }
  }

  lemma {:induction false} RestartsAreInBetween(s: seq<Record>, cfg: Config, pos: nat, cpu: u8, id: nat, stopId: nat)
    requires pos < |s|
    ensures var r := ScanForId(s, cfg, pos, cpu, id, stopId);
            r.found.Some? ==> && r.restarts == |OnCpuBetween(s, cpu, pos, r.found.value)|
                              && r.irqs == if s[r.found.value].irqFlag then 1 else 0
    decreases |s| - pos
  {
    var r := ScanForId(s, cfg, pos, cpu, id, stopId);
    if r.found.Some? {
      var n, j := NextOnCpu(s, pos, cpu).value, r.found.value;
      assert IsNextOnCpu(s, pos, cpu, n);
      if n == j {
        assert OnCpuBetween(s, cpu, pos, j) == {};
      } else {
        RestartsAreInBetween(s, cfg, n, cpu, id, stopId);
        assert OnCpuBetween(s, cpu, pos, j) == OnCpuBetween(s, cpu, n, j) + {n};
      }
    }
  }

  // ---------- Flagged records by PID ----------

  /** next_pid comes from position first across a flagged record of its CPU at position r. */
  ghost predicate IsFlagFrom(s: seq<Record>, cfg: Config, first: nat, i: nat, r: nat, id1: nat, id2: nat) {
    ReachesForPid(s, cfg, first, i, r, id1, id2, true) && s[r].cpu == s[first].cpu && s[r].irqFlag
  }

  ghost function FlagsFrom(s: seq<Record>, cfg: Config, first: nat, i: nat, id1: nat, id2: nat): set<nat> {
    set r: nat | r < |s| && IsFlagFrom(s, cfg, first, i, r, id1, id2)
  }

  /** The flagged records from position i on: the one there, and the later ones if the search goes on. */
  lemma {:induction false} FlagsOneMore(s: seq<Record>, cfg: Config, first: nat, i: nat, id1: nat, id2: nat)
    requires first < i < |s| && s[i].seqNo == Next(s[i-1].seqNo)
    ensures var here: set<nat> := if s[i].cpu == s[first].cpu && s[i].irqFlag then {i} else {};
            var later := if PassedForPid(s, cfg, first, i, id1, id2, true) then FlagsFrom(s, cfg, first, i + 1, id1, id2) else {};
            FlagsFrom(s, cfg, first, i, id1, id2) == here + later && here !! later
  {
    hide PassedForPid, ReachesForPid;
    FlagHere(s, cfg, first, i, id1, id2);
    forall r: nat
      ensures r != i && PassedForPid(s, cfg, first, i, id1, id2, true) ==>
                (IsFlagFrom(s, cfg, first, i, r, id1, id2) <==> IsFlagFrom(s, cfg, first, i + 1, r, id1, id2))
      ensures r < i ==> !IsFlagFrom(s, cfg, first, i, r, id1, id2)
      ensures r <= i ==> !IsFlagFrom(s, cfg, first, i + 1, r, id1, id2)
    {
      FlagLater(s, cfg, first, i, r, id1, id2);
    }
  }

  lemma {:induction false} FlagLater(s: seq<Record>, cfg: Config, first: nat, i: nat, r: nat, id1: nat, id2: nat)
    requires first < i < |s| && s[i].seqNo == Next(s[i-1].seqNo)
    ensures r != i && PassedForPid(s, cfg, first, i, id1, id2, true) ==>
              (IsFlagFrom(s, cfg, first, i, r, id1, id2) <==> IsFlagFrom(s, cfg, first, i + 1, r, id1, id2))
    ensures r < i ==> !IsFlagFrom(s, cfg, first, i, r, id1, id2)
    ensures r <= i ==> !IsFlagFrom(s, cfg, first, i + 1, r, id1, id2)
  {
    if PassedForPid(s, cfg, first, i, id1, id2, true) {
      ReachesForPidOver(s, cfg, first, i, r, id1, id2, true);
    }
  }

  lemma {:induction false} IrqsAreFlags(s: seq<Record>, cfg: Config, first: nat, i: nat, id1: nat, id2: nat)
    requires first < i <= |s|
    ensures ScanForPid(s, cfg, first, i, id1, id2, true).irqs == |FlagsFrom(s, cfg, first, i, id1, id2)|
    decreases |s| - i
  {
    hide FlagsFrom;
    if i == |s| || s[i].seqNo != Next(s[i-1].seqNo) {
      NoFlags(s, cfg, first, i, id1, id2);
    } else {
      FlagsOneMore(s, cfg, first, i, id1, id2);
      if PassedForPid(s, cfg, first, i, id1, id2, true) {
        IrqsAreFlags(s, cfg, first, i + 1, id1, id2);
      }
    }
  }

  lemma {:induction false} NoFlags(s: seq<Record>, cfg: Config, first: nat, i: nat, id1: nat, id2: nat)
    requires first < i <= |s| && (i == |s| || s[i].seqNo != Next(s[i-1].seqNo))
    ensures FlagsFrom(s, cfg, first, i, id1, id2) == {}
  {
  }

  lemma {:induction false} FlagHere(s: seq<Record>, cfg: Config, first: nat, i: nat, id1: nat, id2: nat)
    requires first < i < |s| && s[i].seqNo == Next(s[i-1].seqNo)
    ensures IsFlagFrom(s, cfg, first, i, i, id1, id2) <==> s[i].cpu == s[first].cpu && s[i].irqFlag
    ensures !PassedForPid(s, cfg, first, i, id1, id2, true) ==> forall r :: r > i ==> !IsFlagFrom(s, cfg, first, i, r, id1, id2)
  {
  }

  /** After suspensions xs, the task is resumed at position p. */
  ghost predicate ResumesAt(s: seq<Record>, cfg: Config, i: nat, xs: seq<Suspension>, p: nat, stopId: nat)
    decreases |xs|
  {
    if xs == [] then p == i
    else Suspends(s, cfg, i, xs[0], stopId) && ResumesAt(s, cfg, xs[0].resume, xs[1..], p, stopId)
  }

  /** ... and a flagged record of its CPU follows at position r before the task's next event. */
  ghost predicate IsFlagAfter(s: seq<Record>, cfg: Config, i: nat, xs: seq<Suspension>, p: nat, r: nat, stopId: nat) {
    ResumesAt(s, cfg, i, xs, p, stopId) && IsFlagFrom(s, cfg, p, p + 1, r, TS_LOCK_SUSPEND, stopId)
  }

  ghost predicate IsFlagInRequest(s: seq<Record>, cfg: Config, i: nat, r: nat, stopId: nat) {
    exists xs: seq<Suspension>, p: nat :: IsFlagAfter(s, cfg, i, xs, p, r, stopId)
  }

  ghost function FlagsInRequest(s: seq<Record>, cfg: Config, i: nat, stopId: nat): set<nat> {
    set r: nat | r < |s| && IsFlagInRequest(s, cfg, i, r, stopId)
  }

  /** What the recogniser makes of the next suspension */
  lemma {:induction false} SuspendsIsFound(s: seq<Record>, cfg: Config, i: nat, x: Suspension, stopId: nat)
    requires cfg.maxInterleavedSkipped == 0 && Suspends(s, cfg, i, x, stopId)
    ensures i < x.suspend < x.resume < |s| && NextPid(s, cfg, i, TS_LOCK_SUSPEND, stopId, true).found == Some(x.suspend)
    ensures Time(s, i) <= Time(s, x.suspend) && s[x.suspend].event != stopId && Resumption(s, cfg, x.suspend) == Some(x.resume)
  {
    NextPidIsExact(s, cfg, i, x.suspend, TS_LOCK_SUSPEND, stopId, true);
    SuspensionIsResumed(s, cfg, x);
  }

  /** Where the task resumes next, if the recogniser goes on from position i. */
  ghost function ResumedAt(s: seq<Record>, cfg: Config, i: nat, stopId: nat): (r: Option<nat>)
    requires i < |s|
    ensures r.Some? ==> i < r.value < |s|
  {
    var p := NextPid(s, cfg, i, TS_LOCK_SUSPEND, stopId, true).found;
    if p.None? || Time(s, p.value) < Time(s, i) || s[p.value].event == stopId then None
    else Resumption(s, cfg, p.value)
  }

  lemma {:induction false} NextSuspension(s: seq<Record>, cfg: Config, i: nat, stopId: nat) returns (x: Suspension)
    requires i < |s| && cfg.maxInterleavedSkipped == 0 && ResumedAt(s, cfg, i, stopId).Some?
    ensures Suspends(s, cfg, i, x, stopId) && Some(x.resume) == ResumedAt(s, cfg, i, stopId)
    ensures NextPid(s, cfg, i, TS_LOCK_SUSPEND, stopId, true).found == Some(x.suspend)
  {
    var p := NextPid(s, cfg, i, TS_LOCK_SUSPEND, stopId, true).found.value;
    NextPidIsExact(s, cfg, i, p, TS_LOCK_SUSPEND, stopId, true);
    x := ResumptionIsExact(s, cfg, p, Resumption(s, cfg, p).value);
  }

  /** The flagged records of a request: those before the task's next event, and those after it is resumed. */
  lemma {:induction false} FlagInRequest(s: seq<Record>, cfg: Config, i: nat, r: nat, stopId: nat)
    requires i < |s| && cfg.maxInterleavedSkipped == 0
    ensures var n := ResumedAt(s, cfg, i, stopId);
            IsFlagInRequest(s, cfg, i, r, stopId) <==>
              || IsFlagFrom(s, cfg, i, i + 1, r, TS_LOCK_SUSPEND, stopId)
              || (n.Some? && IsFlagInRequest(s, cfg, n.value, r, stopId))
  {
    hide IsFlagFrom, Suspends, ResumedAt;
    var n := ResumedAt(s, cfg, i, stopId);
    if IsFlagFrom(s, cfg, i, i + 1, r, TS_LOCK_SUSPEND, stopId) {
      assert IsFlagAfter(s, cfg, i, [], i, r, stopId);
    }
    if n.Some? && IsFlagInRequest(s, cfg, n.value, r, stopId) {
      var xs: seq<Suspension>, p: nat :| IsFlagAfter(s, cfg, n.value, xs, p, r, stopId);
      var x := NextSuspension(s, cfg, i, stopId);
      assert ([x] + xs)[1..] == xs;
      assert IsFlagAfter(s, cfg, i, [x] + xs, p, r, stopId);
    }
    if IsFlagInRequest(s, cfg, i, r, stopId) {
      var xs: seq<Suspension>, p: nat :| IsFlagAfter(s, cfg, i, xs, p, r, stopId);
      if xs != [] {
        SuspendsIsResumed(s, cfg, i, xs[0], stopId);
        assert IsFlagAfter(s, cfg, xs[0].resume, xs[1..], p, r, stopId);
      }
    }
  }

  lemma {:induction false} SuspendsIsResumed(s: seq<Record>, cfg: Config, i: nat, x: Suspension, stopId: nat)
    requires i < |s| && cfg.maxInterleavedSkipped == 0 && Suspends(s, cfg, i, x, stopId)
    ensures ResumedAt(s, cfg, i, stopId) == Some(x.resume)
  {
    SuspendsIsFound(s, cfg, i, x, stopId);
  }

  /** Each record is counted once. */
  lemma {:induction false} FlagsAreApart(s: seq<Record>, cfg: Config, i: nat, r: nat, stopId: nat)
    requires i < |s| && cfg.maxInterleavedSkipped == 0 && ResumedAt(s, cfg, i, stopId).Some?
    requires IsFlagFrom(s, cfg, i, i + 1, r, TS_LOCK_SUSPEND, stopId)
    ensures r < ResumedAt(s, cfg, i, stopId).value
  {
    hide ResumedAt;
    var x := NextSuspension(s, cfg, i, stopId);
    assert IsNextOfPid(s, i, x.suspend) && IsSuspension(s, x);
    assert !PassedForPid(s, cfg, i, x.suspend, TS_LOCK_SUSPEND, stopId, true);
    SuspendsIsFound(s, cfg, i, x, stopId);
  }

  lemma {:induction false} FlagIsLater(s: seq<Record>, cfg: Config, i: nat, r: nat, stopId: nat)
    requires i < |s| && cfg.maxInterleavedSkipped == 0 && IsFlagInRequest(s, cfg, i, r, stopId)
    ensures i < r < |s|
    decreases |s| - i
  {
    FlagInRequest(s, cfg, i, r, stopId);
    if !IsFlagFrom(s, cfg, i, i + 1, r, TS_LOCK_SUSPEND, stopId) {
      FlagIsLater(s, cfg, ResumedAt(s, cfg, i, stopId).value, r, stopId);
    }
  }

  lemma {:induction false} RequestFlagsSplit(s: seq<Record>, cfg: Config, i: nat, stopId: nat)
    requires i < |s| && cfg.maxInterleavedSkipped == 0
    ensures var n := ResumedAt(s, cfg, i, stopId);
            var here, later := FlagsFrom(s, cfg, i, i + 1, TS_LOCK_SUSPEND, stopId),
                               if n.Some? then FlagsInRequest(s, cfg, n.value, stopId) else {};
            FlagsInRequest(s, cfg, i, stopId) == here + later && here !! later
  {
    hide IsFlagInRequest, IsFlagFrom, ResumedAt;
    var n := ResumedAt(s, cfg, i, stopId);
    forall r: nat | r < |s|
      ensures IsFlagInRequest(s, cfg, i, r, stopId) <==>
                || IsFlagFrom(s, cfg, i, i + 1, r, TS_LOCK_SUSPEND, stopId)
                || (n.Some? && IsFlagInRequest(s, cfg, n.value, r, stopId))
      ensures n.Some? ==> !(IsFlagFrom(s, cfg, i, i + 1, r, TS_LOCK_SUSPEND, stopId) && IsFlagInRequest(s, cfg, n.value, r, stopId))
    {
      FlagInRequest(s, cfg, i, r, stopId);
      if n.Some? && IsFlagFrom(s, cfg, i, i + 1, r, TS_LOCK_SUSPEND, stopId) && IsFlagInRequest(s, cfg, n.value, r, stopId) {
        FlagsAreApart(s, cfg, i, r, stopId);
        FlagIsLater(s, cfg, n.value, r, stopId);
      }
    }
  }

  lemma {:induction false} RequestIrqsAreFlags(s: seq<Record>, cfg: Config, i: nat, stopId: nat)
    requires i < |s| && cfg.maxInterleavedSkipped == 0
    ensures ExecTime(s, cfg, i, stopId).irqs == |FlagsInRequest(s, cfg, i, stopId)|
    decreases |s| - i
  {
    hide FlagsInRequest, FlagsFrom, ScanForPid, Resumption;
    IrqsAreFlags(s, cfg, i, i + 1, TS_LOCK_SUSPEND, stopId);
    RequestFlagsSplit(s, cfg, i, stopId);
    var n := ResumedAt(s, cfg, i, stopId);
    if n.Some? {
      RequestIrqsAreFlags(s, cfg, n.value, stopId);
    }
  }

  // ---------- The counters of a whole trace ----------

  /** A flagged record that counts as an interrupt for the start record at position k: its end, if the
      search goes by event id; otherwise a record of its CPU that the search by PID comes across, as far as
      the task executes. */
  ghost predicate IsInterrupt(s: seq<Record>, cfg: Config, k: nat, r: nat)
    requires k < |s|
  {
    var id := s[k].event + 1;
    if !cfg.findByPid then IsEndById(s, cfg, k, r) && s[r].irqFlag
    else if TakesSuspensions(s, cfg, k) then IsFlagInRequest(s, cfg, k, r, id)
    else IsFlagFrom(s, cfg, k, k + 1, r, id, NO_EVENT)
  }

  ghost function InterruptsOf(s: seq<Record>, cfg: Config, k: nat): set<nat>
    requires k < |s|
  {
    set r: nat | r < |s| && IsInterrupt(s, cfg, k, r)
  }

  ghost function InterleavedOf(s: seq<Record>, cfg: Config, k: nat): set<nat>
    requires k < |s|
  {
    set r: nat | r < |s| && IsInterleaved(s, cfg, k, r)
  }

  lemma {:induction false} CostByIdIsExact(s: seq<Record>, cfg: Config, k: nat)
    requires k < |s| && !cfg.findByPid
    ensures AttemptById(s, cfg, k).irqs == |InterruptsOf(s, cfg, k)|
    ensures AttemptById(s, cfg, k).restarts == |InterleavedOf(s, cfg, k)|
  {
    hide Reaches;
    var cpu, id, stopId := s[k].cpu, s[k].event + 1, s[k].event;
    var scan := ScanForId(s, cfg, k, cpu, id, stopId);
    forall j: nat
      ensures scan.found == Some(j) <==> IsEndById(s, cfg, k, j)
    {
      ScanForIdIsExact(s, cfg, k, cpu, id, stopId, j);
    }
    RestartsAreInBetween(s, cfg, k, cpu, id, stopId);
    if scan.found.Some? {
      var j := scan.found.value;
      assert InterruptsOf(s, cfg, k) == if s[j].irqFlag then {j} else {};
      assert InterleavedOf(s, cfg, k) == OnCpuBetween(s, cpu, k, j);
    } else {
      assert InterruptsOf(s, cfg, k) == {} == InterleavedOf(s, cfg, k);
    }
  }

  lemma {:induction false} CostByPidIsExact(s: seq<Record>, cfg: Config, k: nat)
    requires k < |s| && cfg.findByPid
    ensures AttemptByPid(s, cfg, k).irqs == |InterruptsOf(s, cfg, k)|
    ensures AttemptByPid(s, cfg, k).restarts == |InterleavedOf(s, cfg, k)|
  {
    hide ExecTime, ScanForPid, IsFlagInRequest, IsFlagFrom;
    var id := s[k].event + 1;
    assert InterleavedOf(s, cfg, k) == {};
    if TakesSuspensions(s, cfg, k) {
      RequestIrqsAreFlags(s, cfg, k, id);
      assert InterruptsOf(s, cfg, k) == FlagsInRequest(s, cfg, k, id);
    } else {
      IrqsAreFlags(s, cfg, k, k + 1, id, NO_EVENT);
      assert InterruptsOf(s, cfg, k) == FlagsFrom(s, cfg, k, k + 1, id, NO_EVENT);
    }
  }

  ghost predicate IsStartThat(s: seq<Record>, cfg: Config, id: nat, k: nat, o: Outcome)
    requires k < |s|
  {
    s[k].event == id && Ends(s, cfg, k, o)
  }

  /** The start records from position i up to position j that end in a certain way */
  ghost function StartsThat(s: seq<Record>, cfg: Config, id: nat, i: nat, j: nat, o: Outcome): set<nat>
    requires j <= |s|
  {
    set k: nat | i <= k < j && IsStartThat(s, cfg, id, k, o)
  }

  /** A start record that is considered */
  ghost predicate IsTried(s: seq<Record>, cfg: Config, id: nat, k: nat)
    requires k < |s|
  {
    s[k].event == id && Wanted(cfg, s[k].cpu)
  }

  /** The interrupts of the start records from position i up to position j, as pairs of positions */
  ghost function AllInterrupts(s: seq<Record>, cfg: Config, id: nat, i: nat, j: nat): set<(nat, nat)>
    requires j <= |s|
  {
    set k: nat, r: nat | i <= k < j && IsTried(s, cfg, id, k) && r < |s| && IsInterrupt(s, cfg, k, r) :: (k, r)
  }

  /** ... and the interleaved records */
  ghost function AllInterleaved(s: seq<Record>, cfg: Config, id: nat, i: nat, j: nat): set<(nat, nat)>
    requires j <= |s|
  {
    set k: nat, r: nat | i <= k < j && IsTried(s, cfg, id, k) && r < |s| && IsInterleaved(s, cfg, k, r) :: (k, r)
  }

  lemma {:induction false} StartsWith(s: seq<Record>, cfg: Config, id: nat, i: nat, j: nat, o: Outcome)
    requires i <= j < |s|
    ensures var before := StartsThat(s, cfg, id, i, j, o);
            && j !in before
            && StartsThat(s, cfg, id, i, j + 1, o) == if IsStartThat(s, cfg, id, j, o) then before + {j} else before
  {
    hide IsStartThat;
  }

  lemma {:induction false} StartsOneMore(s: seq<Record>, cfg: Config, id: nat, i: nat, j: nat, o: Outcome)
    requires i <= j < |s|
    ensures |StartsThat(s, cfg, id, i, j + 1, o)| == |StartsThat(s, cfg, id, i, j, o)| + if IsStartThat(s, cfg, id, j, o) then 1 else 0
  {
    hide StartsThat, IsStartThat;
    StartsWith(s, cfg, id, i, j, o);
  }

  lemma {:induction false} InterruptsWith(s: seq<Record>, cfg: Config, id: nat, i: nat, j: nat)
    requires i <= j < |s|
    ensures var before, here := AllInterrupts(s, cfg, id, i, j), PairedWith(j, InterruptsOf(s, cfg, j));
            && before !! here
            && AllInterrupts(s, cfg, id, i, j + 1) == if IsTried(s, cfg, id, j) then before + here else before
  {
    hide IsInterrupt, IsTried;
  }

  lemma {:induction false} InterleavedWith(s: seq<Record>, cfg: Config, id: nat, i: nat, j: nat)
    requires i <= j < |s|
    ensures var before, here := AllInterleaved(s, cfg, id, i, j), PairedWith(j, InterleavedOf(s, cfg, j));
            && before !! here
            && AllInterleaved(s, cfg, id, i, j + 1) == if IsTried(s, cfg, id, j) then before + here else before
  {
    hide IsInterleaved, IsTried;
  }

  lemma {:induction false} OnTheWayOneMore(s: seq<Record>, cfg: Config, id: nat, i: nat, j: nat)
    requires i <= j < |s|
    ensures |AllInterrupts(s, cfg, id, i, j + 1)| ==
              |AllInterrupts(s, cfg, id, i, j)| + if IsTried(s, cfg, id, j) then |InterruptsOf(s, cfg, j)| else 0
    ensures |AllInterleaved(s, cfg, id, i, j + 1)| ==
              |AllInterleaved(s, cfg, id, i, j)| + if IsTried(s, cfg, id, j) then |InterleavedOf(s, cfg, j)| else 0
  {
    hide AllInterrupts, AllInterleaved, InterruptsOf, InterleavedOf, PairedWith, IsTried;
    InterruptsWith(s, cfg, id, i, j);
    InterleavedWith(s, cfg, id, i, j);
    PairedSize(j, InterruptsOf(s, cfg, j));
    PairedSize(j, InterleavedOf(s, cfg, j));
  }

  lemma {:induction false} CostIsExact(s: seq<Record>, cfg: Config, k: nat)
    requires k < |s|
    ensures var a := AttemptAt(s, cfg, k);
            if Wanted(cfg, s[k].cpu) then a.irqs == |InterruptsOf(s, cfg, k)| && a.restarts == |InterleavedOf(s, cfg, k)|
            else a.irqs == a.restarts == 0
  {
    hide AttemptById, AttemptByPid;
    if cfg.findByPid {
      CostByPidIsExact(s, cfg, k);
    } else {
      CostByIdIsExact(s, cfg, k);
    }
  }

  /** Each counter counts the start records that end in one way, and two of them the interrupts and the
      interleaved records on the way. */
  ghost predicate AreCounts(s: seq<Record>, cfg: Config, id: nat, i: nat, j: nat, t: Totals)
    requires j <= |s|
  {
    && t.complete == |StartsThat(s, cfg, id, i, j, Complete)|
    && t.incomplete == |StartsThat(s, cfg, id, i, j, Incomplete)|
    && t.nonRt == |StartsThat(s, cfg, id, i, j, NonRealTime)|
    && t.avoided == |StartsThat(s, cfg, id, i, j, Excluded)|
    && t.interrupted == |AllInterrupts(s, cfg, id, i, j)|
    && t.interleaved == |AllInterleaved(s, cfg, id, i, j)|
  }

  /** The counters of the program count just that. */
  lemma {:induction false} TotalsAreCounts(s: seq<Record>, cfg: Config, id: nat, i: nat, j: nat)
    requires i <= j <= |s|
    ensures AreCounts(s, cfg, id, i, j, TotalsIn(s, cfg, id, i, j))
    decreases j
  {
    hide AreCounts;
    if i == j {
      NothingCounted(s, cfg, id, i);
    } else {
      TotalsAreCounts(s, cfg, id, i, j - 1);
      OneMoreCounted(s, cfg, id, i, j - 1);
    }
  }

  lemma {:induction false} NothingCounted(s: seq<Record>, cfg: Config, id: nat, i: nat)
    requires i <= |s|
    ensures AreCounts(s, cfg, id, i, i, NOTHING)
  {
    assert forall o :: StartsThat(s, cfg, id, i, i, o) == {};
    assert AllInterrupts(s, cfg, id, i, i) == {} == AllInterleaved(s, cfg, id, i, i);
  }

  lemma {:induction false} OneMoreCounted(s: seq<Record>, cfg: Config, id: nat, i: nat, j: nat)
    requires i <= j < |s| && AreCounts(s, cfg, id, i, j, TotalsIn(s, cfg, id, i, j))
    ensures AreCounts(s, cfg, id, i, j + 1, TotalsIn(s, cfg, id, i, j + 1))
  {
    hide Ends, StartsThat, AllInterrupts, AllInterleaved, InterruptsOf, InterleavedOf, Wanted, AttemptAt;
    forall o
      ensures |StartsThat(s, cfg, id, i, j + 1, o)| ==
                |StartsThat(s, cfg, id, i, j, o)| + if IsStartThat(s, cfg, id, j, o) then 1 else 0
      ensures Ends(s, cfg, j, o) <==> OutcomeOf(AttemptAt(s, cfg, j).verdict) == o
    {
      StartsOneMore(s, cfg, id, i, j, o);
      OutcomeIsExact(s, cfg, j, o);
    }
    OnTheWayOneMore(s, cfg, id, i, j);
    CostIsExact(s, cfg, j);
  }
}
