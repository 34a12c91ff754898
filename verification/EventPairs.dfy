/** The pairs of start and end records that src/ft2csv.c reports, and what it counts. */
module EventPairs {
  import opened Options
  import opened Trace
  import opened EventScans
  import opened LockTimes

  /** The positions of the two records of a pair and the reported time */
  datatype Pair = Pair(first: nat, second: nat, execTime: nat)

  datatype Verdict =
    | Avoided
    | Paired(second: nat, execTime: nat)
    | NotRealTime
    | Unmatched
    | Interrupted

  /** What becomes of a start record, with the flagged and the interleaved records that are counted */
  datatype Attempt = Attempt(verdict: Verdict, irqs: nat, restarts: nat)

  // ---------- Matching by event id ----------

  ghost function AttemptById(s: seq<Record>, cfg: Config, i: nat): (r: Attempt)
    requires i < |s|
    ensures r.verdict.Paired? ==> i < r.verdict.second < |s|
  {
    var scan := ScanForId(s, cfg, i, s[i].cpu, s[i].event + 1, s[i].event);
    match scan.found
    case None => Attempt(if scan.disturbed then Interrupted else Unmatched, 0, 0)
    case Some(j) =>
      Attempt(if !Tolerated(cfg, s[j]) then Interrupted
              else if Time(s, j) <= Time(s, i) then Unmatched
              else if s[i].taskType != TSK_RT && s[j].taskType != TSK_RT && !cfg.wantBestEffort then NotRealTime
              else Paired(j, Time(s, j) - Time(s, i)),
              scan.irqs, scan.restarts)
  }

  /** A pair of a start and an end record of one CPU: consecutive sequence numbers from the first to
      the second, neither id of the CPU in between, and nothing that the options rule out. */
  ghost predicate IsPairById(s: seq<Record>, cfg: Config, p: Pair) {
    && p.first < p.second < |s| && Consecutive(s, p.first, p.second)
    && var first, second := s[p.first], s[p.second];
    && second.cpu == first.cpu && second.event == first.event + 1 && (cfg.wantInterrupted || !second.irqFlag)
    && (forall k :: p.first < k < p.second && s[k].cpu == first.cpu ==>
          && s[k].event != first.event && s[k].event != first.event + 1
          && cfg.wantInterleaved && (cfg.wantInterrupted || !s[k].irqFlag))
    && Time(s, p.first) < Time(s, p.second) && p.execTime == Time(s, p.second) - Time(s, p.first)
    && (first.taskType == TSK_RT || second.taskType == TSK_RT || cfg.wantBestEffort)
  }

  lemma {:induction false} PairingByIdIsExact(s: seq<Record>, cfg: Config, i: nat, j: nat, t: nat)
    requires i < |s|
    ensures AttemptById(s, cfg, i).verdict == Paired(j, t) <==> IsPairById(s, cfg, Pair(i, j, t))
  {
    var cpu, id, stopId := s[i].cpu, s[i].event + 1, s[i].event;
    NextIdIsExact(s, cfg, i, cpu, id, stopId, j);
    if IsPairById(s, cfg, Pair(i, j, t)) {
      assert Reaches(s, cfg, i, cpu, id, stopId, j);
    }
  }

  // ---------- Matching by PID ----------

  ghost function AttemptByPid(s: seq<Record>, cfg: Config, i: nat): (r: Attempt)
    requires i < |s|
    ensures r.verdict.Paired? ==> i < r.verdict.second < |s|
  {
    if s[i].event >= SUSPENSION_RANGE && cfg.maxInterleavedSkipped == 0 then
      var e := ExecTime(s, cfg, i, s[i].event + 1);
      Attempt(if e.second.Some? then Paired(e.second.value, e.sum)
              else if e.disturbed then Interrupted else Unmatched, e.irqs, 0)
    else
      var scan := NextPid(s, cfg, i, s[i].event + 1, NO_EVENT, true);
      Attempt(if scan.found.Some? && Time(s, i) < Time(s, scan.found.value) then
                Paired(scan.found.value, Time(s, scan.found.value) - Time(s, i))
              else if scan.disturbed then Interrupted else Unmatched, scan.irqs, 0)
  }

  /** The request from i to j took time t without its suspensions. */
  ghost predicate IsParseOf(s: seq<Record>, cfg: Config, i: nat, xs: seq<Suspension>, j: nat, t: nat)
    requires i < |s|
  {
    var stopId := s[i].event + 1;
    IsParse(s, cfg, i, xs, j, stopId) && t == Executed(s, cfg, i, xs, j, stopId)
  }

  /** A lock event and its end are paired if and only if the task's records in between spell
      suspensions, and the reported time is the time without them. Another event is paired with the
      next end of the same task that may be matched, if it is later. */
  lemma {:induction false} PairingByPidIsExact(s: seq<Record>, cfg: Config, i: nat, j: nat, t: nat)
    requires i < |s|
    ensures AttemptByPid(s, cfg, i).verdict == Paired(j, t) <==>
              if s[i].event >= SUSPENSION_RANGE && cfg.maxInterleavedSkipped == 0 then
                exists xs: seq<Suspension> :: IsParseOf(s, cfg, i, xs, j, t)
              else
                && IsPidMatch(s, cfg, i, i + 1, j, s[i].event + 1, NO_EVENT, true)
                && Time(s, i) < Time(s, j) && t == Time(s, j) - Time(s, i)
  {
    var stopId := s[i].event + 1;
    if s[i].event >= SUSPENSION_RANGE && cfg.maxInterleavedSkipped == 0 {
      if AttemptByPid(s, cfg, i).verdict == Paired(j, t) {
        var xs := RecognisedAreWords(s, cfg, i, j, stopId);
        WordsAreRecognised(s, cfg, i, xs, j, stopId);
        assert IsParseOf(s, cfg, i, xs, j, t);
      }
      forall xs: seq<Suspension> | IsParseOf(s, cfg, i, xs, j, t)
        ensures AttemptByPid(s, cfg, i).verdict == Paired(j, t)
      {
        WordsAreRecognised(s, cfg, i, xs, j, stopId);
      }
    } else {
      ScanForPidIsExact(s, cfg, i, i + 1, j, stopId, NO_EVENT, true);
    }
  }

  /** A reported time is never longer than the time between the two records. */
  lemma {:induction false} ExecTimeFits(s: seq<Record>, cfg: Config, i: nat)
    requires i < |s| && AttemptByPid(s, cfg, i).verdict.Paired?
    ensures var v := AttemptByPid(s, cfg, i).verdict; v.execTime <= Time(s, v.second) - Time(s, i)
  {
    if s[i].event >= SUSPENSION_RANGE && cfg.maxInterleavedSkipped == 0 {
      var j := ExecTime(s, cfg, i, s[i].event + 1).second.value;
      var xs := RecognisedAreWords(s, cfg, i, j, s[i].event + 1);
      WordsAreRecognised(s, cfg, i, xs, j, s[i].event + 1);
      TimeIsConserved(s, cfg, i, xs, j, s[i].event + 1);
    }
  }

  // ---------- All pairs ----------

  /** Are start records of a CPU considered? */
  ghost predicate Wanted(cfg: Config, cpu: u8) {
    cpu != cfg.avoidCpu && (cfg.onlyCpu == -1 || cpu == cfg.onlyCpu)
  }

  predicate IsAvoided(cfg: Config, r: Record) {
    r.cpu == cfg.avoidCpu || (cfg.onlyCpu != -1 && r.cpu != cfg.onlyCpu)
  }

  ghost function AttemptAt(s: seq<Record>, cfg: Config, i: nat): (r: Attempt)
    requires i < |s|
    ensures r.verdict.Paired? ==> i < r.verdict.second < |s|
  {
    if IsAvoided(cfg, s[i]) then Attempt(Avoided, 0, 0)
    else if cfg.findByPid then AttemptByPid(s, cfg, i)
    else AttemptById(s, cfg, i)
  }

  function PairOf(i: nat, v: Verdict): seq<Pair> {
    match v
    case Paired(second, t) => [Pair(i, second, t)]
    case _ => []
  }

  /** The pairs reported for the start records from position i up to position j */
  ghost function PairsIn(s: seq<Record>, cfg: Config, id: nat, i: nat, j: nat): (ps: seq<Pair>)
    requires i <= j <= |s|
    decreases j
  {
    if i == j then []
    else
      var ps := PairsIn(s, cfg, id, i, j - 1);
      if s[j-1].event != id then ps else ps + PairOf(j - 1, AttemptAt(s, cfg, j - 1).verdict)
  }

  /** The counters of the program */
  datatype Totals = Totals(complete: nat, incomplete: nat, interrupted: nat, nonRt: nat, interleaved: nat, avoided: nat)

  function Plus(a: Totals, b: Totals): Totals {
    Totals(a.complete + b.complete, a.incomplete + b.incomplete, a.interrupted + b.interrupted,
           a.nonRt + b.nonRt, a.interleaved + b.interleaved, a.avoided + b.avoided)
  }

  const NOTHING := Totals(0, 0, 0, 0, 0, 0)

  function Cost(a: Attempt): Totals {
    Totals(if a.verdict.Paired? then 1 else 0, if a.verdict.Unmatched? then 1 else 0, a.irqs,
           if a.verdict.NotRealTime? then 1 else 0, a.restarts, if a.verdict.Avoided? then 1 else 0)
  }

  ghost function TotalsIn(s: seq<Record>, cfg: Config, id: nat, i: nat, j: nat): Totals
    requires i <= j <= |s|
    decreases j
  {
    if i == j then NOTHING
    else if s[j-1].event != id then TotalsIn(s, cfg, id, i, j - 1)
    else Plus(TotalsIn(s, cfg, id, i, j - 1), Cost(AttemptAt(s, cfg, j - 1)))
  }

  /** Where show_id starts: at the first end record */
  ghost function FirstEnd(s: seq<Record>, id: nat, i: nat): (r: nat)
    requires i <= |s|
    ensures i <= r <= |s| && (r < |s| ==> s[r].event == id + 1)
    ensures forall k :: i <= k < r ==> s[k].event != id + 1
    decreases |s| - i
  {
    if i == |s| || s[i].event == id + 1 then i else FirstEnd(s, id, i + 1)
  }

  /** The reported pairs are those that the start records' attempts give, in order. */
  lemma {:induction false} PairsAreAttempts(s: seq<Record>, cfg: Config, id: nat, i: nat, j: nat, p: Pair)
    requires i <= j <= |s|
    ensures p in PairsIn(s, cfg, id, i, j) <==>
              && i <= p.first < j && s[p.first].event == id
              && AttemptAt(s, cfg, p.first).verdict == Paired(p.second, p.execTime)
    decreases j
  {
    if i < j {
      PairsAreAttempts(s, cfg, id, i, j - 1, p);
    }
  }

  lemma {:induction false} PairsAreInOrder(s: seq<Record>, cfg: Config, id: nat, i: nat, j: nat)
    requires i <= j <= |s|
    ensures var ps := PairsIn(s, cfg, id, i, j); forall a, b :: 0 <= a < b < |ps| ==> ps[a].first < ps[b].first
    decreases j
  {
    if i < j {
      var ps := PairsIn(s, cfg, id, i, j - 1);
      PairsAreInOrder(s, cfg, id, i, j - 1);
      var all := PairsIn(s, cfg, id, i, j);
      forall a, b | 0 <= a < b < |all|
        ensures all[a].first < all[b].first
      {
        assert all[a] == ps[a];
        PairsAreAttempts(s, cfg, id, i, j - 1, ps[a]);
      }
    }
  }

  /** Matching by event id reports exactly the pairs of the definition whose start record is not
      avoided. */
  lemma {:induction false} PairsByIdAreExact(s: seq<Record>, cfg: Config, id: nat, i: nat, p: Pair)
    requires i <= |s| && !cfg.findByPid
    ensures p in PairsIn(s, cfg, id, i, |s|) <==>
              i <= p.first < |s| && s[p.first].event == id && Wanted(cfg, s[p.first].cpu) && IsPairById(s, cfg, p)
  {
    PairsAreAttempts(s, cfg, id, i, |s|, p);
    if p.first < |s| {
      PairingByIdIsExact(s, cfg, p.first, p.second, p.execTime);
    }
  }

  /** A lock event and its end form a pair by PID if the task's records in between spell suspensions, and
      the time is that without them. Any other event, or any event if interleaving is allowed, forms a
      pair with the next end of its PID that may be matched, if it is later. */
  ghost predicate IsPairByPid(s: seq<Record>, cfg: Config, p: Pair) {
    && p.first < |s|
    && if s[p.first].event >= SUSPENSION_RANGE && cfg.maxInterleavedSkipped == 0 then
         exists xs: seq<Suspension> :: IsParseOf(s, cfg, p.first, xs, p.second, p.execTime)
       else
         && IsPidMatch(s, cfg, p.first, p.first + 1, p.second, s[p.first].event + 1, NO_EVENT, true)
         && Time(s, p.first) < Time(s, p.second) && p.execTime == Time(s, p.second) - Time(s, p.first)
  }

  /** Matching by PID reports exactly the pairs of this definition whose start record is not avoided. */
  lemma {:induction false} PairsByPidAreExact(s: seq<Record>, cfg: Config, id: nat, i: nat, p: Pair)
    requires i <= |s| && cfg.findByPid
    ensures p in PairsIn(s, cfg, id, i, |s|) <==>
              i <= p.first < |s| && s[p.first].event == id && Wanted(cfg, s[p.first].cpu) && IsPairByPid(s, cfg, p)
  {
    PairsAreAttempts(s, cfg, id, i, |s|, p);
    if p.first < |s| {
      PairingByPidIsExact(s, cfg, p.first, p.second, p.execTime);
    }
  }

  /** Pairs of one CPU do not overlap, and no end record is claimed twice. */
  lemma {:induction false} PairsByIdAreDisjoint(s: seq<Record>, cfg: Config, id: nat, i: nat, p: Pair, q: Pair)
    requires i <= |s| && !cfg.findByPid
    requires p in PairsIn(s, cfg, id, i, |s|) && q in PairsIn(s, cfg, id, i, |s|) && p != q
    ensures p.first < |s| && q.first < |s| && p.second != q.second
    ensures s[p.first].cpu == s[q.first].cpu ==> p.second < q.first || q.second < p.first
  {
    PairsByIdAreExact(s, cfg, id, i, p);
    PairsByIdAreExact(s, cfg, id, i, q);
    PairingByIdIsExact(s, cfg, p.first, p.second, p.execTime);
    PairingByIdIsExact(s, cfg, q.first, q.second, q.execTime);
  }

  /** The number of start records */
  ghost function Starts(s: seq<Record>, id: nat, i: nat, j: nat): nat
    requires i <= j <= |s|
    decreases j
  {
    if i == j then 0 else Starts(s, id, i, j - 1) + if s[j-1].event == id then 1 else 0
  }

  /** The number of start records whose attempt an interrupt disturbs */
  ghost function DisturbedStarts(s: seq<Record>, cfg: Config, id: nat, i: nat, j: nat): nat
    requires i <= j <= |s|
    decreases j
  {
    if i == j then 0
    else
      DisturbedStarts(s, cfg, id, i, j - 1)
      + if s[j-1].event == id && AttemptAt(s, cfg, j - 1).verdict.Interrupted? then 1 else 0
  }

  /** The counters account for every start record but the disturbed ones, and complete counts the
      reported pairs. */
  lemma {:induction false} TotalsAddUp(s: seq<Record>, cfg: Config, id: nat, i: nat, j: nat)
    requires i <= j <= |s|
    ensures var t := TotalsIn(s, cfg, id, i, j);
            && t.complete == |PairsIn(s, cfg, id, i, j)|
            && t.complete + t.incomplete + t.nonRt + t.avoided + DisturbedStarts(s, cfg, id, i, j) == Starts(s, id, i, j)
    decreases j
  {
    if i < j {
      TotalsAddUp(s, cfg, id, i, j - 1);
    }
  }
}
