/** When the pairs that src/ft2csv.c matches by PID are disjoint: exactly which options and event ids
    keep the pairs of one PID apart. */
module PidPairs {
  import opened Options
  import opened Trace
  import opened EventScans
  import opened LockTimes
  import opened EventPairs

  /** The largest id of a record. As a start, it has no end: ids have 8 bits. */
  const LAST_EVENT: nat := 255

  /** What show_id reports */
  ghost function Reported(s: seq<Record>, cfg: Config, id: nat): seq<Pair> {
    PairsIn(s, cfg, id, FirstEnd(s, id, 0), |s|)
  }

  /** The pairs of one PID do not overlap, and no end record is claimed twice. */
  ghost predicate Disjoint(s: seq<Record>, ps: seq<Pair>) {
    forall p, q :: p in ps && q in ps && p.first < q.first < |s| ==> Apart(s, p, q)
  }

  ghost predicate Apart(s: seq<Record>, p: Pair, q: Pair)
    requires p.first < |s| && q.first < |s|
  {
    p.second != q.second && (s[p.first].pid == s[q.first].pid ==> p.second < q.first)
  }

  /** The options rule out every CPU. */
  predicate NoCpuWanted(cfg: Config) {
    cfg.onlyCpu != -1 && (cfg.onlyCpu == cfg.avoidCpu || !(0 <= cfg.onlyCpu < 0x100))
  }

  /** The condition: nothing can be reported, or no interleaving is allowed and the start is neither
      the dummy id 0 nor, if suspensions are taken into account, an event that a suspension consists
      of. TS_SCHED_END is harmless: inside a request it is followed by the resumption. */
  predicate KeepsApart(cfg: Config, id: nat) {
    || NoCpuWanted(cfg)
    || id >= LAST_EVENT
    || (&& cfg.maxInterleavedSkipped <= 0 && id != NO_EVENT
        && (cfg.maxInterleavedSkipped == 0 ==> id != TS_LOCK_SUSPEND && id != TS_LOCK_RESUME && id != TS_SCHED_START))
  }

  // ---------- Pairs that are kept apart ----------

  lemma {:induction false} NothingReported(s: seq<Record>, cfg: Config, id: nat)
    requires NoCpuWanted(cfg) || id >= LAST_EVENT
    ensures Reported(s, cfg, id) == []
  {
    var i := FirstEnd(s, id, 0);
    if Reported(s, cfg, id) != [] {
      PairsAreAttempts(s, cfg, id, i, |s|, Reported(s, cfg, id)[0]);
    }
  }

  /** The pairs of consecutive records of a PID */
  lemma {:induction false} PairOfNeighbours(s: seq<Record>, cfg: Config, id: nat, p: Pair)
    requires p in Reported(s, cfg, id) && cfg.findByPid && cfg.maxInterleavedSkipped <= 0
    requires id < SUSPENSION_RANGE || cfg.maxInterleavedSkipped < 0
    ensures IsNextOfPid(s, p.first, p.second) && s[p.first].event == id && IsEither(s[p.second].event, id + 1, NO_EVENT)
  {
    PairsAreAttempts(s, cfg, id, FirstEnd(s, id, 0), |s|, p);
    NextPidIsExact(s, cfg, p.first, p.second, id + 1, NO_EVENT, true);
  }

  /** The pairs that enclose suspensions */
  lemma {:induction false} PairOfRequest(s: seq<Record>, cfg: Config, id: nat, p: Pair) returns (xs: seq<Suspension>)
    requires p in Reported(s, cfg, id) && cfg.findByPid && cfg.maxInterleavedSkipped == 0 && id >= SUSPENSION_RANGE
    ensures p.first < p.second < |s| && s[p.first].event == id && Spells(s, cfg, p.first, xs, p.second, id + 1)
    ensures s[p.second].event == id + 1 && s[p.second].pid == s[p.first].pid
  {
    PairsAreAttempts(s, cfg, id, FirstEnd(s, id, 0), |s|, p);
    xs := RecognisedAreWords(s, cfg, p.first, p.second, id + 1);
    EndIsOfPid(s, cfg, p.first, xs, p.second, id + 1);
  }

  lemma {:induction false} FirstIsSuspendOrEnd(s: seq<Record>, cfg: Config, i: nat, xs: seq<Suspension>, j: nat, stopId: nat, r: nat)
    requires Spells(s, cfg, i, xs, j, stopId) && IsNextOfPid(s, i, r)
    ensures s[r].event == TS_LOCK_SUSPEND || s[r].event == stopId
  {
    var next := if xs == [] then j else xs[0].suspend;
    assert IsNextOfPid(s, i, next) && r == next;
  }

  /** No other request of the PID starts inside a request. */
  lemma {:induction false} NoStartInside(s: seq<Record>, cfg: Config, id: nat, p: Pair, xs: seq<Suspension>, q: Pair, ys: seq<Suspension>)
    requires SUSPENSION_RANGE <= id < LAST_EVENT && id != TS_LOCK_SUSPEND && id != TS_LOCK_RESUME && id != TS_SCHED_START
    requires Spells(s, cfg, p.first, xs, p.second, id + 1) && Spells(s, cfg, q.first, ys, q.second, id + 1)
    requires p.first < q.first < |s| && s[p.first].pid == s[q.first].pid && s[q.first].event == id && p.second < |s|
    ensures q.first >= p.second
  {
    if q.first < p.second {
      SuspensionsInBetween(s, cfg, p.first, xs, p.second, id + 1, q.first);
      var r := SchedEndIsResumed(s, cfg, p.first, xs, p.second, id + 1, q.first);
      FirstIsSuspendOrEnd(s, cfg, q.first, ys, q.second, id + 1, r);
    }
  }

  lemma {:induction false} PairsAreApart(s: seq<Record>, cfg: Config, id: nat, p: Pair, q: Pair)
    requires cfg.findByPid && KeepsApart(cfg, id) && !NoCpuWanted(cfg) && id < LAST_EVENT
    requires p in Reported(s, cfg, id) && q in Reported(s, cfg, id) && p.first < q.first < |s|
    ensures Apart(s, p, q)
  {
    hide KeepsApart, NoCpuWanted, Apart, Reported;
    if id >= SUSPENSION_RANGE && cfg.maxInterleavedSkipped == 0 {
      RequestsAreApart(s, cfg, id, p, q);
    } else {
      NeighboursAreApart(s, cfg, id, p, q);
    }
  }

  lemma {:induction false} RequestsAreApart(s: seq<Record>, cfg: Config, id: nat, p: Pair, q: Pair)
    requires cfg.findByPid && KeepsApart(cfg, id) && !NoCpuWanted(cfg) && id < LAST_EVENT
    requires p in Reported(s, cfg, id) && q in Reported(s, cfg, id) && p.first < q.first < |s|
    requires id >= SUSPENSION_RANGE && cfg.maxInterleavedSkipped == 0
    ensures Apart(s, p, q)
  {
    hide Spells, Reported;
    var xs := PairOfRequest(s, cfg, id, p);
    var ys := PairOfRequest(s, cfg, id, q);
    if s[p.first].pid == s[q.first].pid {
      NoStartInside(s, cfg, id, p, xs, q, ys);
    }
  }

  lemma {:induction false} NeighboursAreApart(s: seq<Record>, cfg: Config, id: nat, p: Pair, q: Pair)
    requires cfg.findByPid && KeepsApart(cfg, id) && !NoCpuWanted(cfg) && id < LAST_EVENT
    requires p in Reported(s, cfg, id) && q in Reported(s, cfg, id) && p.first < q.first < |s|
    requires id < SUSPENSION_RANGE || cfg.maxInterleavedSkipped != 0
    ensures Apart(s, p, q)
  {
    hide Reported;
    PairOfNeighbours(s, cfg, id, p);
    PairOfNeighbours(s, cfg, id, q);
  }

  // ---------- Pairs that are not ----------

  /** A trace of one PID on one CPU without interrupts and holes, at times 0, 1, 2, ... */
  function Lone(cpu: u8, events: seq<u8>): (s: seq<Record>)
    requires |events| < 0x100
    ensures |s| == |events|
  {
    seq(|events|, i requires 0 <= i < |events| => Record(i, 1, i, cpu, events[i], TSK_RT, false, 0))
  }

  lemma {:induction false} LoneNext(cfg: Config, cpu: u8, events: seq<u8>, i: nat)
    requires i + 1 < |events| < 0x100
    ensures var s := Lone(cpu, events);
            IsNextOfPid(s, i, i + 1) && Time(s, i + 1) == Time(s, i) + 1 && Undisturbed(s, cfg, i, i + 1)
  {
    var s := Lone(cpu, events);
    assert s[i+1].seqNo == Next(s[i].seqNo);
  }

  lemma {:induction false} LonePair(cfg: Config, cpu: u8, events: seq<u8>, id: u8, p: Pair)
    requires 0 < p.first < |events| < 0x100 && id < LAST_EVENT && events[0] == id + 1 && events[p.first] == id
    requires cfg.findByPid && Wanted(cfg, cpu)
    requires AttemptByPid(Lone(cpu, events), cfg, p.first).verdict == Paired(p.second, p.execTime)
    ensures p in Reported(Lone(cpu, events), cfg, id)
  {
    var s := Lone(cpu, events);
    assert FirstEnd(s, id, 0) == 0;
    PairsAreAttempts(s, cfg, id, 0, |s|, p);
  }

  lemma {:induction false} RequestIsPaired(s: seq<Record>, cfg: Config, p: Pair, xs: seq<Suspension>)
    requires p.first < |s| && s[p.first].event >= SUSPENSION_RANGE && cfg.maxInterleavedSkipped == 0
    requires Spells(s, cfg, p.first, xs, p.second, s[p.first].event + 1)
    requires p.execTime == Executed(s, cfg, p.first, xs, p.second, s[p.first].event + 1)
    ensures AttemptByPid(s, cfg, p.first).verdict == Paired(p.second, p.execTime)
  {
    hide ExecTime, Spells, Executed;
    WordsAreRecognised(s, cfg, p.first, xs, p.second, s[p.first].event + 1);
  }

  lemma {:induction false} LoneRequest(cfg: Config, cpu: u8, events: seq<u8>, id: u8, p: Pair, xs: seq<Suspension>)
    requires 0 < p.first < |events| < 0x100 && SUSPENSION_RANGE <= id < LAST_EVENT && events[0] == id + 1 && events[p.first] == id
    requires cfg.findByPid && Wanted(cfg, cpu) && cfg.maxInterleavedSkipped == 0
    requires Spells(Lone(cpu, events), cfg, p.first, xs, p.second, id + 1)
    requires p.execTime == Executed(Lone(cpu, events), cfg, p.first, xs, p.second, id + 1)
    ensures p in Reported(Lone(cpu, events), cfg, id)
  {
    RequestIsPaired(Lone(cpu, events), cfg, p, xs);
    LonePair(cfg, cpu, events, id, p);
  }

  /** Start 0: the dummy id makes a start the end of the one before. */
  lemma {:induction false} DummyPairsTouch(cfg: Config, cpu: u8)
    requires cfg.findByPid && Wanted(cfg, cpu)
    ensures var ps := Reported(Lone(cpu, [1, 0, 0, 0]), cfg, 0); Pair(1, 2, 1) in ps && Pair(2, 3, 1) in ps
  {
    var events: seq<u8> := [1, 0, 0, 0];
    LoneNext(cfg, cpu, events, 1);
    LoneNext(cfg, cpu, events, 2);
    LonePair(cfg, cpu, events, 0, Pair(1, 2, 1));
    LonePair(cfg, cpu, events, 0, Pair(2, 3, 1));
  }

  /** With an interleaving allowance, two starts claim the same end. */
  lemma {:induction false} AllowanceSharesEnd(cfg: Config, cpu: u8, id: u8)
    requires cfg.findByPid && Wanted(cfg, cpu) && cfg.maxInterleavedSkipped > 0 && 0 < id < LAST_EVENT
    ensures var ps := Reported(Lone(cpu, [id + 1, id, id, id + 1]), cfg, id); Pair(1, 3, 2) in ps && Pair(2, 3, 1) in ps
  {
    var events: seq<u8> := [id + 1, id, id, id + 1];
    LoneNext(cfg, cpu, events, 1);
    LoneNext(cfg, cpu, events, 2);
    assert ScanForPid(Lone(cpu, events), cfg, 1, 3, id + 1, NO_EVENT, true).found == Some(3);
    LonePair(cfg, cpu, events, id, Pair(1, 3, 2));
    LonePair(cfg, cpu, events, id, Pair(2, 3, 1));
  }

  /** Start TS_LOCK_SUSPEND: the second one is taken for a suspension of the first. */
  lemma {:induction false} SuspendPairsNest(cfg: Config, cpu: u8)
    requires cfg.findByPid && Wanted(cfg, cpu) && cfg.maxInterleavedSkipped == 0
    ensures var ps := Reported(Lone(cpu, [39, 38, 38, 39, 39]), cfg, TS_LOCK_SUSPEND); Pair(1, 4, 2) in ps && Pair(2, 3, 1) in ps
  {
    var events: seq<u8> := [39, 38, 38, 39, 39];
    LoneNext(cfg, cpu, events, 1);
    LoneNext(cfg, cpu, events, 2);
    LoneNext(cfg, cpu, events, 3);
    LoneRequest(cfg, cpu, events, TS_LOCK_SUSPEND, Pair(1, 4, 2), [Suspension(2, 3, None)]);
    LoneRequest(cfg, cpu, events, TS_LOCK_SUSPEND, Pair(2, 3, 1), []);
  }

  /** Start TS_LOCK_RESUME: the resumption inside a request starts another one, with the same end. */
  lemma {:induction false} ResumePairsShareEnd(cfg: Config, cpu: u8)
    requires cfg.findByPid && Wanted(cfg, cpu) && cfg.maxInterleavedSkipped == 0
    ensures var ps := Reported(Lone(cpu, [40, 39, 38, 39, 40]), cfg, TS_LOCK_RESUME); Pair(1, 4, 2) in ps && Pair(3, 4, 1) in ps
  {
    var events: seq<u8> := [40, 39, 38, 39, 40];
    LoneNext(cfg, cpu, events, 1);
    LoneNext(cfg, cpu, events, 2);
    LoneNext(cfg, cpu, events, 3);
    LoneRequest(cfg, cpu, events, TS_LOCK_RESUME, Pair(1, 4, 2), [Suspension(2, 3, None)]);
    LoneRequest(cfg, cpu, events, TS_LOCK_RESUME, Pair(3, 4, 1), []);
  }

  /** Start TS_SCHED_START: the scheduler invocation of a suspension is a pair inside another one. */
  lemma {:induction false} SchedStartPairsNest(cfg: Config, cpu: u8)
    requires cfg.findByPid && Wanted(cfg, cpu) && cfg.maxInterleavedSkipped == 0
    ensures var ps := Reported(Lone(cpu, [101, 100, 38, 100, 101, 39, 101]), cfg, TS_SCHED_START);
            Pair(1, 6, 2) in ps && Pair(3, 4, 1) in ps
  {
    var events: seq<u8> := [101, 100, 38, 100, 101, 39, 101];
    LoneNext(cfg, cpu, events, 1);
    LoneNext(cfg, cpu, events, 2);
    LoneNext(cfg, cpu, events, 3);
    LoneNext(cfg, cpu, events, 4);
    LoneNext(cfg, cpu, events, 5);
    LoneRequest(cfg, cpu, events, TS_SCHED_START, Pair(1, 6, 2), [Suspension(2, 5, Some(Scheduled(3, 4)))]);
    LoneRequest(cfg, cpu, events, TS_SCHED_START, Pair(3, 4, 1), []);
  }

  /** Whenever the condition does not hold, there is a trace with pairs that are not disjoint. */
  lemma {:induction false} PairsMayMeet(cfg: Config, id: nat) returns (s: seq<Record>)
    requires cfg.findByPid && !KeepsApart(cfg, id)
    ensures !Disjoint(s, Reported(s, cfg, id))
  {
    var cpu: u8 := if cfg.onlyCpu != -1 then cfg.onlyCpu else if cfg.avoidCpu == 0 then 1 else 0;
    var p, q;
    if id == NO_EVENT {
      s, p, q := Lone(cpu, [1, 0, 0, 0]), Pair(1, 2, 1), Pair(2, 3, 1);
      DummyPairsTouch(cfg, cpu);
    } else if cfg.maxInterleavedSkipped > 0 {
      s, p, q := Lone(cpu, [id + 1, id, id, id + 1]), Pair(1, 3, 2), Pair(2, 3, 1);
      AllowanceSharesEnd(cfg, cpu, id);
    } else if id == TS_LOCK_SUSPEND {
      s, p, q := Lone(cpu, [39, 38, 38, 39, 39]), Pair(1, 4, 2), Pair(2, 3, 1);
      SuspendPairsNest(cfg, cpu);
    } else if id == TS_LOCK_RESUME {
      s, p, q := Lone(cpu, [40, 39, 38, 39, 40]), Pair(1, 4, 2), Pair(3, 4, 1);
      ResumePairsShareEnd(cfg, cpu);
    } else {
      s, p, q := Lone(cpu, [101, 100, 38, 100, 101, 39, 101]), Pair(1, 6, 2), Pair(3, 4, 1);
      SchedStartPairsNest(cfg, cpu);
    }
    assert !Apart(s, p, q);
  }

  /** The pairs that are matched by PID are disjoint on every trace if and only if the options and the
      event id meet the condition. */
  lemma {:induction false} PairsByPidAreDisjoint(cfg: Config, id: nat)
    requires cfg.findByPid
    ensures (forall s :: Disjoint(s, Reported(s, cfg, id))) <==> KeepsApart(cfg, id)
  {
    if KeepsApart(cfg, id) {
      forall s
        ensures Disjoint(s, Reported(s, cfg, id))
      {
        DisjointIfKept(s, cfg, id);
      }
    } else {
      var s := PairsMayMeet(cfg, id);
    }
  }

  lemma {:induction false} DisjointIfKept(s: seq<Record>, cfg: Config, id: nat)
    requires cfg.findByPid && KeepsApart(cfg, id)
    ensures Disjoint(s, Reported(s, cfg, id))
  {
    if NoCpuWanted(cfg) || id >= LAST_EVENT {
      NothingReported(s, cfg, id);
    } else {
      forall p, q | p in Reported(s, cfg, id) && q in Reported(s, cfg, id) && p.first < q.first < |s|
        ensures Apart(s, p, q)
      {
        PairsAreApart(s, cfg, id, p, q);
      }
    }
  }
}
