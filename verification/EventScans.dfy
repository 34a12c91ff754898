/** What the scans of src/ft2csv.c look for in a trace. */
module EventScans {
  import opened Options
  import opened Trace

  /** The command line options */
  datatype Config = Config(
    wantInterleaved: bool,
    wantBestEffort: bool,
    wantInterrupted: bool,
    maxInterleavedSkipped: int,
    findByPid: bool,
    avoidCpu: int,
    onlyCpu: int)

  /** The result of a scan: the record found; whether an interrupt stopped the scan; the number of
      flagged records; and the number of records passed over. */
  datatype Scan = Scan(found: Option<nat>, disturbed: bool, irqs: nat, restarts: nat)

  const NOTHING_FOUND := Scan(None, false, 0, 0)
  const DISTURBANCE := Scan(None, true, 0, 0)

  function Tolerated(cfg: Config, r: Record): bool {
    cfg.wantInterrupted || !r.irqFlag
  }

  function Flagged(r: Record): nat {
    if r.irqFlag then 1 else 0
  }

  // ---------- The next record of a CPU ----------

  ghost predicate IsNextOnCpu(s: seq<Record>, first: nat, cpu: u8, p: nat) {
    && first < p < |s| && Consecutive(s, first, p) && s[p].cpu == cpu
    && forall k :: first < k < p ==> s[k].cpu != cpu
  }

  ghost function NextOnCpuFrom(s: seq<Record>, i: nat, cpu: u8): (r: Option<nat>)
    requires 0 < i <= |s|
    ensures r.Some? ==> i <= r.value < |s|
    ensures forall p: nat {:trigger IsNextOnCpu(s, i - 1, cpu, p)} :: IsNextOnCpu(s, i - 1, cpu, p) <==> r == Some(p)
    decreases |s| - i
  {
    if i == |s| || s[i].seqNo != Next(s[i-1].seqNo) then None
    else if s[i].cpu == cpu then Some(i)
    else
      var r := NextOnCpuFrom(s, i + 1, cpu);
      assert forall p: nat {:trigger IsNextOnCpu(s, i - 1, cpu, p)} ::
          IsNextOnCpu(s, i - 1, cpu, p) <==> IsNextOnCpu(s, i, cpu, p);
      r
  }

  ghost function NextOnCpu(s: seq<Record>, first: nat, cpu: u8): (r: Option<nat>)
    requires first < |s|
    ensures r.Some? ==> first < r.value < |s|
    ensures forall p: nat {:trigger IsNextOnCpu(s, first, cpu, p)} :: IsNextOnCpu(s, first, cpu, p) <==> r == Some(p)
  {
    NextOnCpuFrom(s, first + 1, cpu)
  }

  // ---------- next_id ----------

  /** next_id, apart from the interrupt flag of the record found */
  ghost function ScanForId(s: seq<Record>, cfg: Config, pos: nat, cpu: u8, id: nat, stopId: nat): (r: Scan)
    requires pos < |s|
    ensures if r.found.Some? then pos < r.found.value < |s| && !r.disturbed else r.irqs == r.restarts == 0
    decreases |s| - pos
  {
    match NextOnCpu(s, pos, cpu)
    case None => NOTHING_FOUND
    case Some(p) =>
      if s[p].event == id then Scan(Some(p), false, Flagged(s[p]), 0)
      else if s[p].event == stopId || !cfg.wantInterleaved then NOTHING_FOUND
      else if !Tolerated(cfg, s[p]) then DISTURBANCE
      else
        var r := ScanForId(s, cfg, p, cpu, id, stopId);
        r.(restarts := if r.found.Some? then r.restarts + 1 else 0)
  }

  ghost function NextId(s: seq<Record>, cfg: Config, pos: nat, cpu: u8, id: nat, stopId: nat): (r: Scan)
    requires pos < |s|
    ensures r.found.Some? ==> pos < r.found.value < |s| && !r.disturbed
  {
    var r := ScanForId(s, cfg, pos, cpu, id, stopId);
    if r.found.Some? && !Tolerated(cfg, s[r.found.value]) then r.(found := None, disturbed := true) else r
  }

  /** A record that the scan passes over: it is of another CPU, or it is another event that may be
      interleaved. */
  ghost predicate Passed(cfg: Config, r: Record, cpu: u8, id: nat, stopId: nat) {
    r.cpu == cpu ==> r.event != id && r.event != stopId && cfg.wantInterleaved && (cfg.wantInterrupted || !r.irqFlag)
  }

  ghost predicate Reaches(s: seq<Record>, cfg: Config, pos: nat, cpu: u8, id: nat, stopId: nat, p: nat) {
    && pos < p < |s| && Consecutive(s, pos, p) && s[p].cpu == cpu
    && forall k :: pos < k < p ==> Passed(cfg, s[k], cpu, id, stopId)
  }

  /** The record at position p is the one that next_id looks for. */
  ghost predicate IsMatch(s: seq<Record>, cfg: Config, pos: nat, cpu: u8, id: nat, stopId: nat, p: nat) {
    Reaches(s, cfg, pos, cpu, id, stopId, p) && s[p].event == id && (cfg.wantInterrupted || !s[p].irqFlag)
  }

  /** At position q, next_id gives up because of an interrupt. */
  ghost predicate IsDisturbed(s: seq<Record>, cfg: Config, pos: nat, cpu: u8, id: nat, stopId: nat, q: nat) {
    && Reaches(s, cfg, pos, cpu, id, stopId, q) && s[q].irqFlag && !cfg.wantInterrupted
    && (s[q].event == id || (s[q].event != stopId && cfg.wantInterleaved))
  }

  lemma {:induction false} ReachesFirst(s: seq<Record>, cfg: Config, pos: nat, cpu: u8, id: nat, stopId: nat, p: nat)
    requires pos < |s| && Reaches(s, cfg, pos, cpu, id, stopId, p)
    ensures NextOnCpu(s, pos, cpu).Some? && NextOnCpu(s, pos, cpu).value <= p
    ensures var q := NextOnCpu(s, pos, cpu).value;
            q < p ==> Passed(cfg, s[q], cpu, id, stopId) && Reaches(s, cfg, q, cpu, id, stopId, p)
  {
    NextOnCpuBefore(s, pos + 1, cpu, p);
  }

  lemma {:induction false} NextOnCpuBefore(s: seq<Record>, i: nat, cpu: u8, p: nat)
    requires 0 < i <= p < |s| && Consecutive(s, i - 1, p) && s[p].cpu == cpu
    ensures NextOnCpuFrom(s, i, cpu).Some? && NextOnCpuFrom(s, i, cpu).value <= p
    decreases p - i
  {
    if s[i].cpu != cpu {
      NextOnCpuBefore(s, i + 1, cpu, p);
    }
  }

  /** next_id finds a record if and only if it is a match, and gives up because of an interrupt if
      there is one in its way. */
  lemma {:induction false} NextIdIsExact(s: seq<Record>, cfg: Config, pos: nat, cpu: u8, id: nat, stopId: nat, p: nat)
    requires pos < |s|
    ensures NextId(s, cfg, pos, cpu, id, stopId).found == Some(p) <==> IsMatch(s, cfg, pos, cpu, id, stopId, p)
    ensures IsDisturbed(s, cfg, pos, cpu, id, stopId, p) ==> NextId(s, cfg, pos, cpu, id, stopId).disturbed
    decreases |s| - pos
  {
    if Reaches(s, cfg, pos, cpu, id, stopId, p) {
      ReachesFirst(s, cfg, pos, cpu, id, stopId, p);
    }
    var n := NextOnCpu(s, pos, cpu);
    if n.Some? {
      assert IsNextOnCpu(s, pos, cpu, n.value);
      if Passed(cfg, s[n.value], cpu, id, stopId) {
        NextIdIsExact(s, cfg, n.value, cpu, id, stopId, p);
        ReachesOver(s, cfg, pos, cpu, id, stopId, n.value, p);
      }
    }
  }

  /** If next_id reports an interrupt, there is one. */
  lemma {:induction false} DisturbanceIsReal(s: seq<Record>, cfg: Config, pos: nat, cpu: u8, id: nat, stopId: nat) returns (q: nat)
    requires pos < |s| && NextId(s, cfg, pos, cpu, id, stopId).disturbed
    ensures IsDisturbed(s, cfg, pos, cpu, id, stopId, q)
    decreases |s| - pos
  {
    q := NextOnCpu(s, pos, cpu).value;
    assert IsNextOnCpu(s, pos, cpu, q);
    if Passed(cfg, s[q], cpu, id, stopId) {
      var n := q;
      q := DisturbanceIsReal(s, cfg, n, cpu, id, stopId);
      ReachesOver(s, cfg, pos, cpu, id, stopId, n, q);
    }
  }

  lemma {:induction false} ReachesOver(s: seq<Record>, cfg: Config, pos: nat, cpu: u8, id: nat, stopId: nat, n: nat, p: nat)
    requires IsNextOnCpu(s, pos, cpu, n) && Passed(cfg, s[n], cpu, id, stopId)
    ensures Reaches(s, cfg, n, cpu, id, stopId, p) ==> Reaches(s, cfg, pos, cpu, id, stopId, p)
  {
  }

  // ---------- next_pid ----------

  predicate IsEither(e: u8, id1: nat, id2: nat) {
    e == id1 || e == id2
  }

  /** Does the record show an interrupt on the CPU of the first record? */
  predicate Interrupts(first: Record, r: Record, significant: bool) {
    significant && r.cpu == first.cpu && r.irqFlag
  }

  /** next_pid, with its loop at position k */
  ghost function ScanForPid(s: seq<Record>, cfg: Config, first: nat, k: nat, id1: nat, id2: nat, significant: bool): (r: Scan)
    requires first < k <= |s|
    ensures r.found.Some? ==> k <= r.found.value < |s| && IsEither(s[r.found.value].event, id1, id2) && !r.disturbed
    ensures !significant ==> r.irqs == 0 && !r.disturbed
    decreases |s| - k
  {
    if k == |s| || s[k].seqNo != Next(s[k-1].seqNo) then NOTHING_FOUND
    else
      var irqs := if Interrupts(s[first], s[k], significant) then 1 else 0;
      if irqs == 1 && !cfg.wantInterrupted then Scan(None, true, 1, 0)
      else if s[k].pid == s[first].pid && IsEither(s[k].event, id1, id2) then Scan(Some(k), false, irqs, 0)
      else if s[k].pid == s[first].pid && k - first > cfg.maxInterleavedSkipped then Scan(None, false, irqs, 0)
      else
        var r := ScanForPid(s, cfg, first, k + 1, id1, id2, significant);
        r.(irqs := r.irqs + irqs)
  }

  ghost function NextPid(s: seq<Record>, cfg: Config, first: nat, id1: nat, id2: nat, significant: bool): (r: Scan)
    requires first < |s|
    ensures r.found.Some? ==> first < r.found.value < |s| && IsEither(s[r.found.value].event, id1, id2) && !r.disturbed
    ensures !significant ==> r.irqs == 0 && !r.disturbed
  {
    ScanForPid(s, cfg, first, first + 1, id1, id2, significant)
  }

  /** A record that the scan passes over: it shows no interrupt that matters, and it is of another
      task, or another event among the first ones. */
  ghost predicate PassedForPid(s: seq<Record>, cfg: Config, first: nat, k: nat, id1: nat, id2: nat, significant: bool)
    requires first < k < |s|
  {
    && (significant && s[k].cpu == s[first].cpu && s[k].irqFlag ==> cfg.wantInterrupted)
    && (s[k].pid == s[first].pid ==> s[k].event != id1 && s[k].event != id2 && k - first <= cfg.maxInterleavedSkipped)
  }

  ghost predicate ReachesForPid(s: seq<Record>, cfg: Config, first: nat, i: nat, p: nat, id1: nat, id2: nat, significant: bool) {
    && first < i <= p < |s| && Consecutive(s, i - 1, p)
    && forall k {:trigger PassedForPid(s, cfg, first, k, id1, id2, significant)} ::
         i <= k < p ==> PassedForPid(s, cfg, first, k, id1, id2, significant)
  }

  ghost predicate IsPidMatch(s: seq<Record>, cfg: Config, first: nat, i: nat, p: nat, id1: nat, id2: nat, significant: bool) {
    && ReachesForPid(s, cfg, first, i, p, id1, id2, significant)
    && s[p].pid == s[first].pid && (s[p].event == id1 || s[p].event == id2)
    && (significant && s[p].cpu == s[first].cpu && s[p].irqFlag ==> cfg.wantInterrupted)
  }

  ghost predicate IsPidDisturbed(s: seq<Record>, cfg: Config, first: nat, i: nat, q: nat, id1: nat, id2: nat, significant: bool) {
    && ReachesForPid(s, cfg, first, i, q, id1, id2, significant)
    && significant && s[q].cpu == s[first].cpu && s[q].irqFlag && !cfg.wantInterrupted
  }

  /** next_pid finds a record if and only if it is a match, and gives up because of an interrupt if
      there is one in its way. */
  lemma {:induction false} ScanForPidIsExact(s: seq<Record>, cfg: Config, first: nat, i: nat, p: nat,
                                             id1: nat, id2: nat, significant: bool)
    requires first < i <= |s|
    ensures ScanForPid(s, cfg, first, i, id1, id2, significant).found == Some(p) <==>
              IsPidMatch(s, cfg, first, i, p, id1, id2, significant)
    ensures IsPidDisturbed(s, cfg, first, i, p, id1, id2, significant) ==>
              ScanForPid(s, cfg, first, i, id1, id2, significant).disturbed
    decreases |s| - i
  {
    if i < |s| && s[i].seqNo == Next(s[i-1].seqNo) {
      if PassedForPid(s, cfg, first, i, id1, id2, significant) {
        ScanForPidIsExact(s, cfg, first, i + 1, p, id1, id2, significant);
        ReachesForPidOver(s, cfg, first, i, p, id1, id2, significant);
      } else if i < p {
        assert !ReachesForPid(s, cfg, first, i, p, id1, id2, significant);
      }
    }
  }

  /** If next_pid reports an interrupt, there is one. */
  lemma {:induction false} PidDisturbanceIsReal(s: seq<Record>, cfg: Config, first: nat, i: nat,
                                                id1: nat, id2: nat, significant: bool) returns (q: nat)
    requires first < i <= |s| && ScanForPid(s, cfg, first, i, id1, id2, significant).disturbed
    ensures IsPidDisturbed(s, cfg, first, i, q, id1, id2, significant)
    decreases |s| - i
  {
    if PassedForPid(s, cfg, first, i, id1, id2, significant) {
      q := PidDisturbanceIsReal(s, cfg, first, i + 1, id1, id2, significant);
      ReachesForPidOver(s, cfg, first, i, q, id1, id2, significant);
    } else {
      q := i;
    }
  }

  lemma {:induction false} ReachesForPidOver(s: seq<Record>, cfg: Config, first: nat, i: nat, p: nat,
                                             id1: nat, id2: nat, significant: bool)
    requires first < i < |s| && s[i].seqNo == Next(s[i-1].seqNo) && PassedForPid(s, cfg, first, i, id1, id2, significant)
    ensures i < p ==> (ReachesForPid(s, cfg, first, i, p, id1, id2, significant) <==>
                         ReachesForPid(s, cfg, first, i + 1, p, id1, id2, significant))
  {
    if i < p && ReachesForPid(s, cfg, first, i + 1, p, id1, id2, significant) {
      assert ReachesForPid(s, cfg, first, i, p, id1, id2, significant);
    }
  }

  // ---------- next_pid without an interleaving allowance ----------

  /** p is the position of the next record of the task of the first record, with no hole up to there. */
  ghost predicate IsNextOfPid(s: seq<Record>, first: nat, p: nat) {
    && first < p < |s| && Consecutive(s, first, p) && s[p].pid == s[first].pid
    && forall k :: first < k < p ==> s[k].pid != s[first].pid
  }

  /** No interrupt is recorded on the CPU of the first record after it, up to and including p. */
  ghost predicate Undisturbed(s: seq<Record>, cfg: Config, first: nat, p: nat)
    requires first < |s| && p < |s|
  {
    forall k :: first < k <= p && s[k].cpu == s[first].cpu ==> cfg.wantInterrupted || !s[k].irqFlag
  }

  lemma {:induction false} NextPidIsExact(s: seq<Record>, cfg: Config, first: nat, p: nat, id1: nat, id2: nat, significant: bool)
    requires first < |s| && cfg.maxInterleavedSkipped <= 0
    ensures NextPid(s, cfg, first, id1, id2, significant).found == Some(p) <==>
              && IsNextOfPid(s, first, p) && (s[p].event == id1 || s[p].event == id2)
              && (significant ==> Undisturbed(s, cfg, first, p))
  {
    ScanForPidIsExact(s, cfg, first, first + 1, p, id1, id2, significant);
    if IsNextOfPid(s, first, p) && (significant ==> Undisturbed(s, cfg, first, p)) {
      assert ReachesForPid(s, cfg, first, first + 1, p, id1, id2, significant);
    }
    if ReachesForPid(s, cfg, first, first + 1, p, id1, id2, significant) {
      forall k | first < k < p
        ensures s[k].pid != s[first].pid && (significant && s[k].cpu == s[first].cpu ==> cfg.wantInterrupted || !s[k].irqFlag)
      {
        assert PassedForPid(s, cfg, first, k, id1, id2, significant);
      }
    }
  }
}
