/** The plausibility rule for release latencies in src/ftsort.c, stated on the original trace. */
module Latencies {
  import opened Options
  import opened Trace
  import opened Monotonicity

  // ---------- The last time a CPU was preemptable ----------

  predicate IsStart(r: Record, cpu: nat) {
    r.event == TS_SCHED_START && r.cpu == cpu
  }

  /** j is the position of the last TS_SCHED_START of a CPU before i, and there is no hole from j to i. */
  ghost predicate IsLatestStart(s: seq<Record>, cpu: nat, i: nat, j: nat)
    requires i < |s|
  {
    j < i && IsStart(s[j], cpu) && Consecutive(s, j, i) && forall k :: j < k < i ==> !IsStart(s[k], cpu)
  }

  ghost function LatestStart(s: seq<Record>, cpu: nat, i: nat): (r: Option<nat>)
    requires i < |s|
    ensures r.Some? ==> r.value < i
    ensures forall j: nat {:trigger IsLatestStart(s, cpu, i, j)} :: IsLatestStart(s, cpu, i, j) <==> r == Some(j)
  {
    if i == 0 || s[i].seqNo != Next(s[i-1].seqNo) then
      assert forall j: nat :: IsLatestStart(s, cpu, i, j) ==> j <= i - 1;
      None
    else if IsStart(s[i-1], cpu) then Some(i - 1)
    else
      var r := LatestStart(s, cpu, i - 1);
      assert forall j: nat {:trigger IsLatestStart(s, cpu, i, j)} ::
          IsLatestStart(s, cpu, i, j) <==> IsLatestStart(s, cpu, i - 1, j);
      r
  }

  // ---------- The next time a CPU is preemptable ----------

  predicate IsBoundary(r: Record, cpu: nat) {
    r.cpu == cpu && (r.event == TS_RELEASE_START || r.event == TS_SCHED_START)
  }

  /** u is the position of the first TS_RELEASE_START or TS_SCHED_START of a CPU from position i on,
      and there is no hole from i - 1 to u. */
  ghost predicate IsNextBoundary(s: seq<Record>, cpu: nat, i: nat, u: nat) {
    0 < i <= u < |s| && IsBoundary(s[u], cpu) && Consecutive(s, i - 1, u) && forall k :: i <= k < u ==> !IsBoundary(s[k], cpu)
  }

  ghost function NextBoundary(s: seq<Record>, cpu: nat, i: nat): (r: Option<nat>)
    requires 0 < i <= |s|
    ensures r.Some? ==> i <= r.value < |s|
    ensures forall u: nat {:trigger IsNextBoundary(s, cpu, i, u)} :: IsNextBoundary(s, cpu, i, u) <==> r == Some(u)
    decreases |s| - i
  {
    if i == |s| || s[i].seqNo != Next(s[i-1].seqNo) then None
    else if IsBoundary(s[i], cpu) then Some(i)
    else
      var r := NextBoundary(s, cpu, i + 1);
      assert forall u: nat {:trigger IsNextBoundary(s, cpu, i, u)} ::
          IsNextBoundary(s, cpu, i, u) <==> IsNextBoundary(s, cpu, i + 1, u);
      r
  }

  // ---------- The rule ----------

  /** Is the value of a latency longer than the time from j to u, at a number of cycles per nanosecond? */
  predicate Exceeds(latency: Record, from: Record, to: Record, rate: real)
    requires rate > 0.0
  {
    to.timestamp > from.timestamp && (to.timestamp - from.timestamp) as real / rate < latency.timestamp as real
  }

  /** A latency is implausible if it exceeds the time between the last point and the next point at
      which the CPU was preemptable, as far as both are known and no record is missing in between. */
  ghost predicate Implausible(s: seq<Record>, rate: real, i: nat)
    requires rate > 0.0
  {
    && i + 1 < |s| && s[i].event == TS_RELEASE_LATENCY && s[i+1].seqNo == Next(s[i].seqNo)
    && exists j: nat, u: nat :: IsLatestStart(s, s[i].cpu, i, j) && IsNextBoundary(s, s[i].cpu, i + 1, u)
                      && Exceeds(s[i], s[j], s[u], rate)
  }

  /** The latencies in front of position i that are implausible. */
  ghost function ImplausibleBefore(s: seq<Record>, rate: real, i: nat): set<nat>
    requires rate > 0.0 && i <= |s|
  {
    set k | 0 <= k < i && Implausible(s, rate, k)
  }

  /** The positions of the implausible latencies. */
  ghost function ImplausibleOnes(s: seq<Record>, rate: real): set<nat>
    requires rate > 0.0
  {
    ImplausibleBefore(s, rate, |s|)
  }

  lemma {:induction false} NothingJudged(s: seq<Record>, rate: real)
    requires rate > 0.0
    ensures ImplausibleBefore(s, rate, 0) == {}
  {
  }

  lemma {:induction false} AllJudged(s: seq<Record>, rate: real, i: nat)
    requires rate > 0.0 && i <= |s| <= i + 1
    ensures ImplausibleBefore(s, rate, i) == ImplausibleOnes(s, rate)
  {
  }

  lemma {:induction false} OnlyLatencies(s: seq<Record>, rate: real, i: nat)
    requires rate > 0.0 && i + 1 < |s|
    ensures forall k :: k in ImplausibleBefore(s, rate, i) ==> k < i && s[k].event == TS_RELEASE_LATENCY
    ensures Implausible(s, rate, i) ==> s[i].event == TS_RELEASE_LATENCY && s[i+1].seqNo == Next(s[i].seqNo)
  {
  }

  lemma {:induction false} OneMoreJudged(s: seq<Record>, rate: real, i: nat)
    requires rate > 0.0 && i < |s|
    ensures ImplausibleBefore(s, rate, i + 1) ==
              if Implausible(s, rate, i) then ImplausibleBefore(s, rate, i) + {i} else ImplausibleBefore(s, rate, i)
  {
    forall k: nat
      ensures k in ImplausibleBefore(s, rate, i + 1) <==>
                k in ImplausibleBefore(s, rate, i) || (k == i && Implausible(s, rate, i))
    {
    }
  }

  /** The rule needs at most one pair of points. */
  lemma {:induction false} ImplausibleAt(s: seq<Record>, rate: real, i: nat)
    requires rate > 0.0 && i + 1 < |s| && s[i].event == TS_RELEASE_LATENCY && s[i+1].seqNo == Next(s[i].seqNo)
    ensures var last, next := LatestStart(s, s[i].cpu, i), NextBoundary(s, s[i].cpu, i + 1);
            Implausible(s, rate, i) <==> last.Some? && next.Some? && Exceeds(s[i], s[last.value], s[next.value], rate)
  {
    var last, next := LatestStart(s, s[i].cpu, i), NextBoundary(s, s[i].cpu, i + 1);
    if last.Some? && next.Some? {
      assert IsLatestStart(s, s[i].cpu, i, last.value) && IsNextBoundary(s, s[i].cpu, i + 1, next.value);
    }
  }

  // ---------- The per-CPU arrays ----------

  ghost predicate Tracks(s: seq<Record>, i: nat, valid: seq<bool>, last: seq<u48>) {
    && i < |s| && |valid| == |last| == MAX_CPUS
    && forall c {:trigger LatestStart(s, c, i)} {:trigger valid[c]} :: 0 <= c < MAX_CPUS ==>
         var r := LatestStart(s, c, i);
         valid[c] == r.Some? && (r.Some? ==> last[c] == s[r.value].timestamp)
  }

  lemma {:induction false} TracksNext(s: seq<Record>, i: nat, valid: seq<bool>, last: seq<u48>)
    requires Tracks(s, i, valid, last) && i + 1 < |s| && s[i+1].seqNo == Next(s[i].seqNo)
    requires s[i].event == TS_SCHED_START ==> s[i].cpu < MAX_CPUS
    ensures if s[i].event == TS_SCHED_START then
              Tracks(s, i + 1, valid[s[i].cpu := true], last[s[i].cpu := s[i].timestamp])
            else Tracks(s, i + 1, valid, last)
  {
    forall c | 0 <= c < MAX_CPUS
      ensures LatestStart(s, c, i + 1) == if IsStart(s[i], c) then Some(i) else LatestStart(s, c, i)
    {
    }
  }

  /** Marking latencies moves no boundary. */
  lemma {:induction false} SameBoundary(now: seq<Record>, s: seq<Record>, marked: set<nat>, cpu: nat, i: nat)
    requires OnlyMarked(now, s, marked) && 0 < i <= |s|
    requires forall k :: k in marked ==> k < |s| && s[k].event == TS_RELEASE_LATENCY
    ensures NextBoundary(now, cpu, i) == NextBoundary(s, cpu, i)
    decreases |s| - i
  {
    if i < |s| {
      assert now[i].seqNo == s[i].seqNo && now[i-1].seqNo == s[i-1].seqNo;
      SameBoundary(now, s, marked, cpu, i + 1);
    }
  }

  /** The test that the loop makes with the per-CPU arrays and the array as it is now. */
  lemma {:induction false} VerdictIsRight(now: seq<Record>, s: seq<Record>, marked: set<nat>, rate: real, i: nat,
                                          valid: seq<bool>, last: seq<u48>)
    requires rate > 0.0 && i + 1 < |s| && Tracks(s, i, valid, last)
    requires OnlyMarked(now, s, marked) && i !in marked
    requires forall k :: k in marked ==> k < |s| && s[k].event == TS_RELEASE_LATENCY
    requires s[i].event == TS_RELEASE_LATENCY && s[i+1].seqNo == Next(s[i].seqNo) && s[i].cpu < MAX_CPUS
    ensures var next := NextBoundary(now, s[i].cpu, i + 1);
            Implausible(s, rate, i) <==>
              && valid[s[i].cpu] && next.Some? && now[next.value].timestamp > last[s[i].cpu]
              && (now[next.value].timestamp - last[s[i].cpu]) as real / rate < s[i].timestamp as real
  {
    TimesKept(now, s, marked);
    SameBoundary(now, s, marked, s[i].cpu, i + 1);
    ImplausibleAt(s, rate, i);
  }

  /** What the C code takes for granted: these records name CPUs that have a slot. */
  ghost predicate SlotsFit(s: seq<Record>) {
    forall i :: 0 <= i < |s| && s[i].event in {TS_SCHED_START, TS_RELEASE_LATENCY} ==> s[i].cpu < MAX_CPUS
  }
}
