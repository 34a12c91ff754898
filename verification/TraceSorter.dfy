/** The in-place passes of src/ftsort.c over an array of records, with its global counters. */
module TraceSorter {
  import opened Options
  import opened Trace
  import opened SeqNumbers
  import opened Reordering
  import opened ReorderLaws
  import opened Monotonicity
  import opened Latencies
  import opened OutlierRule

  class Sorter {
    var holes: nat
    var reordered: nat
    var abortedMoves: nat
    var nonMonotonic: nat
    var implausible: nat

    constructor ()
      ensures holes == reordered == abortedMoves == nonMonotonic == implausible == 0
    {
      holes, reordered, abortedMoves, nonMonotonic, implausible := 0, 0, 0, 0, 0;
    }

    /** find_lowest_seq_no, up to the end of the array */
    method FindLowestSeqNo(a: array<Record>, start: nat, seqNo: u32) returns (min: Option<nat>)
      requires start <= a.Length
      ensures min == FindLowest(a[..], start, seqNo)
    {
      min := None;
      var misses := 0;
      var end := a.Length;
      if end > start + LOOK_AHEAD {
        end := start + LOOK_AHEAD;
      }
      ghost var s := a[..];
      var pos := start;
      while pos != end && (min.None? || a[min.value].seqNo != seqNo)
        invariant start <= pos <= end <= a.Length && (min.Some? ==> min.value < pos)
        invariant Scan(s, pos, end, seqNo, min, misses) == FindLowest(s, start, seqNo)
        decreases end - pos
      {
        if InRange(seqNo, a[pos].seqNo) && (min.None? || IsLowerSeqNo(Signed(a[pos].seqNo), Signed(a[min.value].seqNo))) {
          min := Some(pos);
        } else if !InRange(seqNo, a[pos].seqNo) {
          misses := misses + 1;
          if misses > MAX_NR_NOT_IN_RANGE {
            return None;
          }
        }
        pos := pos + 1;
      }
    }

    /** move_record */
    method MoveRecord(a: array<Record>, target: nat, pos0: nat)
      requires target <= pos0 < a.Length
      modifies a, this`reordered, this`abortedMoves
      ensures if CanMove(old(a[..]), target, pos0) then
                a[..] == Rotated(old(a[..]), target, pos0) && reordered == old(reordered) + 1 && abortedMoves == old(abortedMoves)
              else
                a[..] == old(a[..]) && reordered == old(reordered) && abortedMoves == old(abortedMoves) + 1
    {
      ghost var s := a[..];
      var prev := target;
      while prev < pos0
        invariant target <= prev <= pos0
        invariant forall j :: target <= j < prev ==> !MustFollow(s[j], s[pos0])
      {
        if MustFollow(a[prev], a[pos0]) {
          assert MustFollow(s[prev], s[pos0]) && !CanMove(s, target, pos0);
          abortedMoves := abortedMoves + 1;
          return;
        }
        prev := prev + 1;
      }
      Shift(a, target, pos0);
      reordered := reordered + 1;
    }

    /** The second loop of move_record: the record is swapped backwards. */
    method Shift(a: array<Record>, target: nat, pos0: nat)
      requires target <= pos0 < a.Length
      modifies a
      ensures a[..] == Rotated(old(a[..]), target, pos0)
    {
      ghost var s := a[..];
      var pos := pos0;
      while pos > target
        invariant target <= pos <= pos0 && a[pos] == s[pos0]
        invariant forall j :: 0 <= j < pos || pos0 < j < a.Length ==> a[j] == s[j]
        invariant forall j {:trigger a[j]} :: pos < j <= pos0 ==> a[j] == s[j-1]
      {
        a[pos], a[pos-1] := a[pos-1], a[pos];
        pos := pos - 1;
      }
    }

    /** One iteration of the loop in reorder, with the cursor at pos. */
    method Settle(a: array<Record>, pos: nat, lastSeqNo: u32, ghost st: State) returns (ghost next: State)
      requires pos < a.Length == |st.items| && a[..] == Records(st.items)
      requires pos > 0 ==> lastSeqNo == a[pos-1].seqNo
      modifies a, this`holes, this`reordered, this`abortedMoves
      ensures next == Step(st, pos)
      ensures a[..] == Records(next.items)
      ensures holes == old(holes) + (next.holes - st.holes)
      ensures reordered == old(reordered) + (next.reordered - st.reordered)
      ensures abortedMoves == old(abortedMoves) + (next.aborted - st.aborted)
    {
      next := Step(st, pos);
      var expected := Next(lastSeqNo);
      if pos != 0 && expected != a[pos].seqNo {
        assert expected == Next(st.items[pos-1].rec.seqNo) && a[pos] == st.items[pos].rec;
        ghost var fetched := FetchRecord(a, pos, expected, st);
        assert a[pos] == fetched.items[pos].rec;
        if expected != a[pos].seqNo {
          holes := holes + 1;
        }
      }
    }

    /** The search for the best candidate and the move. */
    method FetchRecord(a: array<Record>, pos: nat, expected: u32, ghost st: State) returns (ghost fetched: State)
      requires pos < a.Length == |st.items| && a[..] == Records(st.items)
      modifies a, this`reordered, this`abortedMoves
      ensures fetched == Fetch(st, pos, expected) && a[..] == Records(fetched.items)
      ensures reordered == old(reordered) + (fetched.reordered - st.reordered)
      ensures abortedMoves == old(abortedMoves) + (fetched.aborted - st.aborted)
    {
      fetched := Fetch(st, pos, expected);
      var m := FindLowestSeqNo(a, pos, expected);
      FindLowestIsAhead(a[..], pos, expected);
      if m.Some? && m.value != pos {
        RecordsOfRotation(st.items, pos, m.value);
        MoveRecord(a, pos, m.value);
      }
    }

    /** reorder, with the items of the array as a ghost result */
    method Reorder(a: array<Record>) returns (ghost st: State)
      modifies a, this`holes, this`reordered, this`abortedMoves
      ensures st == Reordering.Reorder(old(a[..])) && a[..] == Records(st.items)
      ensures holes == old(holes) + st.holes
      ensures reordered == old(reordered) + st.reordered && abortedMoves == old(abortedMoves) + st.aborted
    {
      st := State(Tagged(a[..]), 0, 0, 0);
      ghost var goal := Run(st, 0);
      var lastSeqNo: u32 := 0;
      var pos := 0;
      while pos != a.Length
        invariant 0 <= pos <= a.Length == |st.items| && Run(st, pos) == goal
        invariant a[..] == Records(st.items)
        invariant pos > 0 ==> lastSeqNo == a[pos-1].seqNo
        invariant holes == old(holes) + st.holes
        invariant reordered == old(reordered) + st.reordered && abortedMoves == old(abortedMoves) + st.aborted
        decreases a.Length - pos
      {
        assert Run(st, pos) == Run(Step(st, pos), pos + 1);
        st := Settle(a, pos, lastSeqNo, st);
        lastSeqNo := a[pos].seqNo;
        pos := pos + 1;
      }
    }

    /** mark_as_bad */
    method MarkAsBad(a: array<Record>, i: nat)
      requires i < a.Length
      modifies a, this`nonMonotonic
      ensures a[..] == old(a[..])[i := old(a[i]).(event := MARKED)] && nonMonotonic == old(nonMonotonic) + 1
    {
      a[i] := a[i].(event := MARKED);
      nonMonotonic := nonMonotonic + 1;
    }

    /** The two per-CPU arrays hold the windows. */
    ghost predicate Hold(prev: array<Option<nat>>, pos: array<Option<nat>>, windows: seq<Window>)
      reads prev, pos
    {
      && prev.Length == pos.Length == |windows| == MAX_CPUS
      && forall c {:trigger windows[c]} :: 0 <= c < MAX_CPUS ==> windows[c] == Window(prev[c], pos[c])
    }

    method ClearWindows(ghost s: seq<Record>)
      returns (prev: array<Option<nat>>, pos: array<Option<nat>>, ghost windows: seq<Window>)
      ensures fresh(prev) && fresh(pos) && prev != pos
      ensures Hold(prev, pos, windows) && PassInvariant(s, windows, 0, {})
    {
      prev := new Option<nat>[MAX_CPUS](_ => None);
      pos := new Option<nat>[MAX_CPUS](_ => None);
      windows := seq(MAX_CPUS, _ => NO_RECORDS);
      PassStarts(s, windows);
    }

    /** pre_check_cpu_monotonicity. The per-CPU arrays have MAX_CPUS slots. */
    method PreCheckCpuMonotonicity(a: array<Record>)
      requires CpusFit(a[..])
      modifies a, this`nonMonotonic
      ensures OnlyMarked(a[..], old(a[..]), Marked(old(a[..])))
      ensures FollowsRule(old(a[..]), Marked(old(a[..])))
      ensures nonMonotonic == old(nonMonotonic) + |Marked(old(a[..]))|
    {
      MarkedIsTheRule(a[..], Marked(a[..]));
      ghost var windows;
      var prev, pos;
      prev, pos, windows := ClearWindows(a[..]);
      Sweep(a, prev, pos, windows);
    }

    /** The loop of pre_check_cpu_monotonicity. */
    method Sweep(a: array<Record>, prev: array<Option<nat>>, pos: array<Option<nat>>, ghost windows0: seq<Window>)
      requires prev != pos && CpusFit(a[..]) && Hold(prev, pos, windows0) && PassInvariant(a[..], windows0, 0, {})
      modifies a, prev, pos, this`nonMonotonic
      ensures OnlyMarked(a[..], old(a[..]), Marked(old(a[..])))
      ensures nonMonotonic == old(nonMonotonic) + |Marked(old(a[..]))|
    {
      ghost var s, windows, marked: set<nat> := a[..], windows0, {};
      assert OnlyMarked(a[..], s, marked);
      var next := 0;
      while next < a.Length
        invariant 0 <= next <= a.Length && PassInvariant(s, windows, next, marked)
        invariant Hold(prev, pos, windows) && OnlyMarked(a[..], s, marked)
        invariant nonMonotonic == old(nonMonotonic) + |marked|
      {
        windows, marked := Visit(a, prev, pos, next, s, windows, marked);
        next := next + 1;
      }
      PassIsDone(s, windows, marked);
    }

    /** One iteration of the loop: a record is skipped or examined. */
    method Visit(a: array<Record>, prev: array<Option<nat>>, pos: array<Option<nat>>, next: nat,
                 ghost s: seq<Record>, ghost windows: seq<Window>, ghost marked: set<nat>)
      returns (ghost windows': seq<Window>, ghost marked': set<nat>)
      requires next < a.Length && prev != pos && PassInvariant(s, windows, next, marked) && |s| == a.Length
      requires Hold(prev, pos, windows) && OnlyMarked(a[..], s, marked) && CpusFit(s)
      modifies a, prev, pos, this`nonMonotonic
      ensures PassInvariant(s, windows', next + 1, marked')
      ensures Hold(prev, pos, windows') && OnlyMarked(a[..], s, marked')
      ensures nonMonotonic == old(nonMonotonic) + |marked'| - |marked|
    {
      assert a[next] == a[..][next] == s[next];
      if a[next].event >= SINGLE_RECORDS_RANGE || a[next].event == TS_SEND_RESCHED_START {
        SkipKeeps(s, windows, next, marked);
        return windows, marked;
      }
      windows', marked' := Examine(a, prev, pos, next, s, windows, marked);
    }

    /** The examination of the record at position next. */
    method Examine(a: array<Record>, prev: array<Option<nat>>, pos: array<Option<nat>>, next: nat,
                   ghost s: seq<Record>, ghost windows: seq<Window>, ghost marked: set<nat>)
      returns (ghost windows': seq<Window>, ghost marked': set<nat>)
      requires next < a.Length && prev != pos && PassInvariant(s, windows, next, marked) && |s| == a.Length
      requires Hold(prev, pos, windows) && OnlyMarked(a[..], s, marked)
      requires Examined(s[next]) && s[next].cpu < MAX_CPUS
      modifies a, prev, pos, this`nonMonotonic
      ensures PassInvariant(s, windows', next + 1, marked')
      ensures Hold(prev, pos, windows') && OnlyMarked(a[..], s, marked')
      ensures nonMonotonic == old(nonMonotonic) + |marked'| - |marked|
    {
      hide PassInvariant, CpuInvariant, WindowsInFront, OnlyMarked, Pass, SubStream;
      NotYetMarked(s, windows, next, marked);
      ghost var w := windows[s[next].cpu];
      ExamineKeeps(s, windows, next, marked);
      ghost var now := a[..];
      TimesKept(now, s, marked);
      if w.pos.Some? {
        MarkOne(now, s, marked, w.pos.value);
      }
      assert a[next] == now[next];
      var cpu := a[next].cpu;
      windows' := windows[cpu := Slide(s, w, next)];
      marked' := WithMark(s, w, next, marked);
      var outlier := prev[cpu].Some? && pos[cpu].Some?
        && IsOutlier(a[prev[cpu].value].timestamp, a[pos[cpu].value].timestamp, a[next].timestamp);
      assert outlier == Marks(s, w, next);
      if outlier {
        MarkAsBad(a, pos[cpu].value);
      } else {
        prev[cpu] := pos[cpu];
      }
      pos[cpu] := Some(next);
    }

    // ---------- Release latencies ----------

    /** find_np_upper_bound, up to the end of the array */
    method FindNpUpperBound(a: array<Record>, cpu: u8, start: nat) returns (r: Option<nat>)
      requires 0 < start <= a.Length
      ensures r == NextBoundary(a[..], cpu, start)
    {
      ghost var s := a[..];
      var pos := start;
      while pos < a.Length && Next(a[pos-1].seqNo) == a[pos].seqNo
        invariant start <= pos <= a.Length && NextBoundary(s, cpu, pos) == NextBoundary(s, cpu, start)
      {
        if IsBoundary(a[pos], cpu) {
          return Some(pos);
        }
        pos := pos + 1;
      }
      return None;
    }

    /** filter_implausible_latencies, at a positive number of cycles per nanosecond. The per-CPU
        arrays have MAX_CPUS slots. */
    method FilterImplausibleLatencies(a: array<Record>, rate: real)
      requires rate > 0.0 && SlotsFit(a[..])
      modifies a, this`implausible
      ensures OnlyMarked(a[..], old(a[..]), ImplausibleOnes(old(a[..]), rate))
      ensures implausible == old(implausible) + |ImplausibleOnes(old(a[..]), rate)|
    {
      var valid := new bool[MAX_CPUS](_ => false);
      var last := new u48[MAX_CPUS](_ => 0);
      ghost var s, marked: set<nat> := a[..], {};
      NothingJudged(s, rate);
      var pos := 0;
      assert a.Length > 0 ==> Tracks(s, pos, valid[..], last[..]);
      assert OnlyMarked(a[..], s, marked);
      while pos + 1 < a.Length
        invariant 0 <= pos <= a.Length && (pos < a.Length ==> Tracks(s, pos, valid[..], last[..]))
        invariant marked == ImplausibleBefore(s, rate, pos) && OnlyMarked(a[..], s, marked)
        invariant implausible == old(implausible) + |marked|
      {
        marked := Inspect(a, rate, pos, s, marked, valid, last);
        pos := pos + 1;
      }
      AllJudged(s, rate, pos);
    }

    /** One iteration of the loop. */
    method Inspect(a: array<Record>, rate: real, pos: nat, ghost s: seq<Record>, ghost marked: set<nat>,
                   valid: array<bool>, last: array<u48>) returns (ghost marked': set<nat>)
      requires rate > 0.0 && SlotsFit(s) && pos + 1 < a.Length == |s| && Tracks(s, pos, valid[..], last[..])
      requires marked == ImplausibleBefore(s, rate, pos) && OnlyMarked(a[..], s, marked)
      modifies a, valid, last, this`implausible
      ensures Tracks(s, pos + 1, valid[..], last[..])
      ensures marked' == ImplausibleBefore(s, rate, pos + 1) && OnlyMarked(a[..], s, marked')
      ensures implausible == old(implausible) + |marked'| - |marked|
    {
      ghost var now := a[..];
      TimesKept(now, s, marked);
      assert pos !in marked && pos + 1 !in marked && now[pos] == a[pos] && now[pos+1] == a[pos+1];
      OneMoreJudged(s, rate, pos);
      OnlyLatencies(s, rate, pos);
      marked' := marked;
      assert a[pos] == s[pos] && a[pos+1] == s[pos+1] && valid.Length == last.Length == MAX_CPUS;
      assert s[pos].event in {TS_SCHED_START, TS_RELEASE_LATENCY} ==> s[pos].cpu < MAX_CPUS;
      if Next(a[pos].seqNo) != a[pos+1].seqNo {
        Reset(valid, last, s, pos);
      } else {
        TracksNext(s, pos, valid[..], last[..]);
        if a[pos].event == TS_SCHED_START {
          valid[a[pos].cpu] := true;
          last[a[pos].cpu] := a[pos].timestamp;
        } else if a[pos].event == TS_RELEASE_LATENCY {
          marked' := Judge(a, rate, pos, s, marked, valid, last);
        }
      }
    }

    /** The inner loop that forgets the CPUs' last preemptable times. */
    method Reset(valid: array<bool>, last: array<u48>, ghost s: seq<Record>, ghost pos: nat)
      requires pos + 1 < |s| && s[pos+1].seqNo != Next(s[pos].seqNo) && valid.Length == last.Length == MAX_CPUS
      modifies valid
      ensures Tracks(s, pos + 1, valid[..], last[..])
    {
      for i := 0 to MAX_CPUS
        invariant forall c :: 0 <= c < i ==> !valid[c]
      {
        valid[i] := false;
      }
    }

    /** The nested tests on a latency that is followed by its consecutive record. */
    method ExceedsBound(a: array<Record>, rate: real, pos: nat, ghost s: seq<Record>, ghost marked: set<nat>,
                 valid: array<bool>, last: array<u48>) returns (bad: bool)
      requires rate > 0.0 && pos + 1 < a.Length == |s| && Tracks(s, pos, valid[..], last[..])
      requires OnlyMarked(a[..], s, marked) && pos !in marked
      requires forall k :: k in marked ==> k < |s| && s[k].event == TS_RELEASE_LATENCY
      requires s[pos].event == TS_RELEASE_LATENCY && s[pos+1].seqNo == Next(s[pos].seqNo) && s[pos].cpu < MAX_CPUS
      ensures bad <==> Implausible(s, rate, pos)
    {
      ghost var now := a[..];
      assert now[pos] == s[pos] && now[pos] == a[pos];
      VerdictIsRight(now, s, marked, rate, pos, valid[..], last[..]);
      bad := false;
      var cpu := a[pos].cpu;
      if valid[cpu] {
        var next := FindNpUpperBound(a, cpu, pos + 1);
        if next.Some? && a[next.value].timestamp > last[cpu] {
          var delta := a[next.value].timestamp - last[cpu];
          bad := delta as real / rate < a[pos].timestamp as real;
        }
      }
    }

    /** The verdict on a latency that is followed by its consecutive record. */
    method Judge(a: array<Record>, rate: real, pos: nat, ghost s: seq<Record>, ghost marked: set<nat>,
                 valid: array<bool>, last: array<u48>) returns (ghost marked': set<nat>)
      requires rate > 0.0 && pos + 1 < a.Length == |s| && Tracks(s, pos, valid[..], last[..])
      requires OnlyMarked(a[..], s, marked) && pos !in marked
      requires forall k :: k in marked ==> k < |s| && s[k].event == TS_RELEASE_LATENCY
      requires s[pos].event == TS_RELEASE_LATENCY && s[pos+1].seqNo == Next(s[pos].seqNo) && s[pos].cpu < MAX_CPUS
      modifies a, this`implausible
      ensures marked' == if Implausible(s, rate, pos) then marked + {pos} else marked
      ensures OnlyMarked(a[..], s, marked') && implausible == old(implausible) + |marked'| - |marked|
    {
      var bad := ExceedsBound(a, rate, pos, s, marked, valid, last);
      marked' := marked;
      if bad {
        MarkOne(a[..], s, marked, pos);
        a[pos] := a[pos].(event := MARKED);
        implausible := implausible + 1;
        marked' := marked + {pos};
      }
    }

    /** The passes of the main function in order, at a number of cycles per nanosecond, which is 0 if
        it has not been given. */
    method SortTrace(a: array<Record>, rate: real) returns (ghost checked: seq<Record>, ghost st: State)
      requires rate >= 0.0 && AllCpusFit(a[..])
      modifies a, this
      ensures OnlyMarked(checked, old(a[..]), Marked(old(a[..]))) && st == Reordering.Reorder(checked)
      ensures if rate == 0.0 then a[..] == Records(st.items)
              else OnlyMarked(a[..], Records(st.items), ImplausibleOnes(Records(st.items), rate))
      ensures nonMonotonic == old(nonMonotonic) + |Marked(old(a[..]))|
      ensures holes == old(holes) + st.holes
      ensures reordered == old(reordered) + st.reordered && abortedMoves == old(abortedMoves) + st.aborted
      ensures implausible == old(implausible) + if rate == 0.0 then 0 else |ImplausibleOnes(Records(st.items), rate)|
    {
      ghost var s := a[..];
      PreCheckCpuMonotonicity(a);
      checked := a[..];
      st := Reorder(a);
      PassesKeepCpus(s, checked, Marked(s), st);
      if rate != 0.0 {
        FilterImplausibleLatencies(a, rate);
      }
    }
  }

  ghost predicate AllCpusFit(s: seq<Record>) {
    forall i :: 0 <= i < |s| ==> s[i].cpu < MAX_CPUS
  }

  lemma {:induction false} PassesKeepCpus(s: seq<Record>, checked: seq<Record>, marked: set<nat>, st: State)
    requires AllCpusFit(s) && OnlyMarked(checked, s, marked) && st == Reordering.Reorder(checked)
    ensures SlotsFit(Records(st.items))
  {
    ReorderKeeps(checked);
    TimesKept(checked, s, marked);
    forall i | 0 <= i < |st.items|
      ensures Records(st.items)[i].cpu < MAX_CPUS
    {
      assert st.items[i].rec == checked[st.items[i].origin];
    }
  }
}
