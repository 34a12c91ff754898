/** What one step of the reorder pass does to any trace: which record it looks for, when it gives up,
    and when it moves. */
module SearchLaws {
  import opened Options
  import opened Trace
  import opened SeqNumbers
  import opened Reordering

  // ---------- The search ----------

  /** A record whose number is less than LOOK_AHEAD ahead of the expected one */
  predicate IsNear(seqNo: u32, r: Record) {
    (r.seqNo - seqNo) % WORD < LOOK_AHEAD
  }

  /** The search ends at position q: there is the first record of the window with the expected number,
      or the window ends. */
  ghost predicate IsStop(s: seq<Record>, start: nat, seqNo: u32, q: nat) {
    && start <= q <= |s| && q <= start + LOOK_AHEAD
    && (forall j :: start <= j < q ==> s[j].seqNo != seqNo)
    && (q < |s| && q < start + LOOK_AHEAD ==> s[q].seqNo == seqNo)
  }

  ghost function Misses(s: seq<Record>, seqNo: u32, a: nat, b: nat): set<nat>
    requires b <= |s|
  {
    set j | a <= j < b && !IsNear(seqNo, s[j])
  }

  /** r is the position of the record in range that is closest ahead, the last one of these, among the
      positions from start up to but not including b. */
  ghost predicate IsBest(s: seq<Record>, start: nat, b: nat, seqNo: u32, r: nat)
    requires b <= |s|
  {
    && start <= r < b && IsNear(seqNo, s[r])
    && forall j :: start <= j < b && IsNear(seqNo, s[j]) ==>
         && (s[r].seqNo - seqNo) % WORD <= (s[j].seqNo - seqNo) % WORD
         && (j > r ==> (s[r].seqNo - seqNo) % WORD < (s[j].seqNo - seqNo) % WORD)
  }

  /** The best position, or none if no record is in range */
  ghost predicate IsBestOf(s: seq<Record>, start: nat, b: nat, seqNo: u32, r: Option<nat>)
    requires b <= |s|
  {
    match r
    case None => forall j :: start <= j < b ==> !IsNear(seqNo, s[j])
    case Some(m) => IsBest(s, start, b, seqNo, m)
  }

  /** How far the search looks: up to and including the record with the expected number */
  function Reach(s: seq<Record>, start: nat, q: nat): nat {
    if q < |s| && q < start + LOOK_AHEAD then q + 1 else q
  }

  lemma {:induction false} OneMoreBest(s: seq<Record>, start: nat, pos: nat, seqNo: u32, min: Option<nat>)
    requires start <= pos < |s| && IsBestOf(s, start, pos, seqNo, min)
    ensures InRange(seqNo, s[pos].seqNo) <==> IsNear(seqNo, s[pos])
    ensures min.Some? ==> start <= min.value < pos
    ensures s[pos].seqNo == seqNo ==> IsNear(seqNo, s[pos])
    ensures var lower := min.None? || IsLowerSeqNo(Signed(s[pos].seqNo), Signed(s[min.value].seqNo));
            IsBestOf(s, start, pos + 1, seqNo, if IsNear(seqNo, s[pos]) && lower then Some(pos) else min)
  {
    hide InRange, IsLowerSeqNo, Signed;
    InRangeIsDistance(seqNo, s[pos].seqNo);
    if min.Some? && IsNear(seqNo, s[pos]) {
      InRangeIsDistance(seqNo, s[min.value].seqNo);
      IsLowerIsDistance(seqNo, s[pos].seqNo, s[min.value].seqNo);
    }
  }

  lemma {:induction false} OneMoreMiss(s: seq<Record>, seqNo: u32, start: nat, pos: nat)
    requires start <= pos < |s|
    ensures |Misses(s, seqNo, start, pos + 1)| == |Misses(s, seqNo, start, pos)| + if IsNear(seqNo, s[pos]) then 0 else 1
  {
    var before := Misses(s, seqNo, start, pos);
    if IsNear(seqNo, s[pos]) {
      assert Misses(s, seqNo, start, pos + 1) == before;
    } else {
      assert Misses(s, seqNo, start, pos + 1) == before + {pos};
    }
  }

  lemma {:induction false} MoreMisses(s: seq<Record>, seqNo: u32, start: nat, pos: nat, q: nat)
    requires start <= pos <= q <= |s|
    ensures |Misses(s, seqNo, start, pos)| <= |Misses(s, seqNo, start, q)|
    decreases q - pos
  {
    if pos < q {
      OneMoreMiss(s, seqNo, start, pos);
      MoreMisses(s, seqNo, start, pos + 1, q);
    }
  }

  /** Once the expected number has been seen, it is the best one. */
  lemma {:induction false} ExpectedIsBest(s: seq<Record>, start: nat, seqNo: u32, q: nat, min: Option<nat>)
    requires IsStop(s, start, seqNo, q) && q < |s| && s[q].seqNo == seqNo && IsBestOf(s, start, q + 1, seqNo, min)
    ensures min == Some(q)
  {
    assert IsNear(seqNo, s[q]);
  }

  lemma {:induction false} ScanIsExact(s: seq<Record>, start: nat, pos: nat, end: nat, seqNo: u32, min: Option<nat>,
                                       misses: nat, q: nat)
    requires start <= |s| && start <= pos <= end == WindowEnd(|s|, start) && IsStop(s, start, seqNo, q)
    requires pos <= Reach(s, start, q) && IsBestOf(s, start, pos, seqNo, min) && (min.Some? ==> min.value < pos)
    requires misses == |Misses(s, seqNo, start, if pos <= q then pos else q)| <= MAX_NR_NOT_IN_RANGE
    ensures var r := Scan(s, pos, end, seqNo, min, misses);
            if |Misses(s, seqNo, start, q)| <= MAX_NR_NOT_IN_RANGE then IsBestOf(s, start, Reach(s, start, q), seqNo, r)
            else r == None
    decreases end - pos
  {
    hide IsBest, Misses, InRange, IsNear, IsLowerSeqNo;
    if pos > q {
      ExpectedIsBest(s, start, seqNo, q, min);
    } else if pos < end {
      OneMoreBest(s, start, pos, seqNo, min);
      assert min.Some? ==> s[min.value].seqNo != seqNo;
      var lower := min.None? || IsLowerSeqNo(Signed(s[pos].seqNo), Signed(s[min.value].seqNo));
      if pos < q {
        OneMoreMiss(s, seqNo, start, pos);
        MoreMisses(s, seqNo, start, pos + 1, q);
      }
      if IsNear(seqNo, s[pos]) {
        ScanIsExact(s, start, pos + 1, end, seqNo, if lower then Some(pos) else min, misses, q);
      } else if misses < MAX_NR_NOT_IN_RANGE {
        ScanIsExact(s, start, pos + 1, end, seqNo, min, misses + 1, q);
      }
    }
  }

  /** find_lowest_seq_no on any records: it gives up if more than MAX_NR_NOT_IN_RANGE records out of
      range precede the stop; otherwise it returns the best record up to there, and nothing only if
      there is none in range. */
  lemma {:induction false} FindLowestIsExact(s: seq<Record>, start: nat, seqNo: u32, q: nat)
    requires start <= |s| && IsStop(s, start, seqNo, q)
    ensures if |Misses(s, seqNo, start, q)| <= MAX_NR_NOT_IN_RANGE then
              IsBestOf(s, start, Reach(s, start, q), seqNo, FindLowest(s, start, seqNo))
            else FindLowest(s, start, seqNo) == None
  {
    assert Misses(s, seqNo, start, start) == {};
    ScanIsExact(s, start, start, WindowEnd(|s|, start), seqNo, None, 0, q);
  }

  /** There always is a stop, and the best position is unique: the search is determined. */
  lemma {:induction false} StopExists(s: seq<Record>, start: nat, seqNo: u32, i: nat) returns (q: nat)
    requires start <= i <= |s| && i <= start + LOOK_AHEAD && forall j :: start <= j < i ==> s[j].seqNo != seqNo
    ensures IsStop(s, start, seqNo, q)
    decreases |s| - i
  {
    if i == |s| || i == start + LOOK_AHEAD || s[i].seqNo == seqNo {
      q := i;
    } else {
      q := StopExists(s, start, seqNo, i + 1);
    }
  }

  lemma {:induction false} BestIsUnique(s: seq<Record>, start: nat, b: nat, seqNo: u32, r: nat, r': nat)
    requires b <= |s| && IsBest(s, start, b, seqNo, r) && IsBest(s, start, b, seqNo, r')
    ensures r == r'
  {
  }

  lemma {:induction false} BestOfIsUnique(s: seq<Record>, start: nat, b: nat, seqNo: u32, r: Option<nat>, r': Option<nat>)
    requires b <= |s| && IsBestOf(s, start, b, seqNo, r) && IsBestOf(s, start, b, seqNo, r')
    ensures r == r'
  {
    if r.Some? && r'.Some? {
      BestIsUnique(s, start, b, seqNo, r.value, r'.value);
    }
  }

  // ---------- The move ----------

  /** A move is aborted only for records of the same CPU, or of the same nonzero PID, neither of which
      is a TS_SEND_RESCHED_START. */
  lemma {:induction false} MoveIsAllowed(s: seq<Record>, target: nat, pos: nat)
    requires target <= pos < |s|
    ensures CanMove(s, target, pos) <==>
              || s[pos].event == TS_SEND_RESCHED_START
              || forall j :: target <= j < pos ==>
                   || s[j].event == TS_SEND_RESCHED_START
                   || (s[j].cpu != s[pos].cpu && (s[j].pid != s[pos].pid || s[pos].pid == 0))
  {
    forall j | target <= j < pos
      ensures MustFollow(s[j], s[pos]) <==>
                && s[j].event != TS_SEND_RESCHED_START && s[pos].event != TS_SEND_RESCHED_START
                && (s[j].cpu == s[pos].cpu || (s[j].pid == s[pos].pid && s[pos].pid != 0))
    {
    }
  }

  // ---------- The step ----------

  /** What the search at position i should find: nothing if there are too many misses before its end,
      and otherwise the best record up to there. */
  ghost predicate IsFound(s: seq<Record>, i: nat, seqNo: u32, m: Option<nat>) {
    exists q: nat :: IsStop(s, i, seqNo, q) &&
      if |Misses(s, seqNo, i, q)| <= MAX_NR_NOT_IN_RANGE then IsBestOf(s, i, Reach(s, i, q), seqNo, m) else m == None
  }

  lemma {:induction false} StopIsUnique(s: seq<Record>, start: nat, seqNo: u32, q: nat, q': nat)
    requires IsStop(s, start, seqNo, q) && IsStop(s, start, seqNo, q')
    ensures q == q'
  {
  }

  /** The search finds what it should. */
  lemma {:induction false} FoundIsExact(s: seq<Record>, i: nat, seqNo: u32, m: Option<nat>)
    requires i <= |s|
    ensures IsFound(s, i, seqNo, m) <==> m == FindLowest(s, i, seqNo)
  {
    hide Misses, IsBest;
    var q := StopExists(s, i, seqNo, i);
    var r := FindLowest(s, i, seqNo);
    FindLowestIsExact(s, i, seqNo, q);
    if IsFound(s, i, seqNo, m) {
      var q': nat :| IsStop(s, i, seqNo, q') &&
        if |Misses(s, seqNo, i, q')| <= MAX_NR_NOT_IN_RANGE then IsBestOf(s, i, Reach(s, i, q'), seqNo, m) else m == None;
      StopIsUnique(s, i, seqNo, q, q');
      if |Misses(s, seqNo, i, q)| <= MAX_NR_NOT_IN_RANGE {
        BestOfIsUnique(s, i, Reach(s, i, q), seqNo, m, r);
      }
    }
  }

  /** A record of the same CPU, or of the same nonzero PID, is in the way. TS_SEND_RESCHED_START neither
      blocks nor is blocked. */
  ghost predicate IsBlocked(s: seq<Record>, i: nat, m: nat)
    requires i <= m < |s|
  {
    exists j :: i <= j < m && s[j].event != TS_SEND_RESCHED_START && s[m].event != TS_SEND_RESCHED_START
                && (s[j].cpu == s[m].cpu || (s[j].pid == s[m].pid != 0))
  }

  /** One step of the pass on any records. */
  lemma {:induction false} StepIsExact(st: State, i: nat, m: Option<nat>)
    requires 0 < i < |st.items| && IsFound(Records(st.items), i, Next(st.items[i-1].rec.seqNo), m)
    ensures var s, t, e, st' := Records(st.items), st.items, Next(st.items[i-1].rec.seqNo), Step(st, i);
            if s[i].seqNo == e then st' == st
            else if m.None? || m.value <= i then st' == st.(holes := st.holes + 1)
            else if IsBlocked(s, i, m.value) then st' == st.(aborted := st.aborted + 1, holes := st.holes + 1)
            else st' == State(t[..i] + [t[m.value]] + t[i..m.value] + t[m.value+1..],
                              st.holes + if s[m.value].seqNo == e then 0 else 1, st.reordered + 1, st.aborted)
  {
    hide FindLowest;
    var s, e := Records(st.items), Next(st.items[i-1].rec.seqNo);
    FoundIsExact(s, i, e, m);
    if m.Some? && m.value > i {
      MoveIsAllowed(s, i, m.value);
    }
  }
}
