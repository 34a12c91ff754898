/** What the reorder pass of src/ftsort.c computes, as a function of the trace. */
module Reordering {
  import opened Options
  import opened Trace
  import opened SeqNumbers

  const MAX_NR_NOT_IN_RANGE: int := 5

  /** A record and its position in the original trace. Two records can have equal values. */
  datatype Item = Item(rec: Record, origin: nat)

  datatype State = State(items: seq<Item>, holes: nat, reordered: nat, aborted: nat)

  function Tagged(s: seq<Record>): (t: seq<Item>) {
    seq(|s|, i requires 0 <= i < |s| => Item(s[i], i))
  }

  function Records(t: seq<Item>): (s: seq<Record>) {
    seq(|t|, i requires 0 <= i < |t| => t[i].rec)
  }

  // ---------- find_lowest_seq_no ----------

  function WindowEnd(n: nat, start: nat): (end: nat)
    requires start <= n
    ensures start <= end <= n
  {
    if n > start + LOOK_AHEAD then start + LOOK_AHEAD else n
  }

  /** The scan of find_lowest_seq_no at position pos, with the best candidate so far and the number
      of records out of range. */
  function Scan(s: seq<Record>, pos: nat, end: nat, seqNo: u32, min: Option<nat>, misses: nat): (r: Option<nat>)
    requires pos <= end <= |s| && (min.Some? ==> min.value < pos)
    ensures r.Some? ==> r.value < end
    decreases end - pos
  {
    if pos == end || (min.Some? && s[min.value].seqNo == seqNo) then min
    else if InRange(seqNo, s[pos].seqNo) then
      if min.None? || IsLowerSeqNo(Signed(s[pos].seqNo), Signed(s[min.value].seqNo)) then
        Scan(s, pos + 1, end, seqNo, Some(pos), misses)
      else Scan(s, pos + 1, end, seqNo, min, misses)
    else if misses + 1 > MAX_NR_NOT_IN_RANGE then None
    else Scan(s, pos + 1, end, seqNo, min, misses + 1)
  }

  function FindLowest(s: seq<Record>, start: nat, seqNo: u32): (r: Option<nat>)
    requires start <= |s|
    ensures r.Some? ==> r.value < |s|
  {
    Scan(s, start, WindowEnd(|s|, start), seqNo, None, 0)
  }

  /** m is a position in [start, pos) whose record is closest ahead of seqNo among the records in
      range at these positions. */
  ghost predicate LowestInRange(s: seq<Record>, start: nat, pos: nat, seqNo: u32, m: nat)
    requires pos <= |s|
  {
    && start <= m < pos && InRange(seqNo, s[m].seqNo)
    && forall j :: start <= j < pos && InRange(seqNo, s[j].seqNo) ==>
         Distance(seqNo, s[m].seqNo) <= Distance(seqNo, s[j].seqNo)
  }

  lemma {:induction false} ScanFindsLowest(s: seq<Record>, start: nat, pos: nat, end: nat, seqNo: u32, min: Option<nat>, misses: nat)
    requires start <= pos <= end <= |s| && (min.Some? ==> min.value < pos)
    requires match min
             case None => forall j :: start <= j < pos ==> !InRange(seqNo, s[j].seqNo)
             case Some(m) => LowestInRange(s, start, pos, seqNo, m)
    ensures Scan(s, pos, end, seqNo, min, misses).Some? ==>
              LowestInRange(s, start, end, seqNo, Scan(s, pos, end, seqNo, min, misses).value)
    decreases end - pos
  {
    if pos == end {
    } else if min.Some? && s[min.value].seqNo == seqNo {
      assert Distance(seqNo, seqNo) == 0;
    } else if InRange(seqNo, s[pos].seqNo) {
      if min.Some? {
        IsLowerIsDistance(seqNo, s[pos].seqNo, s[min.value].seqNo);
      }
      if min.None? || IsLowerSeqNo(Signed(s[pos].seqNo), Signed(s[min.value].seqNo)) {
        ScanFindsLowest(s, start, pos + 1, end, seqNo, Some(pos), misses);
      } else {
        ScanFindsLowest(s, start, pos + 1, end, seqNo, min, misses);
      }
    } else if misses + 1 <= MAX_NR_NOT_IN_RANGE {
      ScanFindsLowest(s, start, pos + 1, end, seqNo, min, misses + 1);
    }
  }

  /** A found record is closest ahead of the expected number in the whole look-ahead window, even
      if the scan stops early. */
  lemma {:induction false} FindLowestIsLowest(s: seq<Record>, start: nat, seqNo: u32)
    requires start <= |s|
    ensures var r := FindLowest(s, start, seqNo);
            r.Some? ==> LowestInRange(s, start, WindowEnd(|s|, start), seqNo, r.value)
  {
    ScanFindsLowest(s, start, start, WindowEnd(|s|, start), seqNo, None, 0);
  }

  // ---------- move_record ----------

  /** May a record not be moved before another one, since the same CPU or task recorded both? */
  predicate MustFollow(prev: Record, pos: Record) {
    && prev.event != TS_SEND_RESCHED_START
    && pos.event != TS_SEND_RESCHED_START
    && (prev.cpu == pos.cpu || (prev.pid == pos.pid && pos.pid != 0))
  }

  predicate CanMove(s: seq<Record>, target: nat, pos: nat)
    requires target <= pos < |s|
  {
    forall j :: target <= j < pos ==> !MustFollow(s[j], s[pos])
  }

  /** The element at pos moves back to target; the ones in between shift by one. */
  function Rotated<T>(t: seq<T>, target: nat, pos: nat): (r: seq<T>)
    requires target <= pos < |t|
    ensures |r| == |t|
    ensures forall j :: 0 <= j < |t| ==>
              r[j] == if j < target || j > pos then t[j] else if j == target then t[pos] else t[j-1]
  {
    t[..target] + [t[pos]] + t[target..pos] + t[pos+1..]
  }

  function Move(st: State, target: nat, pos: nat): (st': State)
    requires target <= pos < |st.items|
    ensures |st'.items| == |st.items| && st'.holes == st.holes
  {
    if CanMove(Records(st.items), target, pos) then
      st.(items := Rotated(st.items, target, pos), reordered := st.reordered + 1)
    else st.(aborted := st.aborted + 1)
  }

  // ---------- reorder ----------

  /** The move attempted at the cursor, if any. */
  function Fetch(st: State, i: nat, expected: u32): (st': State)
    requires i < |st.items|
    ensures |st'.items| == |st.items| && st'.holes == st.holes
  {
    var m := FindLowest(Records(st.items), i, expected);
    if m.Some? && m.value > i then Move(st, i, m.value) else st
  }

  /** One step of the reorder loop with the cursor at i. */
  function Step(st: State, i: nat): (st': State)
    requires i < |st.items|
    ensures |st'.items| == |st.items|
  {
    if i == 0 then st
    else
      var expected := Next(st.items[i-1].rec.seqNo);
      if st.items[i].rec.seqNo == expected then st
      else
        var st1 := Fetch(st, i, expected);
        if st1.items[i].rec.seqNo != expected then st1.(holes := st1.holes + 1) else st1
  }

  function Run(st: State, i: nat): (st': State)
    requires i <= |st.items|
    ensures |st'.items| == |st.items|
    decreases |st.items| - i
  {
    if i == |st.items| then st else Run(Step(st, i), i + 1)
  }

  function Reorder(s: seq<Record>): (st: State)
    ensures |st.items| == |s|
  {
    Run(State(Tagged(s), 0, 0, 0), 0)
  }

  /** A candidate that is found is never before the start of the scan. */
  lemma {:induction false} FindLowestIsAhead(s: seq<Record>, start: nat, seqNo: u32)
    requires start <= |s|
    ensures var r := FindLowest(s, start, seqNo); r.Some? ==> start <= r.value < start + LOOK_AHEAD
  {
    FindLowestIsLowest(s, start, seqNo);
  }

  /** What a step can do to the items: nothing, or one rotation of an unconstrained record to the
      cursor, by less than LOOK_AHEAD places. */
  lemma {:induction false} StepEffect(st: State, i: nat) returns (p: nat)
    requires i < |st.items|
    ensures i <= p < |st.items| && p < i + LOOK_AHEAD && CanMove(Records(st.items), i, p)
    ensures Step(st, i).items == Rotated(st.items, i, p)
  {
    p := i;
    assert Rotated(st.items, i, i) == st.items;
    if i > 0 {
      var expected := Next(st.items[i-1].rec.seqNo);
      var s := Records(st.items);
      FindLowestIsAhead(s, i, expected);
      var m := FindLowest(s, i, expected);
      if st.items[i].rec.seqNo != expected && m.Some? && m.value > i && CanMove(s, i, m.value) {
        p := m.value;
      }
    }
  }
}
