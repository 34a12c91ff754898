/** The spike and gap pass of src/ftsort.c, CPU by CPU. */
module Monotonicity {
  import opened Options
  import opened Trace

  const MAX_CPUS: nat := 255

  /** Single records and TS_SEND_RESCHED_START are not looked at. */
  predicate Examined(r: Record) {
    r.event < SINGLE_RECORDS_RANGE && r.event != TS_SEND_RESCHED_START
  }

  /** Is the middle one of three timestamps a spike or a gap? */
  predicate IsOutlier(prev: u48, pos: u48, next: u48) {
    || (prev < pos && pos >= next && prev < next)
    || (prev >= pos && pos < next && prev < next)
  }

  /** The last two examined records of a CPU that are still taken at face value. */
  datatype Window = Window(prev: Option<nat>, pos: Option<nat>)

  const NO_RECORDS := Window(None, None)

  predicate Marks(s: seq<Record>, w: Window, next: nat)
    requires next < |s|
    requires (w.prev.Some? ==> w.prev.value < |s|) && (w.pos.Some? ==> w.pos.value < |s|)
  {
    && w.prev.Some? && w.pos.Some?
    && IsOutlier(s[w.prev.value].timestamp, s[w.pos.value].timestamp, s[next].timestamp)
  }

  /** The window after the record at position next. A marked record leaves the window. */
  function Slide(s: seq<Record>, w: Window, next: nat): Window
    requires next < |s|
    requires (w.prev.Some? ==> w.prev.value < |s|) && (w.pos.Some? ==> w.pos.value < |s|)
  {
    Window(if Marks(s, w, next) then w.prev else w.pos, Some(next))
  }

  ghost predicate Within(s: seq<Record>, w: Window, idx: seq<nat>) {
    && (w.prev.Some? ==> w.prev.value < |s|) && (w.pos.Some? ==> w.pos.value < |s|)
    && forall j :: 0 <= j < |idx| ==> idx[j] < |s|
  }

  /** The positions that the pass marks in a trace of one CPU, whose records are at positions idx. */
  ghost function Pass(s: seq<Record>, idx: seq<nat>, w: Window): set<nat>
    requires Within(s, w, idx)
    decreases |idx|
  {
    if idx == [] then {}
    else
      (if Marks(s, w, idx[0]) then {w.pos.value} else {}) + Pass(s, idx[1..], Slide(s, w, idx[0]))
  }

  /** The positions from i on of the examined records of a CPU. */
  ghost function SubStream(s: seq<Record>, cpu: u8, i: nat): (idx: seq<nat>)
    requires i <= |s|
    ensures forall j :: 0 <= j < |idx| ==> i <= idx[j] < |s| && s[idx[j]].cpu == cpu && Examined(s[idx[j]])
    ensures forall j, k :: 0 <= j < k < |idx| ==> idx[j] < idx[k]
    decreases |s| - i
  {
    if i == |s| then []
    else if Examined(s[i]) && s[i].cpu == cpu then [i] + SubStream(s, cpu, i + 1)
    else SubStream(s, cpu, i + 1)
  }

  /** The positions marked on one CPU: those that the pass marks on the CPU's own sub-stream. */
  ghost function MarkedOn(s: seq<Record>, cpu: u8): set<nat> {
    Pass(s, SubStream(s, cpu, 0), NO_RECORDS)
  }

  ghost function Marked(s: seq<Record>): set<nat> {
    set i | 0 <= i < |s| && i in MarkedOn(s, s[i].cpu)
  }

  /** Only records of the sub-stream or the window are marked. */
  lemma {:induction false} PassMarksIts(s: seq<Record>, idx: seq<nat>, w: Window, x: nat)
    requires Within(s, w, idx) && x in Pass(s, idx, w)
    ensures x in idx || w.pos == Some(x)
    decreases |idx|
  {
    if !(Marks(s, w, idx[0]) && x == w.pos.value) {
      PassMarksIts(s, idx[1..], Slide(s, w, idx[0]), x);
    }
  }

  lemma {:induction false} MarkedOnIsOnCpu(s: seq<Record>, cpu: u8, x: nat)
    requires x in MarkedOn(s, cpu)
    ensures x < |s| && s[x].cpu == cpu && Examined(s[x])
  {
    PassMarksIts(s, SubStream(s, cpu, 0), NO_RECORDS, x);
  }

  // ---------- One outlier is repaired ----------

  /** Without the one at position k, the timestamps of a CPU increase strictly. */
  ghost predicate IncreasingBut(s: seq<Record>, idx: seq<nat>, k: int)
    requires forall j :: 0 <= j < |idx| ==> idx[j] < |s|
  {
    forall i, j :: 0 <= i < j < |idx| && i != k && j != k ==> Time(s, idx[i]) < Time(s, idx[j])
  }

  /** The window in front of position j of a sub-stream. */
  ghost function WindowAt(idx: seq<nat>, j: nat): Window
    requires j <= |idx|
  {
    Window(if j < 2 then None else Some(idx[j-2]), if j < 1 then None else Some(idx[j-1]))
  }

  /** Nothing is marked while the timestamps increase. */
  lemma {:induction false} NothingMarked(s: seq<Record>, idx: seq<nat>, w: Window)
    requires Within(s, w, idx)
    requires forall i, j :: 0 <= i < j < |idx| ==> Time(s, idx[i]) < Time(s, idx[j])
    requires idx != [] && w.pos.Some? ==> Time(s, w.pos.value) < Time(s, idx[0])
    requires w.prev.Some? && w.pos.Some? ==> Time(s, w.prev.value) < Time(s, w.pos.value)
    ensures Pass(s, idx, w) == {}
    decreases |idx|
  {
    if idx != [] {
      NothingMarked(s, idx[1..], Slide(s, w, idx[0]));
    }
  }

  lemma {:induction false} PrefixUnmarked(s: seq<Record>, idx: seq<nat>, k: nat, j: nat)
    requires (forall i :: 0 <= i < |idx| ==> idx[i] < |s|) && IncreasingBut(s, idx, k)
    requires j <= k < |idx|
    ensures Pass(s, idx, NO_RECORDS) == Pass(s, idx[j..], WindowAt(idx, j))
    decreases j
  {
    if j == 0 {
      assert idx[0..] == idx;
    } else {
      PrefixUnmarked(s, idx, k, j - 1);
      var rest := idx[j-1..];
      assert rest[0] == idx[j-1] && rest[1..] == idx[j..];
      assert !Marks(s, WindowAt(idx, j - 1), rest[0]);
    }
  }

  /** With one outlier at position k, only the records at k - 1 and k can be marked, and not both. */
  lemma {:induction false} MarkedAtOutlier(s: seq<Record>, idx: seq<nat>, k: nat)
    requires (forall i :: 0 <= i < |idx| ==> idx[i] < |s|) && IncreasingBut(s, idx, k)
    requires 0 < k < |idx| - 1
    ensures var w := WindowAt(idx, k);
            Pass(s, idx, NO_RECORDS) ==
              if Marks(s, w, idx[k]) then {idx[k-1]}
              else if Marks(s, Slide(s, w, idx[k]), idx[k+1]) then {idx[k]}
              else {}
  {
    PrefixUnmarked(s, idx, k, k);
    var w1 := Slide(s, WindowAt(idx, k), idx[k]);
    var rest, tail, after := idx[k..], idx[k+1..], idx[k+2..];
    assert rest[0] == idx[k] && rest[1..] == tail && tail[0] == idx[k+1] && tail[1..] == after;
    var w2 := Slide(s, w1, idx[k+1]);
    assert Pass(s, tail, w1) == (if Marks(s, w1, idx[k+1]) then {idx[k]} else {}) + Pass(s, after, w2);
    NothingMarked(s, after, w2);
  }

  /** If the timestamps of a CPU increase strictly but for one examined record, with others before
      and after it, then at most one record is marked, and the others increase strictly. */
  lemma {:induction false} OneOutlierIsRepaired(s: seq<Record>, idx: seq<nat>, k: nat)
    requires (forall i :: 0 <= i < |idx| ==> idx[i] < |s|) && IncreasingBut(s, idx, k)
    requires 0 < k < |idx| - 1
    ensures |Pass(s, idx, NO_RECORDS)| <= 1
    ensures forall i, j :: 0 <= i < j < |idx| && idx[i] !in Pass(s, idx, NO_RECORDS) && idx[j] !in Pass(s, idx, NO_RECORDS) ==>
              Time(s, idx[i]) < Time(s, idx[j])
  {
    MarkedAtOutlier(s, idx, k);
    var marked := Pass(s, idx, NO_RECORDS);
    forall i, j | 0 <= i < j < |idx| && idx[i] !in marked && idx[j] !in marked
      ensures Time(s, idx[i]) < Time(s, idx[j])
    {
      if i == k {
        assert Time(s, idx[k-1]) < Time(s, idx[k+1]);
      } else if j == k && i < k - 1 {
        assert Time(s, idx[i]) < Time(s, idx[k-1]);
      }
    }
  }

  /** Every examined record of a CPU has its place in the sub-stream. */
  lemma {:induction false} PlaceInSubStream(s: seq<Record>, cpu: u8, i: nat, x: nat) returns (j: nat)
    requires i <= x < |s| && s[x].cpu == cpu && Examined(s[x])
    ensures j < |SubStream(s, cpu, i)| && SubStream(s, cpu, i)[j] == x
    decreases x - i
  {
    if i == x {
      j := 0;
    } else {
      j := PlaceInSubStream(s, cpu, i + 1, x);
      if Examined(s[i]) && s[i].cpu == cpu {
        j := j + 1;
      }
    }
  }

  /** An examined record of a CPU that the pass does not mark. */
  ghost predicate Remains(s: seq<Record>, cpu: u8, x: nat)
    requires x < |s|
  {
    s[x].cpu == cpu && Examined(s[x]) && x !in Marked(s)
  }

  /** The repair in terms of the whole trace: one examined record of a CPU disturbs an otherwise
      strictly increasing order, and it has others before and after it. */
  lemma {:induction false} OutlierOnCpuIsRepaired(s: seq<Record>, cpu: u8, k: nat)
    requires IncreasingBut(s, SubStream(s, cpu, 0), k) && 0 < k < |SubStream(s, cpu, 0)| - 1
    ensures |MarkedOn(s, cpu)| <= 1
    ensures forall x, y :: 0 <= x < y < |s| && Remains(s, cpu, x) && Remains(s, cpu, y) ==> Time(s, x) < Time(s, y)
  {
    var idx := SubStream(s, cpu, 0);
    OneOutlierIsRepaired(s, idx, k);
    forall x, y | 0 <= x < y < |s| && Remains(s, cpu, x) && Remains(s, cpu, y)
      ensures Time(s, x) < Time(s, y)
    {
      var i := PlaceInSubStream(s, cpu, 0, x);
      var j := PlaceInSubStream(s, cpu, 0, y);
      assert i < j && idx[i] !in MarkedOn(s, cpu) && idx[j] !in MarkedOn(s, cpu);
    }
  }

  // ---------- The pass over an interleaved trace ----------

  /** The per-CPU windows in front of position i, one slot per CPU. */
  ghost predicate WindowsInFront(s: seq<Record>, windows: seq<Window>, i: nat) {
    && |windows| == MAX_CPUS && i <= |s|
    && forall c :: 0 <= c < MAX_CPUS ==>
         && (windows[c].prev.Some? ==> windows[c].prev.value < i)
         && (windows[c].pos.Some? ==> windows[c].pos.value < i && s[windows[c].pos.value].cpu == c)
  }

  /** What has been marked in front of position i, together with what the CPUs will still mark on
      their own, is what they mark altogether; and no window is stale. */
  ghost predicate PassInvariant(s: seq<Record>, windows: seq<Window>, i: nat, marked: set<nat>) {
    && WindowsInFront(s, windows, i)
    && (forall x :: x in marked ==> x < i && s[x].cpu < MAX_CPUS)
    && (forall c {:trigger CpuInvariant(s, windows[c], c, i, marked)} :: 0 <= c < MAX_CPUS ==>
          CpuInvariant(s, windows[c], c, i, marked))
  }

  ghost predicate CpuInvariant(s: seq<Record>, w: Window, c: nat, i: nat, marked: set<nat>)
    requires i <= |s| && c < MAX_CPUS && (forall x :: x in marked ==> x < |s|)
    requires (w.prev.Some? ==> w.prev.value < |s|) && (w.pos.Some? ==> w.pos.value < |s|)
  {
    && (w.pos.Some? ==> w.pos.value !in marked)
    && MarkedOn(s, c) == (set x | x in marked && s[x].cpu == c) + Pass(s, SubStream(s, c, i), w)
  }

  lemma {:induction false} PassStarts(s: seq<Record>, windows: seq<Window>)
    requires |windows| == MAX_CPUS && forall c :: 0 <= c < MAX_CPUS ==> windows[c] == NO_RECORDS
    ensures PassInvariant(s, windows, 0, {})
  {
    forall c | 0 <= c < MAX_CPUS
      ensures CpuInvariant(s, windows[c], c, 0, {})
    {
    }
  }

  /** A record that is not examined changes nothing. */
  lemma {:induction false} SkipKeeps(s: seq<Record>, windows: seq<Window>, i: nat, marked: set<nat>)
    requires PassInvariant(s, windows, i, marked) && i < |s| && !Examined(s[i])
    ensures PassInvariant(s, windows, i + 1, marked)
  {
    forall c | 0 <= c < MAX_CPUS
      ensures CpuInvariant(s, windows[c], c, i + 1, marked)
    {
      assert CpuInvariant(s, windows[c], c, i, marked);
    }
  }

  /** The marked records after the examination of the one at position next */
  ghost function WithMark(s: seq<Record>, w: Window, next: nat, marked: set<nat>): set<nat>
    requires next < |s|
    requires (w.prev.Some? ==> w.prev.value < |s|) && (w.pos.Some? ==> w.pos.value < |s|)
  {
    if Marks(s, w, next) then marked + {w.pos.value} else marked
  }

  /** An examined record slides the window of its own CPU and leaves the other ones alone. */
  lemma {:induction false} ExamineKeeps(s: seq<Record>, windows: seq<Window>, i: nat, marked: set<nat>)
    requires PassInvariant(s, windows, i, marked) && i < |s| && Examined(s[i]) && s[i].cpu < MAX_CPUS
    ensures var w := windows[s[i].cpu];
            PassInvariant(s, windows[s[i].cpu := Slide(s, w, i)], i + 1, WithMark(s, w, i, marked))
  {
    var cpu := s[i].cpu;
    var w := windows[cpu];
    var marked' := WithMark(s, w, i, marked);
    var windows' := windows[cpu := Slide(s, w, i)];
    forall c | 0 <= c < MAX_CPUS
      ensures CpuInvariant(s, windows'[c], c, i + 1, marked')
    {
      assert CpuInvariant(s, windows[c], c, i, marked);
      if c == cpu {
        OwnCpuKeeps(s, w, i, marked);
      } else {
        assert (set x | x in marked' && s[x].cpu == c) == (set x | x in marked && s[x].cpu == c);
      }
    }
  }

  /** The record and the end of its CPU's window have not been marked yet. */
  lemma {:induction false} NotYetMarked(s: seq<Record>, windows: seq<Window>, i: nat, marked: set<nat>)
    requires PassInvariant(s, windows, i, marked) && i < |s| && s[i].cpu < MAX_CPUS
    ensures |windows| == MAX_CPUS && i !in marked
    ensures var w := windows[s[i].cpu];
            && (w.prev.Some? ==> w.prev.value < i)
            && (w.pos.Some? ==> w.pos.value < i && w.pos.value !in marked)
  {
    assert CpuInvariant(s, windows[s[i].cpu], s[i].cpu, i, marked);
  }

  lemma {:induction false} OwnCpuKeeps(s: seq<Record>, w: Window, i: nat, marked: set<nat>)
    requires i < |s| && Examined(s[i]) && s[i].cpu < MAX_CPUS && (forall x :: x in marked ==> x < i)
    requires (w.prev.Some? ==> w.prev.value < i) && (w.pos.Some? ==> w.pos.value < i && s[w.pos.value].cpu == s[i].cpu)
    requires CpuInvariant(s, w, s[i].cpu, i, marked)
    ensures CpuInvariant(s, Slide(s, w, i), s[i].cpu, i + 1, WithMark(s, w, i, marked))
  {
    var cpu := s[i].cpu;
    var idx := SubStream(s, cpu, i);
    assert idx[0] == i && idx[1..] == SubStream(s, cpu, i + 1);
    var added := if Marks(s, w, i) then {w.pos.value} else {};
    assert WithMark(s, w, i, marked) == marked + added;
    assert (set x | x in marked + added && s[x].cpu == cpu) == (set x | x in marked && s[x].cpu == cpu) + added;
  }

  /** What the C code takes for granted: the examined records name CPUs that have a slot. */
  ghost predicate CpusFit(s: seq<Record>) {
    forall i :: 0 <= i < |s| && Examined(s[i]) ==> s[i].cpu < MAX_CPUS
  }

  lemma {:induction false} PassIsDone(s: seq<Record>, windows: seq<Window>, marked: set<nat>)
    requires PassInvariant(s, windows, |s|, marked)
    requires CpusFit(s)
    ensures marked == Marked(s)
  {
    forall x: nat
      ensures x in marked <==> x in Marked(s)
    {
      if x < |s| && s[x].cpu < MAX_CPUS {
        assert CpuInvariant(s, windows[s[x].cpu], s[x].cpu, |s|, marked);
      } else if x in Marked(s) {
        MarkedOnIsOnCpu(s, s[x].cpu, x);
      }
    }
  }

  // ---------- The array ----------

  /** The events of the marked records have been overwritten, and nothing else has changed. */
  ghost predicate OnlyMarked(now: seq<Record>, s: seq<Record>, marked: set<nat>) {
    |now| == |s| && forall i {:trigger now[i]} :: 0 <= i < |s| ==> now[i] == if i in marked then s[i].(event := MARKED) else s[i]
  }

  lemma {:induction false} TimesKept(now: seq<Record>, s: seq<Record>, marked: set<nat>)
    requires OnlyMarked(now, s, marked)
    ensures |now| == |s|
    ensures forall i {:trigger now[i]} :: 0 <= i < |s| ==>
              now[i].timestamp == s[i].timestamp && now[i].cpu == s[i].cpu && (i !in marked ==> now[i] == s[i])
  {
  }

  lemma {:induction false} MarkOne(now: seq<Record>, s: seq<Record>, marked: set<nat>, x: nat)
    requires OnlyMarked(now, s, marked) && x < |s|
    ensures OnlyMarked(now[x := now[x].(event := MARKED)], s, marked + {x})
  {
  }
}
