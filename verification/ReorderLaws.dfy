/** Laws of the reorder pass: what it keeps, what it counts, and when it sorts. */
module ReorderLaws {
  import opened Options
  import opened Trace
  import opened SeqNumbers
  import opened Reordering
  import opened Selections

  // ---------- The pass permutes the trace and respects sequentiality ----------

  /** The items are the records of s, each once. */
  ghost predicate Permuted(s: seq<Record>, t: seq<Item>) {
    && |t| == |s|
    && (forall j :: 0 <= j < |t| ==> t[j].origin < |s| && t[j].rec == s[t[j].origin])
    && (forall j, k :: 0 <= j < k < |t| ==> t[j].origin != t[k].origin)
  }

  /** Records of the same CPU or task are in their original order. */
  ghost predicate Sequential(t: seq<Item>) {
    forall j, k :: 0 <= j < k < |t| && MustFollow(t[j].rec, t[k].rec) ==> t[j].origin < t[k].origin
  }

  /** Nothing before the cursor has come from LOOK_AHEAD or more places further back, and nothing
      behind it has moved towards the front. */
  ghost predicate Displaced(t: seq<Item>, cursor: nat) {
    forall j :: 0 <= j < |t| ==> t[j].origin <= if j < cursor then j + LOOK_AHEAD - 1 else j
  }

  /** Where the element at position j of a rotation comes from. */
  function Source(i: nat, p: nat, j: nat): nat {
    if j == i then p else if i < j <= p then j - 1 else j
  }

  lemma {:induction false} RotationKeeps(s: seq<Record>, t: seq<Item>, i: nat, p: nat)
    requires Permuted(s, t) && Sequential(t) && Displaced(t, i)
    requires i <= p < |t| && p < i + LOOK_AHEAD && CanMove(Records(t), i, p)
    ensures var r := Rotated(t, i, p);
            Permuted(s, r) && Sequential(r) && Displaced(r, i + 1)
  {
    hide Displaced, CanMove;
    var r := Rotated(t, i, p);
    forall j, k | 0 <= j < k < |r|
      ensures r[j].origin != r[k].origin
      ensures MustFollow(r[j].rec, r[k].rec) ==> r[j].origin < r[k].origin
    {
      RotationKeepsPair(s, t, i, p, j, k);
    }
    RotationDisplaces(t, i, p);
  }

  lemma {:induction false} RotationDisplaces(t: seq<Item>, i: nat, p: nat)
    requires Displaced(t, i) && i <= p < |t| && p < i + LOOK_AHEAD
    ensures Displaced(Rotated(t, i, p), i + 1)
  {
  }

  lemma {:induction false} RotationKeepsPair(s: seq<Record>, t: seq<Item>, i: nat, p: nat, j: nat, k: nat)
    requires Permuted(s, t) && Sequential(t) && i <= p < |t| && CanMove(Records(t), i, p) && j < k < |t|
    ensures var r := Rotated(t, i, p);
            && r[j].origin != r[k].origin
            && (MustFollow(r[j].rec, r[k].rec) ==> r[j].origin < r[k].origin)
  {
    var j', k' := Source(i, p, j), Source(i, p, k);
    assert j' != k' && (j' < k' || (j' == p && i <= k' < p));
    if j' == p && k' < p {
      assert !MustFollow(Records(t)[k'], Records(t)[p]);
    }
  }

  lemma {:induction false} RunKeeps(s: seq<Record>, st: State, i: nat)
    requires i <= |st.items| && Permuted(s, st.items) && Sequential(st.items) && Displaced(st.items, i)
    ensures var t := Run(st, i).items;
            Permuted(s, t) && Sequential(t) && Displaced(t, |t|)
    decreases |st.items| - i
  {
    if i < |st.items| {
      var p := StepEffect(st, i);
      RotationKeeps(s, st.items, i, p);
      RunKeeps(s, Step(st, i), i + 1);
    }
  }

  /** A whole run permutes the trace, keeps the order of the records of each CPU and of each task
      apart from TS_SEND_RESCHED_START, and moves no record forward by LOOK_AHEAD or more places. */
  lemma {:induction false} ReorderKeeps(s: seq<Record>)
    ensures var t := Reorder(s).items;
            Permuted(s, t) && Sequential(t) && Displaced(t, |t|)
  {
    RunKeeps(s, State(Tagged(s), 0, 0, 0), 0);
  }

  // ---------- Subsequences ----------

  lemma {:induction false} SelectCommutes(x: Record, mid: seq<Record>, f: Record -> bool)
    requires f(x) ==> forall j :: 0 <= j < |mid| ==> !f(mid[j])
    ensures Select([x] + mid, f) == Select(mid + [x], f)
  {
    SelectConcat([x], mid, f);
    SelectConcat(mid, [x], f);
    if f(x) {
      SelectNothing(mid, f);
    } else {
      SelectNothing([x], f);
    }
  }

  /** Moving a record past records that f does not select keeps the selection, and so does moving a
      record that f does not select. */
  lemma {:induction false} RotationKeepsSelection(s: seq<Record>, i: nat, p: nat, f: Record -> bool)
    requires i <= p < |s|
    requires f(s[p]) ==> forall j :: i <= j < p ==> !f(s[j])
    ensures Select(Rotated(s, i, p), f) == Select(s, f)
  {
    var x, mid, rest := s[p], s[i..p], s[p+1..];
    assert Rotated(s, i, p) == (s[..i] + ([x] + mid)) + rest;
    assert s == (s[..i] + (mid + [x])) + rest;
    SelectCommutes(x, mid, f);
    SelectConcat(s[..i] + ([x] + mid), rest, f);
    SelectConcat(s[..i], [x] + mid, f);
    SelectConcat(s[..i] + (mid + [x]), rest, f);
    SelectConcat(s[..i], mid + [x], f);
  }

  function OnCpu(cpu: u8): Record -> bool {
    (r: Record) => r.cpu == cpu && r.event != TS_SEND_RESCHED_START
  }

  function OfTask(pid: u16): Record -> bool {
    (r: Record) => r.pid == pid && r.event != TS_SEND_RESCHED_START
  }

  /** Any two records that f selects are subject to the sequentiality constraint. */
  ghost predicate Exclusive(f: Record -> bool) {
    forall a, b :: f(a) && f(b) ==> MustFollow(a, b)
  }

  lemma {:induction false} MoveKeepsSelection(s: seq<Record>, i: nat, p: nat, f: Record -> bool)
    requires i <= p < |s| && CanMove(s, i, p) && Exclusive(f)
    ensures Select(Rotated(s, i, p), f) == Select(s, f)
  {
    if f(s[p]) {
      forall j | i <= j < p
        ensures !f(s[j])
      {
        assert !MustFollow(s[j], s[p]);
      }
    }
    RotationKeepsSelection(s, i, p, f);
  }

  lemma {:induction false} RecordsOfRotation(t: seq<Item>, i: nat, p: nat)
    requires i <= p < |t|
    ensures Records(Rotated(t, i, p)) == Rotated(Records(t), i, p)
  {
  }

  lemma {:induction false} RunKeepsSelection(st: State, i: nat, f: Record -> bool)
    requires i <= |st.items| && Exclusive(f)
    ensures Select(Records(Run(st, i).items), f) == Select(Records(st.items), f)
    decreases |st.items| - i
  {
    if i < |st.items| {
      var p := StepEffect(st, i);
      var next := Step(st, i);
      MoveKeepsSelection(Records(st.items), i, p, f);
      RecordsOfRotation(st.items, i, p);
      RunKeepsSelection(next, i + 1, f);
    }
  }

  /** The subsequence of each CPU and of each task is exactly the original one. */
  lemma {:induction false} ReorderKeepsSubsequences(s: seq<Record>, cpu: u8, pid: u16)
    ensures Select(Records(Reorder(s).items), OnCpu(cpu)) == Select(s, OnCpu(cpu))
    ensures pid != 0 ==> Select(Records(Reorder(s).items), OfTask(pid)) == Select(s, OfTask(pid))
  {
    var st := State(Tagged(s), 0, 0, 0);
    assert Records(st.items) == s;
    RunKeepsSelection(st, 0, OnCpu(cpu));
    if pid != 0 {
      RunKeepsSelection(st, 0, OfTask(pid));
    }
  }

  // ---------- Holes ----------

  function GapAt(s: seq<Record>, i: nat): nat
    requires i < |s|
  {
    if i > 0 && s[i].seqNo != Next(s[i-1].seqNo) then 1 else 0
  }

  /** The number of positions from i on whose sequence number does not follow its predecessor's. */
  function Gaps(s: seq<Record>, i: nat): nat
    requires i <= |s|
    decreases |s| - i
  {
    if i == |s| then 0
    else GapAt(s, i) + Gaps(s, i + 1)
  }

  lemma {:induction false} StepCountsGap(st: State, i: nat)
    requires i < |st.items|
    ensures Step(st, i).items[..i] == st.items[..i]
    ensures Step(st, i).holes == st.holes + GapAt(Records(Step(st, i).items), i)
  {
    hide Fetch, CanMove;
    var p := StepEffect(st, i);
  }

  /** What is before the cursor is never touched again, and from the cursor on each gap of the result
      is counted as a hole. */
  lemma {:induction false} RunCountsGaps(st: State, i: nat)
    requires i <= |st.items|
    ensures Run(st, i).items[..i] == st.items[..i]
    ensures Run(st, i).holes == st.holes + Gaps(Records(Run(st, i).items), i)
    decreases |st.items| - i
  {
    hide Step, GapAt;
    if i < |st.items| {
      var next := Step(st, i);
      StepCountsGap(st, i);
      RunCountsGaps(next, i + 1);
      SamePrefix(Run(st, i).items, next.items, i);
      assert Run(st, i).items[..i] == next.items[..i];
    }
  }

  lemma {:induction false} SamePrefix(t: seq<Item>, u: seq<Item>, i: nat)
    requires i < |t| == |u| && t[..i+1] == u[..i+1]
    ensures t[..i] == u[..i] && GapAt(Records(t), i) == GapAt(Records(u), i)
  {
    forall j | 0 <= j <= i
      ensures t[j] == u[j]
    {
      assert t[..i+1][j] == u[..i+1][j];
    }
  }

  /** The number of holes reported is the number of gaps in the result. */
  lemma {:induction false} HolesAreGaps(s: seq<Record>)
    ensures Reorder(s).holes == Gaps(Records(Reorder(s).items), 0)
  {
    RunCountsGaps(State(Tagged(s), 0, 0, 0), 0);
  }
}
