/** What the spike and gap pass of src/ftsort.c marks, as a rule on the samples of a trace. */
module OutlierRule {
  import opened Options
  import opened Trace
  import opened Monotonicity

  /** A sample of a CPU: neither a single record nor recorded for another CPU. */
  predicate IsSample(s: seq<Record>, cpu: u8, k: nat)
    requires k < |s|
  {
    s[k].cpu == cpu && s[k].event < SINGLE_RECORDS_RANGE && s[k].event != TS_SEND_RESCHED_START
  }

  /** p is the last sample of the CPU before x that is not marked. */
  ghost predicate LastKept(s: seq<Record>, marked: set<nat>, x: nat, p: nat) {
    && p < x < |s| && IsSample(s, s[x].cpu, p) && p !in marked
    && forall k :: p < k < x && IsSample(s, s[x].cpu, k) ==> k in marked
  }

  /** n is the next sample of the CPU after x. */
  ghost predicate NextSample(s: seq<Record>, x: nat, n: nat) {
    x < n < |s| && IsSample(s, s[x].cpu, n) && forall k :: x < k < n ==> !IsSample(s, s[x].cpu, k)
  }

  /** A sample is to be marked if the next sample is later than the last one kept, and it does not lie
      in between. */
  ghost predicate ToBeMarked(s: seq<Record>, marked: set<nat>, x: nat) {
    && x < |s| && IsSample(s, s[x].cpu, x)
    && exists p: nat, n: nat :: LastKept(s, marked, x, p) && NextSample(s, x, n)
                                && Time(s, p) < Time(s, n) && !(Time(s, p) < Time(s, x) < Time(s, n))
  }

  ghost predicate FollowsRule(s: seq<Record>, marked: set<nat>) {
    forall x: nat :: x in marked <==> ToBeMarked(s, marked, x)
  }

  // ---------- Along the sub-stream of a CPU ----------

  ghost predicate IsStream(s: seq<Record>, idx: seq<nat>) {
    && (forall j :: 0 <= j < |idx| ==> idx[j] < |s|)
    && forall j, k :: 0 <= j < k < |idx| ==> idx[j] < idx[k]
  }

  /** Before position j of the stream, the window has the last record seen, and the last one before it
      that the whole pass does not mark. */
  ghost predicate IsWindow(idx: seq<nat>, marked: set<nat>, j: nat, w: Window)
    requires j <= |idx|
  {
    && w.pos == (if j == 0 then None else Some(idx[j-1]))
    && match w.prev
       case None => forall k :: 0 <= k < j - 1 ==> idx[k] in marked
       case Some(x) => exists p: nat :: IsPrev(idx, marked, j, x, p)
  }

  ghost predicate IsPrev(idx: seq<nat>, marked: set<nat>, j: nat, x: nat, p: nat)
    requires j <= |idx|
  {
    p + 1 < j && idx[p] == x && x !in marked && forall k :: p < k < j - 1 ==> idx[k] in marked
  }

  /** The rest of the pass marks nothing before the window. */
  lemma {:induction false} RestIsLater(s: seq<Record>, idx: seq<nat>, j: nat, w: Window, k: nat)
    requires IsStream(s, idx) && k < j <= |idx| && Within(s, w, idx[j..])
    requires w.pos.Some? ==> idx[k] < w.pos.value
    ensures idx[k] !in Pass(s, idx[j..], w)
  {
    if idx[k] in Pass(s, idx[j..], w) {
      PassMarksIts(s, idx[j..], w, idx[k]);
    }
  }

  /** The pass up to position j: what it has marked so far, and its window. */
  lemma {:induction false} PassUpTo(s: seq<Record>, idx: seq<nat>, j: nat) returns (w: Window, before: set<nat>)
    requires IsStream(s, idx) && j <= |idx|
    ensures IsWindow(idx, Pass(s, idx, NO_RECORDS), j, w) && Within(s, w, idx[j..])
    ensures Pass(s, idx, NO_RECORDS) == before + Pass(s, idx[j..], w)
    ensures forall x :: x in before ==> exists k :: 0 <= k < j - 1 && idx[k] == x
    decreases j
  {
    if j == 0 {
      w, before := NO_RECORDS, {};
      assert idx[0..] == idx;
    } else {
      var w0, before0 := PassUpTo(s, idx, j - 1);
      w, before := PassStep(s, idx, j - 1, w0, before0);
    }
  }

  lemma {:induction false} PassStep(s: seq<Record>, idx: seq<nat>, j: nat, w: Window, before: set<nat>)
    returns (w': Window, before': set<nat>)
    requires IsStream(s, idx) && j < |idx| && IsWindow(idx, Pass(s, idx, NO_RECORDS), j, w) && Within(s, w, idx[j..])
    requires Pass(s, idx, NO_RECORDS) == before + Pass(s, idx[j..], w)
    requires forall x :: x in before ==> exists k :: 0 <= k < j - 1 && idx[k] == x
    ensures w' == Slide(s, w, idx[j]) && IsWindow(idx, Pass(s, idx, NO_RECORDS), j + 1, w') && Within(s, w', idx[j+1..])
    ensures Pass(s, idx, NO_RECORDS) == before' + Pass(s, idx[j+1..], w')
    ensures forall x :: x in before' ==> exists k :: 0 <= k < j && idx[k] == x
    ensures j > 0 ==> (idx[j-1] in Pass(s, idx, NO_RECORDS) <==> Marks(s, w, idx[j]))
  {
    hide IsOutlier, IsPrev, Pass;
    w' := Slide(s, w, idx[j]);
    before' := before + if Marks(s, w, idx[j]) then {w.pos.value} else {};
    PassUnfolds(s, idx, j, w);
    if j > 0 {
      RestIsLater(s, idx, j + 1, w', j - 1);
    }
    WindowSlides(s, idx, j, w);
  }

  lemma {:induction false} PassUnfolds(s: seq<Record>, idx: seq<nat>, j: nat, w: Window)
    requires IsStream(s, idx) && j < |idx| && Within(s, w, idx[j..])
    ensures Within(s, Slide(s, w, idx[j]), idx[j+1..])
    ensures Pass(s, idx[j..], w) ==
              (if Marks(s, w, idx[j]) then {w.pos.value} else {}) + Pass(s, idx[j+1..], Slide(s, w, idx[j]))
  {
    assert idx[j..][0] == idx[j] && idx[j..][1..] == idx[j+1..];
  }

  lemma {:induction false} WindowSlides(s: seq<Record>, idx: seq<nat>, j: nat, w: Window)
    requires IsStream(s, idx) && j < |idx| && IsWindow(idx, Pass(s, idx, NO_RECORDS), j, w) && Within(s, w, idx[j..])
    requires j > 0 ==> (idx[j-1] in Pass(s, idx, NO_RECORDS) <==> Marks(s, w, idx[j]))
    ensures IsWindow(idx, Pass(s, idx, NO_RECORDS), j + 1, Slide(s, w, idx[j]))
  {
    hide Pass, IsOutlier;
    var marked := Pass(s, idx, NO_RECORDS);
    if j > 0 && !Marks(s, w, idx[j]) {
      assert IsPrev(idx, marked, j + 1, idx[j-1], j - 1);
    } else if w.prev.Some? {
      var p: nat :| IsPrev(idx, marked, j, w.prev.value, p);
      assert IsPrev(idx, marked, j + 1, w.prev.value, p);
    }
  }

  /** A record of the stream is marked if and only if its successor says so. */
  lemma {:induction false} MarkedBySuccessor(s: seq<Record>, idx: seq<nat>, j: nat) returns (w: Window)
    requires IsStream(s, idx) && j < |idx|
    ensures IsWindow(idx, Pass(s, idx, NO_RECORDS), j + 1, w)
    ensures j + 1 == |idx| ==> idx[j] !in Pass(s, idx, NO_RECORDS)
    ensures j + 1 < |idx| ==> Within(s, w, idx[j+1..]) && (idx[j] in Pass(s, idx, NO_RECORDS) <==> Marks(s, w, idx[j+1]))
  {
    var before;
    w, before := PassUpTo(s, idx, j + 1);
    if j + 1 < |idx| {
      var w', before' := PassStep(s, idx, j + 1, w, before);
    } else {
      assert idx[j+1..] == [];
    }
  }

  // ---------- The rule ----------

  /** idx has exactly the samples of a CPU. */
  ghost predicate IsStreamOf(s: seq<Record>, cpu: u8, idx: seq<nat>) {
    && IsStream(s, idx)
    && (forall j :: 0 <= j < |idx| ==> IsSample(s, cpu, idx[j]))
    && forall x: nat {:trigger IsSample(s, cpu, x)} :: x < |s| && IsSample(s, cpu, x) ==> x in idx
  }

  lemma {:induction false} SubStreamIsStream(s: seq<Record>, cpu: u8)
    ensures IsStreamOf(s, cpu, SubStream(s, cpu, 0))
  {
    forall x: nat | x < |s| && IsSample(s, cpu, x)
      ensures x in SubStream(s, cpu, 0)
    {
      var j := PlaceInSubStream(s, cpu, 0, x);
    }
  }

  lemma {:induction false} IndexIn(s: seq<Record>, cpu: u8, idx: seq<nat>, x: nat) returns (j: nat)
    requires IsStreamOf(s, cpu, idx) && x < |s| && IsSample(s, cpu, x)
    ensures j < |idx| && idx[j] == x
  {
    assert x in idx;
    j :| 0 <= j < |idx| && idx[j] == x;
  }

  lemma {:induction false} PrevIsLastKept(s: seq<Record>, cpu: u8, idx: seq<nat>, marked: set<nat>, j: nat, p: nat, i: nat)
    requires IsStreamOf(s, cpu, idx) && j < |idx| && IsPrev(idx, marked, j + 1, p, i)
    ensures LastKept(s, marked, idx[j], p)
  {
    forall k | p < k < idx[j] && IsSample(s, cpu, k)
      ensures k in marked
    {
      var l := IndexIn(s, cpu, idx, k);
      assert i < l < j;
    }
  }

  lemma {:induction false} LastKeptIsPrev(s: seq<Record>, cpu: u8, idx: seq<nat>, marked: set<nat>, j: nat, w: Window, p: nat)
    requires IsStreamOf(s, cpu, idx) && j < |idx| && IsWindow(idx, marked, j + 1, w) && LastKept(s, marked, idx[j], p)
    ensures w.prev == Some(p)
  {
    var i := IndexIn(s, cpu, idx, p);
    assert i < j && idx[i] !in marked;
    if w.prev.Some? {
      var q: nat :| IsPrev(idx, marked, j + 1, w.prev.value, q);
      assert IsSample(s, cpu, idx[q]);
    }
  }

  lemma {:induction false} SuccessorIsNext(s: seq<Record>, cpu: u8, idx: seq<nat>, j: nat)
    requires IsStreamOf(s, cpu, idx) && j + 1 < |idx|
    ensures NextSample(s, idx[j], idx[j+1])
  {
    forall k | idx[j] < k < idx[j+1]
      ensures !IsSample(s, cpu, k)
    {
      if IsSample(s, cpu, k) {
        var l := IndexIn(s, cpu, idx, k);
        assert false;
      }
    }
  }

  lemma {:induction false} NextIsSuccessor(s: seq<Record>, cpu: u8, idx: seq<nat>, j: nat, n: nat)
    requires IsStreamOf(s, cpu, idx) && j < |idx| && NextSample(s, idx[j], n)
    ensures j + 1 < |idx| && idx[j+1] == n
  {
    var l := IndexIn(s, cpu, idx, n);
    assert j < l;
    assert IsSample(s, cpu, idx[j+1]);
  }

  lemma {:induction false} RuleAlong(s: seq<Record>, cpu: u8, idx: seq<nat>, marked: set<nat>, j: nat, w: Window)
    requires IsStreamOf(s, cpu, idx) && j < |idx| && IsWindow(idx, marked, j + 1, w)
    ensures ToBeMarked(s, marked, idx[j]) <==> j + 1 < |idx| && Marks(s, w, idx[j+1])
  {
    var x := idx[j];
    if j + 1 < |idx| && Marks(s, w, idx[j+1]) {
      SuccessorIsNext(s, cpu, idx, j);
      var i: nat :| IsPrev(idx, marked, j + 1, w.prev.value, i);
      PrevIsLastKept(s, cpu, idx, marked, j, w.prev.value, i);
    }
    if ToBeMarked(s, marked, x) {
      var p: nat, n: nat :| LastKept(s, marked, x, p) && NextSample(s, x, n)
                            && Time(s, p) < Time(s, n) && !(Time(s, p) < Time(s, x) < Time(s, n));
      LastKeptIsPrev(s, cpu, idx, marked, j, w, p);
      NextIsSuccessor(s, cpu, idx, j, n);
    }
  }

  /** Two sets that agree on the stream of a CPU agree on its samples to be marked. */
  lemma {:induction false} RuleIsLocal(s: seq<Record>, cpu: u8, idx: seq<nat>, a: set<nat>, b: set<nat>, j: nat)
    requires IsStreamOf(s, cpu, idx) && j < |idx| && forall k :: 0 <= k < |idx| ==> (idx[k] in a <==> idx[k] in b)
    ensures ToBeMarked(s, a, idx[j]) <==> ToBeMarked(s, b, idx[j])
  {
    forall p: nat
      ensures LastKept(s, a, idx[j], p) <==> LastKept(s, b, idx[j], p)
    {
      forall k: nat | k < |s| && IsSample(s, cpu, k)
        ensures k in a <==> k in b
      {
        var l := IndexIn(s, cpu, idx, k);
      }
    }
  }

  lemma {:induction false} RuleAt(s: seq<Record>, x: nat)
    ensures x in Marked(s) <==> ToBeMarked(s, Marked(s), x)
  {
    if x < |s| && IsSample(s, s[x].cpu, x) {
      var cpu := s[x].cpu;
      var idx := SubStream(s, cpu, 0);
      SubStreamIsStream(s, cpu);
      var j := IndexIn(s, cpu, idx, x);
      var w := MarkedBySuccessor(s, idx, j);
      RuleAlong(s, cpu, idx, MarkedOn(s, cpu), j, w);
      RuleIsLocal(s, cpu, idx, MarkedOn(s, cpu), Marked(s), j);
    } else if x in Marked(s) {
      MarkedOnIsOnCpu(s, s[x].cpu, x);
    }
  }

  /** Only one set follows the rule: whether a sample is marked depends on earlier ones. */
  lemma {:induction false} RuleIsUnambiguous(s: seq<Record>, a: set<nat>, b: set<nat>, x: nat)
    requires FollowsRule(s, a) && FollowsRule(s, b)
    ensures x in a <==> x in b
  {
    forall k: nat | k < x
      ensures k in a <==> k in b
    {
      RuleIsUnambiguous(s, a, b, k);
    }
    forall p: nat
      ensures LastKept(s, a, x, p) <==> LastKept(s, b, x, p)
    {
    }
  }

  /** The pass marks exactly the samples that the rule names, and the rule names no other set. */
  lemma {:induction false} MarkedIsTheRule(s: seq<Record>, marked: set<nat>)
    ensures FollowsRule(s, marked) <==> marked == Marked(s)
  {
    forall x: nat
      ensures x in Marked(s) <==> ToBeMarked(s, Marked(s), x)
    {
      RuleAt(s, x);
    }
    if FollowsRule(s, marked) {
      forall x: nat
        ensures x in marked <==> x in Marked(s)
      {
        RuleIsUnambiguous(s, marked, Marked(s), x);
      }
    }
  }
}
