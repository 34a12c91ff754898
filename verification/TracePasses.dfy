/** Laws across the passes of src/ftsort.c: what the first one repairs stays repaired, and it does not
    keep the second one from sorting. */
module TracePasses {
  import opened Trace
  import opened SeqNumbers
  import opened Reordering
  import opened ReorderLaws
  import opened ReorderSorts
  import opened Monotonicity

  /** Marked records are still subject to the same sequentiality constraints. */
  lemma {:induction false} MarkingKeepsConstraints(s: seq<Record>, checked: seq<Record>, j: nat, k: nat)
    requires OnlyMarked(checked, s, Marked(s)) && j < |s| && k < |s|
    ensures MustFollow(checked[j], checked[k]) == MustFollow(s[j], s[k])
  {
    if j in Marked(s) {
      MarkedOnIsOnCpu(s, s[j].cpu, j);
    }
    if k in Marked(s) {
      MarkedOnIsOnCpu(s, s[k].cpu, k);
    }
  }

  lemma {:induction false} MarkingKeepsRanks(s: seq<Record>, checked: seq<Record>, k: nat)
    requires OnlyMarked(checked, s, Marked(s)) && k < |s|
    ensures Rank(checked, k) == Rank(s, k)
  {
    assert checked[0].seqNo == s[0].seqNo && checked[k].seqNo == s[k].seqNo;
  }

  lemma {:induction false} MarkingKeepsLocality(s: seq<Record>, checked: seq<Record>, k: nat, c: nat)
    requires OnlyMarked(checked, s, Marked(s)) && k < |s|
    requires forall j :: 0 <= j < |s| ==> Rank(checked, j) == Rank(s, j)
    ensures LocalAt(checked, k, c) <==> LocalAt(s, k, c)
  {
    hide Rank, MustFollow;
    assert Rivals(checked, k) == Rivals(s, k);
    forall j: nat | j < |s|
      ensures Waiting(checked, k, j) == Waiting(s, k, j)
    {
    }
    assert FarAhead(checked, k, c) == FarAhead(s, k, c);
    forall j | j in Rivals(s, k)
      ensures MustFollow(checked[j], checked[k]) == MustFollow(s[j], s[k])
    {
      MarkingKeepsConstraints(s, checked, j, k);
    }
  }

  lemma {:induction false} MarkingKeepsExpected(s: seq<Record>, checked: seq<Record>, k: nat, c: nat)
    requires |checked| == |s| && k < |s|
    requires forall j :: 0 <= j < |s| ==> Rank(checked, j) == Rank(s, j)
    ensures IsExpected(checked, k, c) <==> IsExpected(s, k, c)
  {
    hide Rank;
    forall r
      ensures HasRank(checked, r) <==> HasRank(s, r)
    {
    }
  }

  lemma {:induction false} MarkingKeepsShuffle(s: seq<Record>, checked: seq<Record>)
    requires OnlyMarked(checked, s, Marked(s))
    ensures LocallyShuffled(checked) <==> LocallyShuffled(s)
    ensures AfterMissing(checked, 1) == AfterMissing(s, 1)
  {
    hide Rank, LocalAt, IsExpected;
    forall k: nat | k < |s|
      ensures Rank(checked, k) == Rank(s, k)
    {
      MarkingKeepsRanks(s, checked, k);
    }
    forall k: nat, c: nat | k < |s|
      ensures LocalAt(checked, k, c) <==> LocalAt(s, k, c)
      ensures IsExpected(checked, k, c) <==> IsExpected(s, k, c)
    {
      MarkingKeepsLocality(s, checked, k, c);
      MarkingKeepsExpected(s, checked, k, c);
    }
    forall r
      ensures HasRank(checked, r) <==> HasRank(s, r)
    {
    }
  }

  /** The first two passes together sort a trace if and only if it is locally shuffled to begin with, and
      then there is one hole for each record after missing numbers. */
  lemma {:induction false} CheckedTraceIsSorted(s: seq<Record>, checked: seq<Record>)
    requires OnlyMarked(checked, s, Marked(s))
    ensures var st := Reorder(checked);
            && Permuted(checked, st.items)
            && (Ascending(s, st.items) <==> LocallyShuffled(s))
            && (LocallyShuffled(s) ==> st.holes == |AfterMissing(s, 1)|)
  {
    hide LocallyShuffled, Rank, AfterMissing;
    MarkingKeepsShuffle(s, checked);
    ReorderSorts.ReorderSorts(checked);
    forall k: nat | k < |s|
      ensures Rank(checked, k) == Rank(s, k)
    {
      MarkingKeepsRanks(s, checked, k);
    }
  }

  /** If one examined record of a CPU, with others before and after it, disturbs an otherwise strictly
      increasing order, then what is left of the CPU's examined records increases strictly even in
      the reordered trace. */
  lemma {:induction false} RepairSurvivesReorder(s: seq<Record>, checked: seq<Record>, cpu: u8, k: nat)
    requires OnlyMarked(checked, s, Marked(s))
    requires IncreasingBut(s, SubStream(s, cpu, 0), k) && 0 < k < |SubStream(s, cpu, 0)| - 1
    ensures var r := Records(Reorder(checked).items);
            forall x, y :: 0 <= x < y < |r| && r[x].cpu == r[y].cpu == cpu && Examined(r[x]) && Examined(r[y]) ==>
                             r[x].timestamp < r[y].timestamp
  {
    OutlierOnCpuIsRepaired(s, cpu, k);
    ReorderKeeps(checked);
    var t := Reorder(checked).items;
    forall x, y | 0 <= x < y < |t| && t[x].rec.cpu == t[y].rec.cpu == cpu && Examined(t[x].rec) && Examined(t[y].rec)
      ensures t[x].rec.timestamp < t[y].rec.timestamp
    {
      assert MustFollow(t[x].rec, t[y].rec);
      var i, j := t[x].origin, t[y].origin;
      assert t[x].rec == checked[i] && t[y].rec == checked[j] && i < j;
      assert Remains(s, cpu, i) && Remains(s, cpu, j);
    }
  }
}
