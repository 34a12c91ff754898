/** When the reorder pass sorts a trace: a local condition on how far records are out of order. Numbers
    may be missing. */
module ReorderSorts {
  import opened Counting
  import opened Options
  import opened Trace
  import opened SeqNumbers
  import opened Reordering
  import opened ReorderLaws
  import opened SearchLaws

  /** How far is a record ahead of the first record of the trace? */
  function Rank(s: seq<Record>, k: nat): (r: nat)
    requires k < |s|
  {
    Distance(s[0].seqNo, s[k].seqNo)
  }

  ghost predicate Distinct(s: seq<Record>) {
    forall j, k :: 0 <= j < k < |s| ==> Rank(s, j) != Rank(s, k)
  }

  /** The numbers are a shuffle of consecutive ones, the least one first. */
  ghost predicate Gapless(s: seq<Record>) {
    forall k :: 0 <= k < |s| ==> Rank(s, k) < |s|
  }

  ghost predicate HasRank(s: seq<Record>, r: int) {
    exists k: nat :: k < |s| && Rank(s, k) == r
  }

  /** Rank c follows the next lower rank than that of record k. They differ if numbers are missing. */
  ghost predicate IsExpected(s: seq<Record>, k: nat, c: nat)
    requires k < |s|
  {
    HasRank(s, c - 1) && c <= Rank(s, k) && forall r: nat {:trigger HasRank(s, r)} :: c <= r < Rank(s, k) ==> !HasRank(s, r)
  }

  /** The larger-numbered records before position k. */
  ghost function Rivals(s: seq<Record>, k: nat): set<nat>
    requires k < |s|
  {
    set j: nat | j < k && Rank(s, j) > Rank(s, k)
  }

  /** The records before position j that are still to come when record k is the next one. */
  ghost function Waiting(s: seq<Record>, k: nat, j: nat): set<nat>
    requires k < |s| && j <= |s|
  {
    set j': nat | j' < j && Rank(s, j') >= Rank(s, k)
  }

  /** The records that are too far ahead of the expected rank c, in the look-ahead window. Records behind
      record k do not matter if it has the expected rank itself. */
  ghost function FarAhead(s: seq<Record>, k: nat, c: nat): set<nat>
    requires k < |s|
  {
    set j: nat | j < |s| && Rank(s, j) >= c + LOOK_AHEAD && |Waiting(s, k, j)| < LOOK_AHEAD && (Rank(s, k) == c ==> j < k)
  }

  /** A record is in order, or out of order with few records before it, not after too many missing
      numbers, with very few records far ahead, and with no rival of its own CPU or task. */
  ghost predicate LocalAt(s: seq<Record>, k: nat, c: nat)
    requires k < |s|
  {
    || Rivals(s, k) == {}
    || (&& |Rivals(s, k)| < LOOK_AHEAD && Rank(s, k) < c + LOOK_AHEAD && |FarAhead(s, k, c)| <= MAX_NR_NOT_IN_RANGE
        && forall j :: j in Rivals(s, k) ==> !MustFollow(s[j], s[k]))
  }

  ghost predicate LocallyShuffled(s: seq<Record>) {
    Distinct(s) && forall k, c: nat :: 0 <= k < |s| && IsExpected(s, k, c) ==> LocalAt(s, k, c)
  }

  /** The records come in the order of their numbers, counted from the first one of s. */
  ghost predicate Ascending(s: seq<Record>, t: seq<Item>)
    requires forall j :: 0 <= j < |t| ==> t[j].origin < |s|
  {
    forall j, k :: 0 <= j < k < |t| ==> Rank(s, t[j].origin) < Rank(s, t[k].origin)
  }

  /** The records of rank c or more that are out of order. */
  ghost function OutOfOrder(s: seq<Record>, c: nat): set<nat> {
    set k: nat | k < |s| && Rank(s, k) >= c && Rivals(s, k) != {}
  }

  /** The records of rank c or more whose preceding number is missing. */
  ghost function AfterMissing(s: seq<Record>, c: nat): set<nat> {
    set k: nat | k < |s| && Rank(s, k) >= c && !HasRank(s, Rank(s, k) - 1)
  }

  // ---------- Sequence numbers and ranks ----------

  /** The sequence number of rank r. */
  function Numbered(s: seq<Record>, r: nat): u32
    requires s != []
  {
    (s[0].seqNo + r) % WORD
  }

  lemma {:induction false} RankNumbers(s: seq<Record>, k: nat, i: nat)
    requires k < |s| && i < WORD
    ensures s[k].seqNo == Numbered(s, i) <==> Rank(s, k) == i
  {
    DistanceCases(s[0].seqNo, s[k].seqNo);
  }

  lemma {:induction false} NextNumber(s: seq<Record>, i: nat)
    requires s != [] && i > 0
    ensures Next(Numbered(s, i - 1)) == Numbered(s, i)
  {
  }

  /** The number that is expected after record j, and the larger-numbered ones. */
  lemma {:induction false} RankDistance(s: seq<Record>, j: nat, k: nat)
    requires j < |s| && k < |s| && Rank(s, j) < Rank(s, k)
    ensures (s[k].seqNo - Next(s[j].seqNo)) % WORD == Rank(s, k) - Rank(s, j) - 1
    ensures s[k].seqNo == Next(s[j].seqNo) <==> Rank(s, k) == Rank(s, j) + 1
  {
    DistanceCases(s[0].seqNo, s[j].seqNo);
    DistanceCases(s[0].seqNo, s[k].seqNo);
    DistanceCases(Next(s[j].seqNo), s[k].seqNo);
  }

  // ---------- The run ----------

  /** The i lowest records are in place, and the others are in their original order. */
  ghost predicate SortedUpTo(s: seq<Record>, t: seq<Item>, i: nat) {
    && i <= |t| && Permuted(s, t)
    && (forall j, k :: 0 <= j < i && j < k < |t| ==> Rank(s, t[j].origin) < Rank(s, t[k].origin))
    && (forall j, k :: i <= j < k < |t| ==> t[j].origin < t[k].origin)
  }

  /** The lowest record that is left, behind the records it has to pass. */
  ghost predicate IsNext(s: seq<Record>, t: seq<Item>, i: nat, p: nat)
    requires Permuted(s, t)
  {
    && i <= p < |t|
    && forall j :: i <= j < |t| && j != p ==> Rank(s, t[p].origin) < Rank(s, t[j].origin)
  }

  ghost function Origins(t: seq<Item>): (f: seq<nat>)
    ensures |f| == |t| && forall j :: 0 <= j < |t| ==> f[j] == t[j].origin
  {
    seq(|t|, j requires 0 <= j < |t| => t[j].origin)
  }

  lemma {:induction false} OriginsAreInjective(s: seq<Record>, t: seq<Item>)
    requires Permuted(s, t)
    ensures Injective(Origins(t)) && forall j :: 0 <= j < |t| ==> Origins(t)[j] < |t|
  {
  }

  /** Every record is somewhere. */
  lemma {:induction false} Where(s: seq<Record>, t: seq<Item>, k: nat) returns (p: nat)
    requires Permuted(s, t) && k < |s|
    ensures p < |t| && t[p].origin == k
  {
    OriginsAreInjective(s, t);
    p := Pigeonhole(Origins(t), k);
  }

  lemma {:induction false} RanksDiffer(s: seq<Record>, t: seq<Item>, j: nat, k: nat)
    requires Distinct(s) && Permuted(s, t) && j < |t| && k < |t| && j != k
    ensures Rank(s, t[j].origin) != Rank(s, t[k].origin)
  {
    assert t[j].origin != t[k].origin;
  }

  lemma {:induction false} LowestFrom(s: seq<Record>, t: seq<Item>, i: nat) returns (p: nat)
    requires Distinct(s) && Permuted(s, t) && i < |t|
    ensures IsNext(s, t, i, p)
    decreases |t| - i
  {
    p := i;
    if i + 1 < |t| {
      var q := LowestFrom(s, t, i + 1);
      RanksDiffer(s, t, i, q);
      if Rank(s, t[q].origin) < Rank(s, t[i].origin) {
        p := q;
      }
    }
  }

  /** The number that the loop expects next. */
  lemma {:induction false} NextIsExpected(s: seq<Record>, t: seq<Item>, i: nat, p: nat)
    requires SortedUpTo(s, t, i) && 0 < i && IsNext(s, t, i, p)
    ensures IsExpected(s, t[p].origin, Rank(s, t[i-1].origin) + 1)
  {
    var k, c := t[p].origin, Rank(s, t[i-1].origin) + 1;
    assert HasRank(s, c - 1);
    forall r: nat | c <= r < Rank(s, k)
      ensures !HasRank(s, r)
    {
      if HasRank(s, r) {
        var j: nat :| j < |s| && Rank(s, j) == r;
        var q := Where(s, t, j);
      }
    }
  }

  lemma {:induction false} ExpectedIsUnique(s: seq<Record>, k: nat, c: nat, c': nat)
    requires k < |s| && IsExpected(s, k, c) && IsExpected(s, k, c')
    ensures c == c'
  {
    assert HasRank(s, c - 1) && HasRank(s, c' - 1);
  }

  // ---------- What the next record has to pass ----------

  lemma {:induction false} WaitingIsInBetween(s: seq<Record>, t: seq<Item>, i: nat, p: nat, q: nat)
    requires SortedUpTo(s, t, i) && IsNext(s, t, i, p) && i <= q < |t|
    ensures |Waiting(s, t[p].origin, t[q].origin)| == q - i
  {
    var between, waiting := Interval(i, q), Waiting(s, t[p].origin, t[q].origin);
    OriginsAreInjective(s, t);
    forall j | j in waiting
      ensures j in Image(Origins(t), between)
    {
      var x := Where(s, t, j);
      assert x in between;
    }
    assert Image(Origins(t), between) == waiting;
    ImageSize(Origins(t), between);
  }

  /** The records to pass are the rivals of the next record. */
  lemma {:induction false} RivalsAreInBetween(s: seq<Record>, t: seq<Item>, i: nat, p: nat)
    requires Distinct(s) && SortedUpTo(s, t, i) && IsNext(s, t, i, p)
    ensures |Rivals(s, t[p].origin)| == p - i
    ensures Rivals(s, t[p].origin) == Waiting(s, t[p].origin, t[p].origin)
  {
    WaitingIsInBetween(s, t, i, p, p);
    assert Rivals(s, t[p].origin) == Waiting(s, t[p].origin, t[p].origin);
  }

  /** Where the search for the next record ends if it is in the look-ahead window. */
  function StopOf(s: seq<Record>, t: seq<Item>, i: nat, p: nat, c: nat): (q: nat)
    requires Permuted(s, t) && i <= p < |t|
  {
    if Rank(s, t[p].origin) == c then p else WindowEnd(|t|, i)
  }

  /** Numbers of remaining records, relative to the expected one */
  lemma {:induction false} RemainingIsAhead(s: seq<Record>, t: seq<Item>, i: nat, p: nat, q: nat)
    requires SortedUpTo(s, t, i) && 0 < i && IsNext(s, t, i, p) && i <= q < |t|
    ensures var e, c := Next(t[i-1].rec.seqNo), Rank(s, t[i-1].origin) + 1;
            && (t[q].rec.seqNo - e) % WORD == Rank(s, t[q].origin) - c
            && (t[q].rec.seqNo == e <==> Rank(s, t[q].origin) == c)
            && (Rank(s, t[q].origin) == c ==> q == p)
  {
    RankDistance(s, t[i-1].origin, t[q].origin);
  }

  lemma {:induction false} StopIsStop(s: seq<Record>, t: seq<Item>, i: nat, p: nat)
    requires SortedUpTo(s, t, i) && 0 < i && IsNext(s, t, i, p) && p < i + LOOK_AHEAD
    ensures IsStop(Records(t), i, Next(t[i-1].rec.seqNo), StopOf(s, t, i, p, Rank(s, t[i-1].origin) + 1))
  {
    RemainingIsAhead(s, t, i, p, p);
    forall j | i <= j < |t|
      ensures t[j].rec.seqNo == Next(t[i-1].rec.seqNo) ==> j == p && Rank(s, t[p].origin) == Rank(s, t[i-1].origin) + 1
    {
      RemainingIsAhead(s, t, i, p, j);
    }
  }

  /** A record is a miss of the search if and only if it is far ahead. */
  lemma {:induction false} MissIsFarAhead(s: seq<Record>, t: seq<Item>, i: nat, p: nat, q: nat)
    requires SortedUpTo(s, t, i) && 0 < i && IsNext(s, t, i, p) && p < i + LOOK_AHEAD && i <= q < |t|
    ensures var e, c := Next(t[i-1].rec.seqNo), Rank(s, t[i-1].origin) + 1;
            q in Misses(Records(t), e, i, StopOf(s, t, i, p, c)) <==> t[q].origin in FarAhead(s, t[p].origin, c)
  {
    hide Waiting;
    RemainingIsAhead(s, t, i, p, q);
    WaitingIsInBetween(s, t, i, p, q);
  }

  lemma {:induction false} FarAheadIsMissed(s: seq<Record>, t: seq<Item>, i: nat, p: nat)
    requires SortedUpTo(s, t, i) && 0 < i && IsNext(s, t, i, p) && p < i + LOOK_AHEAD
    ensures var e, c := Next(t[i-1].rec.seqNo), Rank(s, t[i-1].origin) + 1;
            |Misses(Records(t), e, i, StopOf(s, t, i, p, c))| == |FarAhead(s, t[p].origin, c)|
  {
    hide Waiting;
    var e, c := Next(t[i-1].rec.seqNo), Rank(s, t[i-1].origin) + 1;
    var misses, far := Misses(Records(t), e, i, StopOf(s, t, i, p, c)), FarAhead(s, t[p].origin, c);
    OriginsAreInjective(s, t);
    forall q: nat | i <= q < |t|
      ensures q in misses <==> t[q].origin in far
    {
      MissIsFarAhead(s, t, i, p, q);
    }
    forall j | j in far
      ensures j in Image(Origins(t), misses)
    {
      var q := Where(s, t, j);
      assert i <= q;
    }
    assert Image(Origins(t), misses) == far;
    ImageSize(Origins(t), misses);
  }

  // ---------- The step ----------

  /** The next record is the best one as far as the search looks. */
  lemma {:induction false} NextIsBest(s: seq<Record>, t: seq<Item>, i: nat, p: nat, b: nat)
    requires SortedUpTo(s, t, i) && 0 < i && IsNext(s, t, i, p) && p < b <= |t|
    requires Rank(s, t[p].origin) < Rank(s, t[i-1].origin) + 1 + LOOK_AHEAD
    ensures IsBest(Records(t), i, b, Next(t[i-1].rec.seqNo), p)
  {
    RemainingIsAhead(s, t, i, p, p);
    forall j: nat | i <= j < b
      ensures j != p ==> (t[p].rec.seqNo - Next(t[i-1].rec.seqNo)) % WORD < (t[j].rec.seqNo - Next(t[i-1].rec.seqNo)) % WORD
    {
      RemainingIsAhead(s, t, i, p, j);
    }
  }

  /** The search finds the next record if and only if that has few rivals, follows few missing numbers,
      and has very few records far ahead around it. */
  lemma {:induction false} NextIsFound(s: seq<Record>, t: seq<Item>, i: nat, p: nat)
    requires Distinct(s) && SortedUpTo(s, t, i) && 0 < i && IsNext(s, t, i, p)
    ensures var k, c := t[p].origin, Rank(s, t[i-1].origin) + 1;
            FindLowest(Records(t), i, Next(t[i-1].rec.seqNo)) == Some(p) <==>
              |Rivals(s, k)| < LOOK_AHEAD && Rank(s, k) < c + LOOK_AHEAD && |FarAhead(s, k, c)| <= MAX_NR_NOT_IN_RANGE
  {
    hide FindLowest, FarAhead, Rivals, Misses;
    var r, e, c := Records(t), Next(t[i-1].rec.seqNo), Rank(s, t[i-1].origin) + 1;
    RivalsAreInBetween(s, t, i, p);
    FindLowestIsAhead(r, i, e);
    if p < i + LOOK_AHEAD {
      var q := StopOf(s, t, i, p, c);
      StopIsStop(s, t, i, p);
      FarAheadIsMissed(s, t, i, p);
      FindLowestIsExact(r, i, e, q);
      RemainingIsAhead(s, t, i, p, p);
      if Rank(s, t[p].origin) < c + LOOK_AHEAD {
        NextIsBest(s, t, i, p, Reach(r, i, q));
        if FindLowest(r, i, e).Some? && |FarAhead(s, t[p].origin, c)| <= MAX_NR_NOT_IN_RANGE {
          BestIsUnique(r, i, Reach(r, i, q), e, p, FindLowest(r, i, e).value);
        }
      }
    }
  }

  lemma {:induction false} NextCanMove(s: seq<Record>, t: seq<Item>, i: nat, p: nat)
    requires Distinct(s) && SortedUpTo(s, t, i) && IsNext(s, t, i, p)
    ensures CanMove(Records(t), i, p) <==> forall j :: j in Rivals(s, t[p].origin) ==> !MustFollow(s[j], s[t[p].origin])
  {
    if CanMove(Records(t), i, p) {
      forall j | j in Rivals(s, t[p].origin)
        ensures !MustFollow(s[j], s[t[p].origin])
      {
        var q := Where(s, t, j);
        assert i <= q < p;
        assert !MustFollow(Records(t)[q], Records(t)[p]);
      }
    } else {
      var q :| i <= q < p && MustFollow(Records(t)[q], Records(t)[p]);
      assert t[q].origin in Rivals(s, t[p].origin);
    }
  }

  /** The next record is moved to the cursor if and only if it is locally shuffled; otherwise a higher
      one ends up there. */
  lemma {:induction false} NextIsFetched(s: seq<Record>, st: State, i: nat, p: nat)
    requires Distinct(s) && SortedUpTo(s, st.items, i) && 0 < i < p && IsNext(s, st.items, i, p)
    ensures var e, c, k := Next(st.items[i-1].rec.seqNo), Rank(s, st.items[i-1].origin) + 1, st.items[p].origin;
            if LocalAt(s, k, c) then Fetch(st, i, e) == st.(items := Rotated(st.items, i, p), reordered := st.reordered + 1)
            else Rank(s, Fetch(st, i, e).items[i].origin) > Rank(s, k)
  {
    hide FindLowest, FarAhead, Rivals, CanMove;
    var t := st.items;
    RivalsAreInBetween(s, t, i, p);
    NextIsFound(s, t, i, p);
    NextCanMove(s, t, i, p);
    FindLowestIsAhead(Records(t), i, Next(t[i-1].rec.seqNo));
  }

  /** A record that is in its place stays there. */
  lemma {:induction false} NextStays(s: seq<Record>, st: State, i: nat)
    requires Distinct(s) && SortedUpTo(s, st.items, i) && 0 < i && IsNext(s, st.items, i, i)
    ensures Fetch(st, i, Next(st.items[i-1].rec.seqNo)) == st
  {
    hide FindLowest;
    var t, e := st.items, Next(st.items[i-1].rec.seqNo);
    FindLowestIsLowest(Records(t), i, e);
    var m := FindLowest(Records(t), i, e);
    assert Records(t)[i] == t[i].rec && (m.Some? ==> Records(t)[m.value] == t[m.value].rec);
    if m.Some? && m.value != i {
      RemainingIsAhead(s, t, i, i, i);
      RemainingIsAhead(s, t, i, i, m.value);
      InRangeIsDistance(e, t[i].rec.seqNo);
      InRangeIsDistance(e, t[m.value].rec.seqNo);
    }
  }

  /** A step puts the next record in its place, with a hole only after missing numbers, if and only if
      that record is locally shuffled. */
  lemma {:induction false} StepSorts(s: seq<Record>, st: State, i: nat, p: nat)
    requires Distinct(s) && SortedUpTo(s, st.items, i) && 0 < i && IsNext(s, st.items, i, p)
    ensures var c, k, st' := Rank(s, st.items[i-1].origin) + 1, st.items[p].origin, Step(st, i);
            if LocalAt(s, k, c) then
              && SortedUpTo(s, st'.items, i + 1) && st'.items[i].origin == k && st'.aborted == st.aborted
              && st'.reordered == st.reordered + (if Rivals(s, k) == {} then 0 else 1)
              && st'.holes == st.holes + (if Rank(s, k) == c then 0 else 1)
            else Rank(s, st'.items[i].origin) > Rank(s, k)
  {
    hide Fetch, FarAhead, Rivals, MustFollow;
    RivalsAreInBetween(s, st.items, i, p);
    RemainingIsAhead(s, st.items, i, p, i);
    RemainingIsAhead(s, st.items, i, p, p);
    if i < p {
      NextIsFetched(s, st, i, p);
    } else {
      NextStays(s, st, i);
      assert Rotated(st.items, i, i) == st.items;
    }
    RotationSorts(s, st.items, i, p);
  }

  lemma {:induction false} RotationSorts(s: seq<Record>, t: seq<Item>, i: nat, p: nat)
    requires SortedUpTo(s, t, i) && IsNext(s, t, i, p)
    ensures SortedUpTo(s, Rotated(t, i, p), i + 1)
  {
    hide Rank;
    var r := Rotated(t, i, p);
    forall j, k | 0 <= j < k < |r|
      ensures r[j].origin != r[k].origin
      ensures i + 1 <= j ==> r[j].origin < r[k].origin
      ensures j < i + 1 ==> Rank(s, r[j].origin) < Rank(s, r[k].origin)
    {
      RotationSortsPair(s, t, i, p, j, k);
    }
  }

  lemma {:induction false} RotationSortsPair(s: seq<Record>, t: seq<Item>, i: nat, p: nat, j: nat, k: nat)
    requires SortedUpTo(s, t, i) && IsNext(s, t, i, p) && j < k < |t|
    ensures var r := Rotated(t, i, p);
            && r[j].origin != r[k].origin
            && (i + 1 <= j ==> r[j].origin < r[k].origin)
            && (j < i + 1 ==> Rank(s, r[j].origin) < Rank(s, r[k].origin))
  {
    var j', k' := Source(i, p, j), Source(i, p, k);
    assert j' != k';
  }

  // ---------- Whole runs ----------

  /** The next record is the only one in its place; the others are higher. */
  lemma {:induction false} OthersAreHigher(s: seq<Record>, t: seq<Item>, i: nat, p: nat, j: nat)
    requires SortedUpTo(s, t, i) && 0 < i && IsNext(s, t, i, p) && j < |s| && j != t[p].origin
    ensures Rank(s, j) >= Rank(s, t[i-1].origin) + 1 <==> Rank(s, j) >= Rank(s, t[p].origin) + 1
  {
    var q := Where(s, t, j);
  }

  lemma {:induction false} OneLess(s: seq<Record>, t: seq<Item>, i: nat, p: nat)
    requires SortedUpTo(s, t, i) && 0 < i && IsNext(s, t, i, p)
    ensures var c, k := Rank(s, t[i-1].origin) + 1, t[p].origin;
            && |OutOfOrder(s, c)| == |OutOfOrder(s, Rank(s, k) + 1)| + (if Rivals(s, k) == {} then 0 else 1)
            && |AfterMissing(s, c)| == |AfterMissing(s, Rank(s, k) + 1)| + (if Rank(s, k) == c then 0 else 1)
  {
    var c, k := Rank(s, t[i-1].origin) + 1, t[p].origin;
    NextIsExpected(s, t, i, p);
    forall j: nat | j < |s| && j != k
      ensures Rank(s, j) >= c <==> Rank(s, j) >= Rank(s, k) + 1
    {
      OthersAreHigher(s, t, i, p, j);
    }
    OneLateLess(s, k, c);
    OneMissingLess(s, k, c);
  }

  lemma {:induction false} OneLateLess(s: seq<Record>, k: nat, c: nat)
    requires k < |s| && c <= Rank(s, k)
    requires forall j: nat {:trigger Rank(s, j)} :: j < |s| && j != k ==> (Rank(s, j) >= c <==> Rank(s, j) >= Rank(s, k) + 1)
    ensures |OutOfOrder(s, c)| == |OutOfOrder(s, Rank(s, k) + 1)| + (if Rivals(s, k) == {} then 0 else 1)
  {
    hide Rank, Rivals, HasRank;
    var late := OutOfOrder(s, Rank(s, k) + 1);
    assert OutOfOrder(s, c) == if Rivals(s, k) == {} then late else late + {k};
  }

  lemma {:induction false} OneMissingLess(s: seq<Record>, k: nat, c: nat)
    requires k < |s| && IsExpected(s, k, c)
    requires forall j: nat {:trigger Rank(s, j)} :: j < |s| && j != k ==> (Rank(s, j) >= c <==> Rank(s, j) >= Rank(s, k) + 1)
    ensures |AfterMissing(s, c)| == |AfterMissing(s, Rank(s, k) + 1)| + (if Rank(s, k) == c then 0 else 1)
  {
    hide Rank, HasRank;
    var after := AfterMissing(s, Rank(s, k) + 1);
    assert HasRank(s, Rank(s, k) - 1) <==> Rank(s, k) == c;
    assert AfterMissing(s, c) == if Rank(s, k) == c then after else after + {k};
  }

  /** What a run has to do on a locally shuffled trace: the counts, as far as it has come */
  ghost predicate OnTrack(s: seq<Record>, st: State, i: nat) {
    && 0 < i && SortedUpTo(s, st.items, i) && st.aborted == 0
    && var c := Rank(s, st.items[i-1].origin) + 1;
       && st.reordered + |OutOfOrder(s, c)| == |OutOfOrder(s, 1)|
       && st.holes + |AfterMissing(s, c)| == |AfterMissing(s, 1)|
  }

  lemma {:induction false} StepIsOnTrack(s: seq<Record>, st: State, i: nat)
    requires LocallyShuffled(s) && OnTrack(s, st, i) && i < |s|
    ensures OnTrack(s, Step(st, i), i + 1)
  {
    hide LocalAt, Step, IsNext, IsExpected, OutOfOrder, AfterMissing, Rivals, Rank;
    var p := LowestFrom(s, st.items, i);
    NextIsExpected(s, st.items, i, p);
    StepSorts(s, st, i, p);
    OneLess(s, st.items, i, p);
  }

  lemma {:induction false} RunSorts(s: seq<Record>, st: State, i: nat)
    requires LocallyShuffled(s) && OnTrack(s, st, i)
    ensures OnTrack(s, Run(st, i), |s|)
    decreases |st.items| - i
  {
    hide LocallyShuffled, Step, OutOfOrder, AfterMissing, Rank;
    if i < |s| {
      StepIsOnTrack(s, st, i);
      RunSorts(s, Step(st, i), i + 1);
    }
  }

  lemma {:induction false} NothingLeft(s: seq<Record>, t: seq<Item>)
    requires SortedUpTo(s, t, |s|) && s != []
    ensures OutOfOrder(s, Rank(s, t[|t|-1].origin) + 1) == {} == AfterMissing(s, Rank(s, t[|t|-1].origin) + 1)
  {
    forall k: nat | k < |s|
      ensures Rank(s, k) <= Rank(s, t[|t|-1].origin)
    {
      var q := Where(s, t, k);
    }
  }

  /** If a run ends in order, no higher record than the next one is at the cursor. */
  lemma {:induction false} LowestIsNext(s: seq<Record>, st: State, i: nat, p: nat)
    requires SortedUpTo(s, st.items, i) && IsNext(s, st.items, i, p)
    requires Permuted(s, Run(st, i).items) && Ascending(s, Run(st, i).items)
    ensures Rank(s, Run(st, i).items[i].origin) <= Rank(s, st.items[p].origin)
  {
    hide Run;
    var last := Run(st, i).items;
    var w := Where(s, last, st.items[p].origin);
    RunCountsGaps(st, i);
    assert forall j :: 0 <= j < i ==> last[j] == last[..i][j] == st.items[j];
  }

  /** If a run ends in order, each record that it has put in its place is locally shuffled. */
  lemma {:induction false} SortedIsLocal(s: seq<Record>, st: State, i: nat, k: nat, c: nat)
    requires Distinct(s) && SortedUpTo(s, st.items, i) && 0 < i
    requires Permuted(s, Run(st, i).items) && Ascending(s, Run(st, i).items)
    requires k < |s| && Rank(s, k) > Rank(s, st.items[i-1].origin) && IsExpected(s, k, c)
    ensures LocalAt(s, k, c)
    decreases |st.items| - i
  {
    hide LocalAt, Step, IsExpected;
    var t := st.items;
    var w := Where(s, t, k);
    assert i <= w;
    var p := LowestFrom(s, t, i);
    var next, last := Step(st, i), Run(st, i).items;
    NextIsExpected(s, t, i, p);
    StepSorts(s, st, i, p);
    RunCountsGaps(next, i + 1);
    assert last[..i+1][i] == next.items[..i+1][i];
    LowestIsNext(s, st, i, p);
    if k == t[p].origin {
      ExpectedIsUnique(s, k, c, Rank(s, t[i-1].origin) + 1);
    } else {
      SortedIsLocal(s, next, i + 1, k, c);
    }
  }

  ghost function Started(s: seq<Record>): (st: State)
    ensures st.items == Tagged(s) && st.holes == st.reordered == st.aborted == 0
  {
    State(Tagged(s), 0, 0, 0)
  }

  /** The first record is in its place. */
  lemma {:induction false} FirstIsInPlace(s: seq<Record>)
    requires Distinct(s) && s != []
    ensures SortedUpTo(s, Started(s).items, 1) && Reorder(s) == Run(Started(s), 1)
    ensures Rank(s, Started(s).items[0].origin) == 0
  {
  }

  lemma {:induction false} NothingInEmpty(s: seq<Record>)
    requires s == []
    ensures OutOfOrder(s, 1) == {} == AfterMissing(s, 1)
  {
  }

  lemma {:induction false} LocallyShuffledIsSorted(s: seq<Record>)
    requires LocallyShuffled(s)
    ensures var st := Reorder(s);
            && SortedUpTo(s, st.items, |s|) && st.aborted == 0
            && st.reordered == |OutOfOrder(s, 1)| && st.holes == |AfterMissing(s, 1)|
  {
    hide LocalAt, IsExpected, OutOfOrder, AfterMissing, Rank, SortedUpTo, Tagged;
    if s != [] {
      FirstIsInPlace(s);
      RunSorts(s, Started(s), 1);
      NothingLeft(s, Reorder(s).items);
    } else {
      NothingInEmpty(s);
      EmptyIsSorted(s, Reorder(s).items);
    }
  }

  lemma {:induction false} EmptyIsSorted(s: seq<Record>, t: seq<Item>)
    requires s == [] && t == []
    ensures SortedUpTo(s, t, 0)
  {
  }

  lemma {:induction false} SortedIsAscending(s: seq<Record>, t: seq<Item>)
    requires SortedUpTo(s, t, |s|)
    ensures Permuted(s, t) && Ascending(s, t)
  {
  }

  lemma {:induction false} SortedIsLocallyShuffled(s: seq<Record>)
    requires Permuted(s, Reorder(s).items) && Ascending(s, Reorder(s).items)
    ensures LocallyShuffled(s)
  {
    hide LocalAt, IsExpected;
    AscendingIsDistinct(s, Reorder(s).items);
    forall k, c: nat | 0 <= k < |s| && IsExpected(s, k, c)
      ensures LocalAt(s, k, c)
    {
      FirstIsInPlace(s);
      FirstIsFirst(s, k, c);
      SortedIsLocal(s, Started(s), 1, k, c);
    }
  }

  lemma {:induction false} AscendingIsDistinct(s: seq<Record>, t: seq<Item>)
    requires Permuted(s, t) && Ascending(s, t)
    ensures Distinct(s)
  {
    forall j, k | 0 <= j < k < |s|
      ensures Rank(s, j) != Rank(s, k)
    {
      var x := Where(s, t, j);
      var y := Where(s, t, k);
    }
  }

  lemma {:induction false} FirstIsFirst(s: seq<Record>, k: nat, c: nat)
    requires k < |s| && IsExpected(s, k, c)
    ensures Rank(s, k) > Rank(s, 0)
  {
  }

  // ---------- Complete traces ----------

  /** The sequence numbers of the items are consecutive from the first one of s. */
  ghost predicate InSequence(s: seq<Record>, t: seq<Item>) {
    forall k :: 0 <= k < |t| && s != [] ==> t[k].rec.seqNo == Numbered(s, k)
  }

  /** Without gaps, the numbers are in sequence. */
  lemma {:induction false} NoGapsInSequence(s: seq<Record>, t: seq<Item>, i: nat)
    requires s != [] && 0 < i <= |t| && Gaps(Records(t), i) == 0
    requires forall k :: 0 <= k < i ==> t[k].rec.seqNo == Numbered(s, k)
    ensures InSequence(s, t)
    decreases |t| - i
  {
    if i < |t| {
      NextNumber(s, i);
      NoGapsInSequence(s, t, i + 1);
    }
  }

  lemma {:induction false} GapsInSequence(s: seq<Record>, t: seq<Item>, i: nat)
    requires |t| == |s| && InSequence(s, t) && i <= |t|
    ensures Gaps(Records(t), i) == 0
    decreases |t| - i
  {
    if i < |t| {
      if i > 0 {
        NextNumber(s, i);
      }
      GapsInSequence(s, t, i + 1);
    }
  }

  /** There are no holes if and only if the result is in sequence. */
  lemma {:induction false} NoHolesInSequence(s: seq<Record>)
    ensures Reorder(s).holes == 0 <==> InSequence(s, Reorder(s).items)
  {
    var t := Reorder(s).items;
    HolesAreGaps(s);
    if s != [] {
      RunCountsGaps(Started(s), 1);
      assert t[..1][0] == Started(s).items[..1][0];
      if Reorder(s).holes == 0 {
        NoGapsInSequence(s, t, 1);
      }
    }
    if InSequence(s, t) {
      GapsInSequence(s, t, 0);
    }
  }

  lemma {:induction false} InSequenceIsAscending(s: seq<Record>, t: seq<Item>)
    requires Permuted(s, t) && |s| <= WORD && InSequence(s, t)
    ensures Ascending(s, t) && Gapless(s)
  {
    forall k: nat | k < |t|
      ensures Rank(s, t[k].origin) == k
    {
      RankNumbers(s, t[k].origin, k);
    }
    forall k: nat | k < |s|
      ensures Rank(s, k) < |s|
    {
      var q := Where(s, t, k);
    }
  }

  /** If no number is missing, there is no hole. */
  lemma {:induction false} GaplessIsWhole(s: seq<Record>)
    requires Distinct(s) && Gapless(s)
    ensures AfterMissing(s, 1) == {}
  {
    var ranks := seq(|s|, k requires 0 <= k < |s| => Rank(s, k));
    forall k: nat | k < |s| && Rank(s, k) >= 1
      ensures HasRank(s, Rank(s, k) - 1)
    {
      var j := Pigeonhole(ranks, Rank(s, k) - 1);
    }
  }

  /** For every trace: it ends up in the order of its numbers if and only if it is locally shuffled. In
      that case no move is aborted, exactly the records that are out of order are moved, and there is
      one hole for each record after missing numbers. */
  lemma {:induction false} ReorderSorts(s: seq<Record>)
    ensures var st := Reorder(s);
            && Permuted(s, st.items)
            && (Ascending(s, st.items) <==> LocallyShuffled(s))
            && (LocallyShuffled(s) ==>
                  st.aborted == 0 && st.reordered == |OutOfOrder(s, 1)| && st.holes == |AfterMissing(s, 1)|)
  {
    ReorderKeeps(s);
    if LocallyShuffled(s) {
      LocallyShuffledIsSorted(s);
      SortedIsAscending(s, Reorder(s).items);
    }
    if Ascending(s, Reorder(s).items) {
      SortedIsLocallyShuffled(s);
    }
  }

  /** No hole is reported for a trace of up to 2^32 records if and only if it is locally shuffled and no
      number is missing; exactly then its numbers end up consecutive. */
  lemma {:induction false} NoHolesIfWhole(s: seq<Record>)
    requires |s| <= WORD
    ensures Reorder(s).holes == 0 <==> LocallyShuffled(s) && Gapless(s)
    ensures InSequence(s, Reorder(s).items) <==> LocallyShuffled(s) && Gapless(s)
  {
    NoHolesInSequence(s);
    ReorderSorts(s);
    if InSequence(s, Reorder(s).items) {
      InSequenceIsAscending(s, Reorder(s).items);
    }
    if LocallyShuffled(s) && Gapless(s) {
      GaplessIsWhole(s);
    }
  }
}
