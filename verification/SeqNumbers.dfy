/** The comparisons of 32-bit sequence numbers in src/ftsort.c. */
module SeqNumbers {
  import opened Trace

  const LOOK_AHEAD: int := 1024
  const OVERFLOW_CUTOFF: int := 0xFFFF / 2

  /** in_range, in unsigned 32-bit arithmetic */
  predicate InRange(seqNo: u32, candidate: u32) {
    var upperBound := (seqNo + LOOK_AHEAD) % WORD;
    var diff := (candidate - seqNo) % WORD;
    || (upperBound < seqNo && candidate < seqNo && candidate < upperBound)
    || (candidate >= seqNo && diff < LOOK_AHEAD)
  }

  /** The conversion of an unsigned argument to a parameter of type int32_t. */
  function Signed(x: u32): int {
    if x < WORD / 2 then x else x - WORD
  }

  /** is_lower_seqno */
  predicate IsLowerSeqNo(candidate: int, min: int) {
    var delta := min - candidate;
    0 <= delta <= OVERFLOW_CUTOFF || delta < -OVERFLOW_CUTOFF
  }

  /** in_range is exact: the candidate is less than LOOK_AHEAD ahead, across the wrap-around. */
  lemma {:induction false} InRangeIsDistance(seqNo: u32, candidate: u32)
    ensures InRange(seqNo, candidate) <==> Distance(seqNo, candidate) < LOOK_AHEAD
  {
    if candidate >= seqNo {
      assert Distance(seqNo, candidate) == candidate - seqNo;
    } else {
      assert Distance(seqNo, candidate) == candidate - seqNo + WORD;
    }
  }

  /** On numbers in range of a third one, is_lower_seqno is the order of their distances, across
      the signed and the unsigned wrap-around. */
  lemma {:induction false} IsLowerIsDistance(seqNo: u32, candidate: u32, min: u32)
    requires InRange(seqNo, candidate) && InRange(seqNo, min)
    ensures IsLowerSeqNo(Signed(candidate), Signed(min)) <==> Distance(seqNo, candidate) <= Distance(seqNo, min)
  {
    InRangeIsDistance(seqNo, candidate);
    InRangeIsDistance(seqNo, min);
    DistanceCases(seqNo, candidate);
    DistanceCases(seqNo, min);
  }

  lemma {:induction false} DistanceCases(from: u32, to: u32)
    ensures Distance(from, to) == if to >= from then to - from else to - from + WORD
  {
  }
}
