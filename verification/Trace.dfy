/** The records of a Feather-Trace overhead trace: struct timestamp of include/timestamp.h. */
module Trace {
  const WORD: int := 0x1_0000_0000

  type u8 = x: int | 0 <= x < 0x100
  type u16 = x: int | 0 <= x < 0x1_0000
  type u32 = x: int | 0 <= x < WORD
  type u48 = x: int | 0 <= x < 0x1_0000_0000_0000

  datatype Record = Record(
    timestamp: u48,
    pid: u16,
    seqNo: u32,
    cpu: u8,
    event: u8,
    taskType: u8,
    irqFlag: bool,
    irqCount: u8)

  const TSK_RT: u8 := 1

  const SUSPENSION_RANGE: u8 := 30
  const TS_LOCK_SUSPEND: u8 := 38
  const TS_LOCK_RESUME: u8 := 39
  const TS_SCHED_START: u8 := 100
  const TS_SCHED_END: u8 := 101
  const TS_RELEASE_START: u8 := 106
  const TS_SEND_RESCHED_START: u8 := 190
  const SINGLE_RECORDS_RANGE: u8 := 200
  const TS_RELEASE_LATENCY: u8 := 208

  /** The event of a record that has been marked as bad: UINT8_MAX. */
  const MARKED: u8 := 255

  /** Sequence numbers wrap around at 32 bits. */
  function Next(seqNo: u32): u32 {
    (seqNo + 1) % WORD
  }

  /** How far is a sequence number ahead of another one, modulo 2^32? */
  function Distance(from: u32, to: u32): u32 {
    (to - from) % WORD
  }

  function Time(s: seq<Record>, i: nat): u48
    requires i < |s|
  {
    s[i].timestamp
  }

  /** Do the records from position i to position j carry consecutive sequence numbers? */
  predicate Consecutive(s: seq<Record>, i: nat, j: nat)
    requires j < |s|
  {
    forall k :: i < k <= j ==> s[k].seqNo == Next(s[k-1].seqNo)
  }
}
