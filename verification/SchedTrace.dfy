/** The records of a sched_trace file: struct st_event_record of include/sched_trace.h. */
module SchedTrace {
  import opened Trace

  type u64 = x: int | 0 <= x < 0x1_0000_0000_0000_0000

  /** raw is the payload as two 64-bit words. */
  datatype StRecord = StRecord(kind: u8, cpu: u8, pid: u16, job: u32, raw: (u64, u64))

  const ST_NAME: u8 := 1
  const ST_PARAM: u8 := 2
  const ST_RELEASE: u8 := 3
  const ST_SWITCH_TO: u8 := 5
  const ST_SWITCH_AWAY: u8 := 6
  const ST_COMPLETION: u8 := 7
  const ST_NP_EXIT: u8 := 13

  /** event_time: records without a time stamp occur early. */
  function EventTime(r: StRecord): u64 {
    if ST_RELEASE <= r.kind <= ST_NP_EXIT then r.raw.0 else 0
  }

  /** earlier_event */
  predicate EarlierEvent(a: StRecord, b: StRecord) {
    if EventTime(a) == 0 && EventTime(b) == 0 then a.pid < b.pid else EventTime(a) < EventTime(b)
  }
}
