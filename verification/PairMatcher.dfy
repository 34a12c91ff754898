/** The scanning loops of src/ft2csv.c and its global counters. */
module PairMatcher {
  import opened Options
  import opened Trace
  import opened EventScans
  import opened LockTimes
  import opened EventPairs

  class Matcher {
    /** The records of the mapped file, which is only read, and the command line options */
    const trace: seq<Record>
    const cfg: Config

    var complete: nat
    var incomplete: nat
    var interrupted: nat
    var skipped: nat
    var nonRt: nat
    var interleaved: nat
    var avoided: nat

    /** What has been written to the output */
    var reported: seq<Pair>

    constructor (trace: seq<Record>, cfg: Config)
      ensures this.trace == trace && this.cfg == cfg
      ensures Counters() == NOTHING && skipped == 0 && reported == []
    {
      this.trace, this.cfg := trace, cfg;
      complete, incomplete, interrupted, skipped, nonRt, interleaved, avoided := 0, 0, 0, 0, 0, 0, 0;
      reported := [];
    }

    ghost function Counters(): Totals
      reads this
    {
      Totals(complete, incomplete, interrupted, nonRt, interleaved, avoided)
    }

    /** next */
    method NextRecord(first: nat, cpu: u8) returns (r: Option<nat>)
      requires first < |trace|
      ensures r == NextOnCpu(trace, first, cpu)
    {
      var lastSeqNo := trace[first].seqNo;
      var pos := first + 1;
      while pos < |trace|
        invariant first < pos <= |trace| && lastSeqNo == trace[pos-1].seqNo
        invariant NextOnCpuFrom(trace, pos, cpu) == NextOnCpu(trace, first, cpu)
      {
        if Next(lastSeqNo) != trace[pos].seqNo {
          return None;
        }
        lastSeqNo := trace[pos].seqNo;
        if trace[pos].cpu == cpu {
          return Some(pos);
        }
        pos := pos + 1;
      }
      return None;
    }

    /** next_id */
    method FindNextId(start: nat, cpu: u8, id: nat, stopId: nat) returns (r: Option<nat>, interruptFlag: bool)
      requires start < |trace|
      modifies this`interleaved, this`interrupted
      ensures var next := NextId(trace, cfg, start, cpu, id, stopId);
              r == next.found && interruptFlag == next.disturbed
      ensures var scan := ScanForId(trace, cfg, start, cpu, id, stopId);
              interleaved == old(interleaved) + scan.restarts && interrupted == old(interrupted) + scan.irqs
    {
      ghost var scan := ScanForId(trace, cfg, start, cpu, id, stopId);
      ghost var last := start;
      interruptFlag := false;
      var restarts := 0;
      r := NextRecord(start, cpu);
      while r.Some? && trace[r.value].event != id
        invariant start <= last < |trace| && r == NextOnCpu(trace, last, cpu)
        invariant interleaved == old(interleaved) && interrupted == old(interrupted)
        invariant var rest := ScanForId(trace, cfg, last, cpu, id, stopId);
                  scan == rest.(restarts := if rest.found.Some? then rest.restarts + restarts else 0)
        decreases |trace| - last
      {
        var pos := r.value;
        if trace[pos].event == stopId {
          return None, false;
        }
        restarts := restarts + 1;
        if !cfg.wantInterleaved {
          return None, false;
        }
        if trace[pos].irqFlag && !cfg.wantInterrupted {
          return None, true;
        }
        last := pos;
        r := NextRecord(pos, cpu);
      }
      if r.Some? {
        interleaved := interleaved + restarts;
      }
      if r.Some? && trace[r.value].irqFlag {
        interrupted := interrupted + 1;
        if !cfg.wantInterrupted {
          return None, true;
        }
      }
    }

    /** next_pid */
    method FindNextPid(first: nat, id1: nat, id2: nat, significant: bool) returns (r: Option<nat>, interruptFlag: bool)
      requires first < |trace|
      modifies this`interrupted
      ensures var next := NextPid(trace, cfg, first, id1, id2, significant);
              r == next.found && interruptFlag == next.disturbed && interrupted == old(interrupted) + next.irqs
    {
      ghost var scan := NextPid(trace, cfg, first, id1, id2, significant);
      ghost var irqs: nat := 0;
      interruptFlag := false;
      var lastSeqNo := trace[first].seqNo;
      var eventCount := 0;
      var pos := first + 1;
      while pos < |trace|
        invariant first < pos <= |trace| && lastSeqNo == trace[pos-1].seqNo && eventCount == pos - 1 - first
        invariant interrupted == old(interrupted) + irqs
        invariant var rest := ScanForPid(trace, cfg, first, pos, id1, id2, significant);
                  scan == rest.(irqs := rest.irqs + irqs)
      {
        eventCount := eventCount + 1;
        if Next(lastSeqNo) != trace[pos].seqNo {
          return None, false;
        }
        lastSeqNo := trace[pos].seqNo;
        if significant && trace[pos].cpu == trace[first].cpu && trace[pos].irqFlag {
          interrupted, irqs := interrupted + 1, irqs + 1;
          if !cfg.wantInterrupted {
            return None, true;
          }
        }
        if trace[pos].pid == trace[first].pid {
          if trace[pos].event == id1 || trace[pos].event == id2 {
            return Some(pos), false;
          } else if eventCount > cfg.maxInterleavedSkipped {
            return None, false;
          }
        }
        pos := pos + 1;
      }
      return None, false;
    }

    /** skip_over_suspension: the record found and the last time seen before it */
    method SkipOverSuspension(pos: nat, lastTime: int) returns (r: Option<nat>, newLastTime: int)
      requires pos < |trace| && lastTime == Time(trace, pos)
      modifies this`interrupted
      ensures r.Some? ==> r.value < |trace|
      ensures Resumption(trace, cfg, pos) == if r.Some? && Time(trace, r.value) >= newLastTime then r else None
      ensures interrupted == old(interrupted)
    {
      newLastTime := lastTime;
      var flag;
      r, flag := FindNextPid(pos, TS_LOCK_RESUME, TS_SCHED_START, false);
      if r.None? || trace[r.value].timestamp < lastTime {
        return None, newLastTime;
      }
      newLastTime := trace[r.value].timestamp;
      if trace[r.value].event == TS_SCHED_START {
        r, flag := FindNextPid(r.value, TS_SCHED_END, NO_EVENT, false);
        if r.None? || trace[r.value].timestamp < newLastTime {
          return None, newLastTime;
        }
        r, flag := FindNextPid(r.value, TS_LOCK_RESUME, NO_EVENT, false);
      }
    }

    /** accumulate_exec_time. The assignment to sum never underflows: sum is a natural number. */
    method AccumulateExecTime(start: nat, stopId: nat) returns (r: Option<nat>, sum: nat, interruptFlag: bool)
      requires start < |trace|
      modifies this`interrupted
      ensures var e := ExecTime(trace, cfg, start, stopId);
              && r == e.second && (r.Some? ==> sum == e.sum) && interruptFlag == e.disturbed
              && interrupted == old(interrupted) + e.irqs
    {
      ghost var e := ExecTime(trace, cfg, start, stopId);
      ghost var irqs: nat := 0;
      var pos := start;
      var lastTime := Time(trace, start);
      sum := 0;
      while true
        invariant start <= pos < |trace| && lastTime == Time(trace, pos)
        invariant interrupted == old(interrupted) + irqs
        invariant var rest := ExecTime(trace, cfg, pos, stopId);
                  e == rest.(sum := if rest.second.Some? then sum + rest.sum else e.sum, irqs := irqs + rest.irqs)
        decreases |trace| - pos
      {
        ghost var before := interrupted;
        var execStart := trace[pos].timestamp;
        r, interruptFlag := FindNextPid(pos, TS_LOCK_SUSPEND, stopId, true);
        if r.None? || trace[r.value].timestamp < lastTime {
          return None, sum, interruptFlag;
        }
        sum := sum + (trace[r.value].timestamp - execStart);
        if trace[r.value].event == stopId {
          return;
        }
        lastTime := trace[r.value].timestamp;
        r, lastTime := SkipOverSuspension(r.value, lastTime);
        if r.None? || trace[r.value].timestamp < lastTime {
          return None, sum, false;
        }
        irqs := irqs + (interrupted - before);
        pos := r.value;
        lastTime := trace[pos].timestamp;
      }
    }

    /** find_event_by_pid */
    method FindEventByPid(first: nat)
      requires first < |trace|
      modifies this
      ensures var a := AttemptByPid(trace, cfg, first);
              Counters() == Plus(old(Counters()), Cost(a)) && reported == old(reported) + PairOf(first, a.verdict)
      ensures skipped == old(skipped)
    {
      hide ExecTime, NextPid;
      var second, execTime, flag := None, 0, false;
      if trace[first].event >= SUSPENSION_RANGE && cfg.maxInterleavedSkipped == 0 {
        second, execTime, flag := AccumulateExecTime(first, trace[first].event + 1);
      } else {
        second, flag := FindNextPid(first, trace[first].event + 1, NO_EVENT, true);
        if second.Some? && trace[second.value].timestamp > trace[first].timestamp {
          execTime := trace[second.value].timestamp - trace[first].timestamp;
        } else {
          second := None;
        }
      }
      if second.Some? {
        reported := reported + [Pair(first, second.value, execTime)];
        complete := complete + 1;
      } else if !flag {
        incomplete := incomplete + 1;
      }
    }

    /** find_event_by_eid, with find_second_ts */
    method FindEventById(first: nat)
      requires first < |trace|
      modifies this
      ensures var a := AttemptById(trace, cfg, first);
              Counters() == Plus(old(Counters()), Cost(a)) && reported == old(reported) + PairOf(first, a.verdict)
      ensures skipped == old(skipped)
    {
      var second, flag := FindNextId(first, trace[first].cpu, trace[first].event + 1, trace[first].event);
      if second.Some? && trace[second.value].timestamp > trace[first].timestamp {
        var execTime := trace[second.value].timestamp - trace[first].timestamp;
        if trace[first].taskType != TSK_RT && trace[second.value].taskType != TSK_RT && !cfg.wantBestEffort {
          nonRt := nonRt + 1;
        } else {
          reported := reported + [Pair(first, second.value, execTime)];
          complete := complete + 1;
        }
      } else if !flag {
        incomplete := incomplete + 1;
      }
    }

    /** show_csv */
    method ShowCsv(first: nat)
      requires first < |trace|
      modifies this
      ensures var a := AttemptAt(trace, cfg, first);
              Counters() == Plus(old(Counters()), Cost(a)) && reported == old(reported) + PairOf(first, a.verdict)
      ensures skipped == old(skipped)
    {
      if trace[first].cpu == cfg.avoidCpu || (cfg.onlyCpu != -1 && trace[first].cpu != cfg.onlyCpu) {
        avoided := avoided + 1;
      } else if cfg.findByPid {
        FindEventByPid(first);
      } else {
        FindEventById(first);
      }
    }

    /** show_id */
    method ShowId(id: nat)
      modifies this
      ensures var start := FirstEnd(trace, id, 0);
              && reported == old(reported) + PairsIn(trace, cfg, id, start, |trace|)
              && Counters() == Plus(old(Counters()), TotalsIn(trace, cfg, id, start, |trace|))
              && skipped == old(skipped) + start
    {
      hide AttemptAt, Cost, PairOf;
      var start := 0;
      while start != |trace| && trace[start].event != id + 1
        invariant 0 <= start <= |trace| && FirstEnd(trace, id, start) == FirstEnd(trace, id, 0)
        invariant skipped == old(skipped) + start && Counters() == old(Counters()) && reported == old(reported)
        decreases |trace| - start
      {
        skipped := skipped + 1;
        start := start + 1;
      }
      ghost var from := start;
      while start != |trace|
        invariant from <= start <= |trace| && skipped == old(skipped) + from
        invariant reported == old(reported) + PairsIn(trace, cfg, id, from, start)
        invariant Counters() == Plus(old(Counters()), TotalsIn(trace, cfg, id, from, start))
        decreases |trace| - start
      {
        if trace[start].event == id {
          ShowCsv(start);
        }
        start := start + 1;
      }
    }
  }
}
