/** The CPU load of a system or of a process, sampled at each call (OMR_TI.cpp). */
module CpuLoadSamplers {
  import opened Wrappers
  import opened CpuLoad

  class CpuLoadSampler {
    const kind: Kind
    var status: Status
    var oldest: Sample
    var interim: Sample
    var negativeElapsedTimeCount: nat

    ghost function Kept(): History
      reads this
    {
      History(status, oldest, interim, negativeElapsedTimeCount)
    }

    constructor (kind: Kind)
      ensures this.kind == kind && status == NoHistory && negativeElapsedTimeCount == 0
    {
      this.kind := kind;
      status, negativeElapsedTimeCount := NoHistory, 0;
      oldest, interim := Sample(0, 0, 0, 0), Sample(0, 0, 0, 0);
    }

    method CalculateCpuLoad(endRecord: Sample, startRecord: Sample) returns (rc: Interval, cpuLoad: Option<Load>)
      ensures rc == Measure(endRecord, startRecord)
      ensures cpuLoad == if rc == OK then Some(LoadBetween(kind, endRecord, startRecord)) else None
    {
      rc, cpuLoad := OK, None;
      var timestampDelta := Wrap64(endRecord.timestamp - startRecord.timestamp);
      if timestampDelta < 0 {
        rc := ElapsedTimeNegative;
      } else if timestampDelta < MINIMUM_CPU_LOAD_INTERVAL {
        rc := ElapsedTimeTooSmall;
      } else if endRecord.cpuTime < startRecord.cpuTime {
        rc := NegativeInterval;
      } else {
        var cpuTimeDelta := Wrap64(endRecord.cpuTime - startRecord.cpuTime);
        if kind == System {
          cpuLoad := Some(AtMostOne(cpuTimeDelta, Wrap64(endRecord.numberOfCpus * timestampDelta)));
        } else {
          var systemCpuTimeDelta: int := Wrap64(endRecord.systemTime - startRecord.systemTime);
          var processTimeDelta := Wrap64(systemCpuTimeDelta + cpuTimeDelta);
          if processTimeDelta < systemCpuTimeDelta {
            cpuLoad := Some(Load(1.0));
          } else {
            cpuLoad := Some(AtMostOne(processTimeDelta, Wrap64(endRecord.numberOfCpus * timestampDelta)));
          }
        }
      }
    }

    method GetCpuLoad(reading: Reading) returns (ret: Code, cpuLoad: Option<Load>)
      modifies this
      ensures Kept() == After(old(Kept()), reading)
      ensures Answer(ret, cpuLoad) == Answered(kind, old(Kept()), reading)
    {
      ret, cpuLoad := NoError, None;
      if status == Supported || status == NoHistory {
        match reading
        case Failed(portError) =>
          status := StatusOf(portError);
          ret := NotAvailable;
        case Read(newest) =>
          if status == NoHistory {
            oldest, interim := newest, newest;
            status := Supported;
            ret := Retry;
          } else {
            ret, cpuLoad := UseSample(newest);
          }
      } else {
        ret := NotAvailable;
      }
    }

    method UseSample(newest: Sample) returns (ret: Code, cpuLoad: Option<Load>)
      requires status == Supported
      modifies this`oldest, this`interim, this`negativeElapsedTimeCount
      ensures Kept() == TakeSample(old(Kept()), newest)
      ensures Answer(ret, cpuLoad) == Answered(kind, old(Kept()), Read(newest))
    {
      var rc: Interval;
      ret := NoError;
      rc, cpuLoad := CalculateCpuLoad(newest, interim);
      if rc == OK {
        oldest := interim;
        interim := newest;
      } else {
        if rc == NegativeInterval {
          interim := newest;
        }
        rc, cpuLoad := CalculateCpuLoad(newest, oldest);
        match rc
        case OK =>
          negativeElapsedTimeCount := 0;
        case NegativeInterval =>
          oldest := newest;
          negativeElapsedTimeCount := 0;
          ret := Internal;
        case ElapsedTimeTooSmall =>
          negativeElapsedTimeCount := 0;
          ret := Retry;
        case ElapsedTimeNegative =>
          if negativeElapsedTimeCount == MAXIMUM_NEGATIVE_COUNT {
            oldest := newest;
            negativeElapsedTimeCount := 0;
          } else {
            negativeElapsedTimeCount := negativeElapsedTimeCount + 1;
          }
          ret := Retry;
      }
    }
  }
}
