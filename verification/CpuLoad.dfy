/** CPU load over the interval between two records (OMR_TI.cpp), and what a call that takes
    a new sample does to the two records that are kept, stated on values. */
module CpuLoad {
  import opened Wrappers

  const MINIMUM_CPU_LOAD_INTERVAL: int := 10_000_000
  const MAXIMUM_NEGATIVE_COUNT: nat := 3

  const INT64_MAX: int := 0x7FFF_FFFF_FFFF_FFFF
  const INT64_MIN: int := -0x8000_0000_0000_0000

  type int64 = x: int | INT64_MIN <= x <= INT64_MAX

  function Wrap64(x: int): int64 {
    (x + 0x8000_0000_0000_0000) % 0x1_0000_0000_0000_0000 - 0x8000_0000_0000_0000
  }

  lemma WrapNear(x: int)
    ensures INT64_MIN <= x <= INT64_MAX ==> Wrap64(x) == x
    ensures INT64_MAX < x <= 2 * INT64_MAX + 1 ==> Wrap64(x) == x - 0x1_0000_0000_0000_0000
    ensures 2 * INT64_MIN <= x < INT64_MIN ==> Wrap64(x) == x + 0x1_0000_0000_0000_0000
  {
  }

  // The load of the system is measured by its CPU time, that of a process by the CPU time
  // it spends in user and in system mode.
  datatype Kind = System | Process

  // `cpuTime` is the user time of a process; the system time is used for processes only.
  datatype Sample = Sample(timestamp: int64, cpuTime: int64, systemTime: int64, numberOfCpus: int)

  datatype Interval = OK | ElapsedTimeNegative | ElapsedTimeTooSmall | NegativeInterval

  function Measure(end: Sample, start: Sample): Interval {
    var timestampDelta := Wrap64(end.timestamp - start.timestamp);
    if timestampDelta < 0 then ElapsedTimeNegative
    else if timestampDelta < MINIMUM_CPU_LOAD_INTERVAL then ElapsedTimeTooSmall
    else if end.cpuTime < start.cpuTime then NegativeInterval
    else OK
  }

  // ---------- Loads ----------

  // A quotient of two doubles; a load can be infinite only when the divisor is zero.
  datatype Load = Load(value: real) | NegativeInfinity

  predicate InUnit(load: Load) {
    load.Load? && 0.0 <= load.value <= 1.0
  }

  // The quotient, if it is less than one, or else one: also for an infinite quotient and
  // for one that is not a number.
  function AtMostOne(n: int, d: int): Load {
    if d == 0 then if n < 0 then NegativeInfinity else Load(1.0)
    else var result := n as real / d as real; Load(if result < 1.0 then result else 1.0)
  }

  function Capacity(end: Sample, start: Sample): int64 {
    Wrap64(end.numberOfCpus * Wrap64(end.timestamp - start.timestamp))
  }

  function LoadBetween(kind: Kind, end: Sample, start: Sample): Load {
    var cpuTimeDelta := Wrap64(end.cpuTime - start.cpuTime);
    match kind
    case System => AtMostOne(cpuTimeDelta, Capacity(end, start))
    case Process =>
      var systemCpuTimeDelta := Wrap64(end.systemTime - start.systemTime);
      var processTimeDelta := Wrap64(systemCpuTimeDelta + cpuTimeDelta);
      if processTimeDelta < systemCpuTimeDelta then Load(1.0)
      else AtMostOne(processTimeDelta, Capacity(end, start))
  }

  lemma QuotientSign(n: int, d: int)
    requires d != 0
    ensures n as real / d as real >= 0.0 <==> (n == 0 || (n > 0 <==> d > 0))
  {
    var q := n as real / d as real;
    assert q * d as real == n as real;
    if q >= 0.0 {
      if d > 0 { assert q * d as real >= 0.0; } else { assert q * d as real <= 0.0; }
    } else {
      if d > 0 { assert q * d as real < 0.0; } else { assert q * d as real > 0.0; }
    }
  }

  lemma UnitQuotient(n: int, d: int)
    ensures InUnit(AtMostOne(n, d)) <==> n == 0 || (n > 0 && d >= 0) || (n < 0 && d < 0)
  {
    if d != 0 {
      QuotientSign(n, d);
    }
  }

  // The test for an overflow of the sum of two deltas, when the deltas wrap around.
  lemma OverflowIsNoticed(s: int64, u: int64)
    ensures Wrap64(s + u) < s <==> s + u > INT64_MAX || (u < 0 && s + u >= INT64_MIN)
  {
    WrapNear(s + u);
  }

  // If neither difference wraps around, a load of one is written for an overflow of the
  // sum, and otherwise the load is in the unit interval exactly when the sum and the
  // capacity do not have opposite signs.
  lemma ProcessLoadInUnit(end: Sample, start: Sample)
    requires Measure(end, start) == OK
    requires end.cpuTime - start.cpuTime <= INT64_MAX
    requires INT64_MIN <= end.systemTime - start.systemTime <= INT64_MAX
    ensures var sum := (end.systemTime - start.systemTime) + (end.cpuTime - start.cpuTime);
            var d := Capacity(end, start);
            if sum > INT64_MAX then LoadBetween(Process, end, start) == Load(1.0)
            else InUnit(LoadBetween(Process, end, start)) <==> sum == 0 || (sum > 0 && d >= 0) || (sum < 0 && d < 0)
  {
    var s, u := end.systemTime - start.systemTime, end.cpuTime - start.cpuTime;
    WrapNear(s);
    WrapNear(u);
    WrapNear(s + u);
    OverflowIsNoticed(s, u);
    UnitQuotient(s + u, Capacity(end, start));
  }

  // As long as there are CPUs and their capacity does not wrap around, only a process
  // whose times have gone backwards gets a load outside of the unit interval.
  lemma ProcessLoadInUnitUnlessBackwards(end: Sample, start: Sample)
    requires Measure(end, start) == OK
    requires end.cpuTime - start.cpuTime <= INT64_MAX
    requires INT64_MIN <= end.systemTime - start.systemTime <= INT64_MAX
    requires end.numberOfCpus > 0 && end.numberOfCpus * Wrap64(end.timestamp - start.timestamp) <= INT64_MAX
    ensures InUnit(LoadBetween(Process, end, start)) <==>
            (end.systemTime - start.systemTime) + (end.cpuTime - start.cpuTime) >= 0
  {
    CapacityIsProduct(end, start);
    ProcessLoadInUnit(end, start);
  }

  lemma SystemLoadInUnit(end: Sample, start: Sample)
    requires Measure(end, start) == OK
    requires end.cpuTime - start.cpuTime <= INT64_MAX
    requires end.numberOfCpus > 0 && end.numberOfCpus * Wrap64(end.timestamp - start.timestamp) <= INT64_MAX
    ensures InUnit(LoadBetween(System, end, start))
  {
    CapacityIsProduct(end, start);
    WrapNear(end.cpuTime - start.cpuTime);
    UnitQuotient(end.cpuTime - start.cpuTime, Capacity(end, start));
  }

  lemma CapacityIsProduct(end: Sample, start: Sample)
    requires Measure(end, start) == OK
    requires end.numberOfCpus > 0 && end.numberOfCpus * Wrap64(end.timestamp - start.timestamp) <= INT64_MAX
    ensures Capacity(end, start) > 0
  {
    PositiveProduct(end.numberOfCpus, Wrap64(end.timestamp - start.timestamp));
  }

  lemma PositiveProduct(x: int, y: int)
    requires x > 0 && y > 0 && x * y <= INT64_MAX
    ensures Wrap64(x * y) > 0
  {
    var product := x * y;
    assert product > 0;
    WrapNear(product);
  }

  // The load of the system is the CPU time over the time of all CPUs, but never above one.
  lemma SystemLoadIsRatio(end: Sample, start: Sample)
    requires Measure(end, start) == OK
    requires end.cpuTime - start.cpuTime <= INT64_MAX && end.timestamp - start.timestamp <= INT64_MAX
    requires end.timestamp >= start.timestamp
    requires end.numberOfCpus > 0 && end.numberOfCpus * (end.timestamp - start.timestamp) <= INT64_MAX
    ensures LoadBetween(System, end, start).Load?
    ensures IsRatio(LoadBetween(System, end, start).value, end.cpuTime - start.cpuTime,
                    end.numberOfCpus * (end.timestamp - start.timestamp))
  {
    WrapNear(end.timestamp - start.timestamp);
    WrapNear(end.cpuTime - start.cpuTime);
    CapacityIsTimes(end, start);
    RatioIsAtMostOne(end.cpuTime - start.cpuTime, Capacity(end, start));
  }

  // That of a process has both its times in it.
  lemma ProcessLoadIsRatio(end: Sample, start: Sample)
    requires Measure(end, start) == OK
    requires INT64_MIN <= end.systemTime - start.systemTime <= INT64_MAX
    requires end.cpuTime - start.cpuTime <= INT64_MAX && end.timestamp - start.timestamp <= INT64_MAX
    requires (end.systemTime - start.systemTime) + (end.cpuTime - start.cpuTime) <= INT64_MAX
    requires end.timestamp >= start.timestamp
    requires end.numberOfCpus > 0 && end.numberOfCpus * (end.timestamp - start.timestamp) <= INT64_MAX
    ensures LoadBetween(Process, end, start).Load?
    ensures IsRatio(LoadBetween(Process, end, start).value,
                    (end.systemTime - start.systemTime) + (end.cpuTime - start.cpuTime),
                    end.numberOfCpus * (end.timestamp - start.timestamp))
  {
    var s, u := end.systemTime - start.systemTime, end.cpuTime - start.cpuTime;
    WrapNear(end.timestamp - start.timestamp);
    WrapNear(s);
    WrapNear(u);
    WrapNear(s + u);
    OverflowIsNoticed(s, u);
    CapacityIsTimes(end, start);
    RatioIsAtMostOne(s + u, Capacity(end, start));
  }

  predicate IsRatio(load: real, n: int, d: int) {
    if n > d then load == 1.0 else load * d as real == n as real
  }

  lemma RatioIsAtMostOne(n: int, d: int)
    requires d > 0
    ensures AtMostOne(n, d).Load? && IsRatio(AtMostOne(n, d).value, n, d)
  {
    var q := n as real / d as real;
    assert q * d as real == n as real;
    if q < 1.0 {
      assert q * d as real < 1.0 * d as real;
    } else {
      assert q * d as real >= 1.0 * d as real;
    }
  }

  lemma CapacityIsTimes(end: Sample, start: Sample)
    requires Wrap64(end.timestamp - start.timestamp) == end.timestamp - start.timestamp > 0
    requires end.numberOfCpus > 0 && end.numberOfCpus * (end.timestamp - start.timestamp) <= INT64_MAX
    ensures Capacity(end, start) == end.numberOfCpus * (end.timestamp - start.timestamp) > 0
  {
    var delta := end.timestamp - start.timestamp;
    var product := end.numberOfCpus * delta;
    PositiveProduct(end.numberOfCpus, delta);
    assert product > 0;
    WrapNear(product);
  }

  // ---------- Histories ----------

  datatype Status = NoHistory | Supported | ErrorValue | InsufficientPrivilege | Unsupported

  datatype Code = NoError | Retry | Internal | NotAvailable

  // What the port library reports.
  datatype Reading = Failed(portError: Failure) | Read(sample: Sample)

  datatype Failure = Privilege | Support | Other

  datatype History = History(status: Status, oldest: Sample, interim: Sample, negativeCount: nat)

  datatype Answer = Answer(code: Code, load: Option<Load>)

  function StatusOf(failure: Failure): Status {
    match failure
    case Privilege => InsufficientPrivilege
    case Support => Unsupported
    case Other => ErrorValue
  }

  // A new record is measured against the interim record, and if that fails, against the
  // oldest one. The count goes up when the oldest record is in its future.
  function TakeSample(h: History, newest: Sample): History {
    var a, b := Measure(newest, h.interim), Measure(newest, h.oldest);
    var backwards := a != OK && b == ElapsedTimeNegative;
    var givenUp := backwards && h.negativeCount == MAXIMUM_NEGATIVE_COUNT;
    History(
      h.status,
      if a == OK then h.interim else if b == NegativeInterval || givenUp then newest else h.oldest,
      if a == OK || a == NegativeInterval then newest else h.interim,
      if a == OK then h.negativeCount else if backwards && !givenUp then h.negativeCount + 1 else 0)
  }

  function After(h: History, r: Reading): History {
    if h.status != NoHistory && h.status != Supported then h
    else if r.Failed? then h.(status := StatusOf(r.portError))
    else if h.status == NoHistory then h.(status := Supported, oldest := r.sample, interim := r.sample)
    else TakeSample(h, r.sample)
  }

  function Answered(kind: Kind, h: History, r: Reading): Answer {
    if (h.status != NoHistory && h.status != Supported) || r.Failed? then Answer(NotAvailable, None)
    else if h.status == NoHistory then Answer(Retry, None)
    else
      var a, b := Measure(r.sample, h.interim), Measure(r.sample, h.oldest);
      if a == OK then Answer(NoError, Some(LoadBetween(kind, r.sample, h.interim)))
      else if b == OK then Answer(NoError, Some(LoadBetween(kind, r.sample, h.oldest)))
      else Answer(if b == NegativeInterval then Internal else Retry, None)
  }

  // ---------- What every run keeps ----------

  predicate InTime(r: Reading) {
    r.Read? ==> r.sample.timestamp >= 0
  }

  predicate Ordered(h: History) {
    && h.negativeCount <= MAXIMUM_NEGATIVE_COUNT
    && (h.status == Supported ==>
          h.oldest.timestamp >= 0 && h.interim.timestamp >= 0
          && h.oldest.timestamp < h.interim.timestamp + MINIMUM_CPU_LOAD_INTERVAL)
  }

  // For timestamps that are not negative, the interval is the true difference.
  lemma MeasureIsTrue(end: Sample, start: Sample)
    requires end.timestamp >= 0 && start.timestamp >= 0
    ensures var delta := end.timestamp - start.timestamp;
            Measure(end, start) == if delta < 0 then ElapsedTimeNegative
                                   else if delta < MINIMUM_CPU_LOAD_INTERVAL then ElapsedTimeTooSmall
                                   else if end.cpuTime < start.cpuTime then NegativeInterval
                                   else OK
  {
    WrapNear(end.timestamp - start.timestamp);
  }

  lemma StepKeepsOrdered(h: History, r: Reading)
    requires Ordered(h) && InTime(r)
    ensures Ordered(After(h, r))
  {
    if h.status == Supported && r.Read? {
      MeasureIsTrue(r.sample, h.interim);
      MeasureIsTrue(r.sample, h.oldest);
    }
  }

  function Run(h: History, readings: seq<Reading>): History {
    if readings == [] then h
    else After(Run(h, readings[..|readings| - 1]), readings[|readings| - 1])
  }

  lemma {:induction false} RunsAreOrdered(h: History, readings: seq<Reading>)
    requires h.status == NoHistory && h.negativeCount == 0
    requires forall r <- readings :: InTime(r)
    ensures Ordered(Run(h, readings))
  {
    if readings != [] {
      RunsAreOrdered(h, readings[..|readings| - 1]);
      StepKeepsOrdered(Run(h, readings[..|readings| - 1]), readings[|readings| - 1]);
    }
  }

  predicate Spans(end: Sample, start: Sample) {
    end.timestamp - start.timestamp >= 10_000_000 && end.cpuTime >= start.cpuTime
  }

  // A load is written exactly when the call succeeds, and that is exactly when the new
  // sample is late enough after one of the records and its CPU time is not less.
  lemma AnsweredExactly(kind: Kind, h: History, newest: Sample)
    requires h.status == Supported && Ordered(h) && newest.timestamp >= 0
    ensures var answer := Answered(kind, h, Read(newest));
            && answer.load == (if Spans(newest, h.interim) then Some(LoadBetween(kind, newest, h.interim))
                               else if Spans(newest, h.oldest) then Some(LoadBetween(kind, newest, h.oldest))
                               else None)
            && (answer.code == NoError <==> Spans(newest, h.interim) || Spans(newest, h.oldest))
            && (answer.code == Internal <==>
                  (&& !Spans(newest, h.interim)
                   && newest.timestamp - h.oldest.timestamp >= MINIMUM_CPU_LOAD_INTERVAL && newest.cpuTime < h.oldest.cpuTime))
  {
    MeasureIsTrue(newest, h.interim);
    MeasureIsTrue(newest, h.oldest);
  }

  // An error of the port library is final.
  lemma {:induction false} FailuresAreFinal(kind: Kind, h: History, readings: seq<Reading>, r: Reading)
    requires h.status != NoHistory && h.status != Supported
    ensures Run(h, readings) == h && Answered(kind, Run(h, readings), r) == Answer(NotAvailable, None)
  {
    if readings != [] {
      FailuresAreFinal(kind, h, readings[..|readings| - 1], r);
    }
  }

  // So every call after one that could not be read fails.
  lemma NothingAfterFailure(kind: Kind, h: History, failure: Failure, readings: seq<Reading>, r: Reading)
    ensures Answered(kind, h, Failed(failure)) == Answer(NotAvailable, None)
    ensures Answered(kind, Run(After(h, Failed(failure)), readings), r) == Answer(NotAvailable, None)
  {
    FailuresAreFinal(kind, After(h, Failed(failure)), readings, r);
  }

  // ---------- A clock that jumps backwards ----------

  predicate Backwards(h: History, r: Reading) {
    && r.Read? && 0 <= r.sample.timestamp
    && r.sample.timestamp < h.oldest.timestamp && r.sample.timestamp < h.interim.timestamp
  }

  // Samples from before both records leave these alone until the count is used up,
  lemma {:induction false} BackwardSamples(kind: Kind, h: History, readings: seq<Reading>)
    requires h.status == Supported && Ordered(h)
    requires |readings| <= MAXIMUM_NEGATIVE_COUNT - h.negativeCount
    requires forall r <- readings :: Backwards(h, r)
    ensures Run(h, readings) == h.(negativeCount := h.negativeCount + |readings|)
    ensures forall i :: 0 <= i < |readings| ==> Answered(kind, Run(h, readings[..i]), readings[i]).code == Retry
  {
    if readings != [] {
      var n := |readings| - 1;
      BackwardSamples(kind, h, readings[..n]);
      assert Backwards(h, readings[n]);
      MeasureIsTrue(readings[n].sample, h.interim);
      MeasureIsTrue(readings[n].sample, h.oldest);
      forall i | 0 <= i < n
        ensures Answered(kind, Run(h, readings[..i]), readings[i]).code == Retry
      {
        assert readings[..n][..i] == readings[..i] && readings[..n][i] == readings[i];
      }
    }
  }

  // and the next one replaces the oldest record. From then on, the first sample that is
  // late enough after it and whose CPU time is not less is answered.
  lemma RecoversFromBackwardJump(kind: Kind, h: History, readings: seq<Reading>, last: Sample, next: Sample)
    requires h.status == Supported && Ordered(h)
    requires |readings| == 4 - h.negativeCount
    requires forall r <- readings :: Backwards(h, r)
    requires readings[|readings| - 1] == Read(last) && Spans(next, last)
    ensures Run(h, readings) == h.(oldest := last, negativeCount := 0)
    ensures Answered(kind, Run(h, readings), Read(next)).code == NoError
  {
    var n := |readings| - 1;
    BackwardSamples(kind, h, readings[..n]);
    assert readings[n] in readings;
    MeasureIsTrue(last, h.interim);
    MeasureIsTrue(last, h.oldest);
    StepKeepsOrdered(Run(h, readings[..n]), readings[n]);
    AnsweredExactly(kind, Run(h, readings), next);
  }

  // ---------- CPU times that jump backwards ----------

  // A sample that is late enough after the interim record, but with less CPU time, replaces
  // it, and the oldest record as well if it is late enough after that with less CPU time.
  // Either way, the next sample that spans the interval from it is answered by it.
  lemma RecoversFromLessCpuTime(kind: Kind, h: History, r: Sample, next: Sample)
    requires h.status == Supported && Ordered(h) && r.timestamp >= 0
    requires r.timestamp - h.interim.timestamp >= MINIMUM_CPU_LOAD_INTERVAL && r.cpuTime < h.interim.cpuTime
    requires Spans(next, r)
    ensures var after := TakeSample(h, r);
            && after.interim == r
            && after.oldest == (if r.timestamp - h.oldest.timestamp >= MINIMUM_CPU_LOAD_INTERVAL && r.cpuTime < h.oldest.cpuTime
                                then r else h.oldest)
            && after.negativeCount == 0
            && Answered(kind, after, Read(next)) == Answer(NoError, Some(LoadBetween(kind, next, r)))
  {
    MeasureIsTrue(r, h.interim);
    MeasureIsTrue(r, h.oldest);
    MeasureIsTrue(next, r);
  }

  // The samples from before the oldest record that have been counted: those that were not
  // late enough after the interim record, since the last other one of this kind.
  function Trailing(h: History, readings: seq<Reading>): nat {
    if readings == [] then 0
    else
      var before, r := readings[..|readings| - 1], readings[|readings| - 1];
      var s := Run(h, before);
      if s.status != Supported || r.Failed? || Measure(r.sample, s.interim) == OK then Trailing(h, before)
      else if Measure(r.sample, s.oldest) == ElapsedTimeNegative then Trailing(h, before) + 1
      else 0
  }

  lemma {:induction false} CountIsTrailing(h: History, readings: seq<Reading>)
    requires h.negativeCount == 0
    ensures Run(h, readings).negativeCount == Trailing(h, readings) % (MAXIMUM_NEGATIVE_COUNT + 1)
  {
    if readings != [] {
      CountIsTrailing(h, readings[..|readings| - 1]);
      NextModulo(Trailing(h, readings[..|readings| - 1]));
    }
  }

  lemma NextModulo(n: nat)
    ensures (n + 1) % (MAXIMUM_NEGATIVE_COUNT + 1)
         == var m := n % (MAXIMUM_NEGATIVE_COUNT + 1); if m == MAXIMUM_NEGATIVE_COUNT then 0 else m + 1
  {
  }

  // Successful samples in between do not reset the count: a sample from before the oldest
  // record may replace it although the call before it was answered.
  lemma CountIsNotConsecutive(kind: Kind)
    ensures exists h: History, good: Sample, bad: Sample ::
              && h.status == Supported && Ordered(h) && h.negativeCount == MAXIMUM_NEGATIVE_COUNT
              && Answered(kind, h, Read(good)).code == NoError
              && Measure(bad, TakeSample(h, good).oldest) == ElapsedTimeNegative
              && TakeSample(TakeSample(h, good), bad).oldest == bad
  {
    var start := Sample(MINIMUM_CPU_LOAD_INTERVAL, 0, 0, 1);
    var good := Sample(2 * MINIMUM_CPU_LOAD_INTERVAL, 0, 0, 1);
    var bad := Sample(0, 0, 0, 1);
    var h := History(Supported, start, start, MAXIMUM_NEGATIVE_COUNT);
    WrapNear(good.timestamp - start.timestamp);
    WrapNear(bad.timestamp - start.timestamp);
    WrapNear(bad.timestamp - good.timestamp);
    assert Answered(kind, h, Read(good)).code == NoError;
    assert TakeSample(TakeSample(h, good), bad).oldest == bad;
  }

  // ---------- A clock that runs steadily ----------

  predicate Steady(readings: seq<Reading>) {
    && (forall r <- readings :: r.Read? && InTime(r))
    && forall i :: 0 < i < |readings| ==> Spans(readings[i].sample, readings[i - 1].sample)
  }

  // The two records are the last two samples.
  lemma {:induction false} SteadySamplesAreKept(h: History, readings: seq<Reading>)
    requires h.status == NoHistory && Steady(readings) && readings != []
    ensures readings[|readings| - 1].Read? && readings[if |readings| == 1 then 0 else |readings| - 2].Read?
    ensures Run(h, readings) ==
            History(Supported, readings[if |readings| == 1 then 0 else |readings| - 2].sample,
                    readings[|readings| - 1].sample, h.negativeCount)
  {
    var n := |readings| - 1;
    assert readings[n] in readings;
    if n == 0 {
      assert readings[..0] == [];
    } else {
      SteadySamplesAreKept(h, readings[..n]);
      assert readings[n - 1] in readings;
      MeasureIsTrue(readings[n].sample, readings[n - 1].sample);
    }
  }

  // With steady samples, every call after the first gives the load since the last call.
  lemma SteadySamplesAreAnswered(kind: Kind, h: History, readings: seq<Reading>, previous: Sample, next: Sample)
    requires h.status == NoHistory && Steady(readings) && readings != []
    requires readings[|readings| - 1] == Read(previous) && Spans(next, previous)
    ensures Answered(kind, Run(h, readings), Read(next))
         == Answer(NoError, Some(LoadBetween(kind, next, previous)))
  {
    SteadySamplesAreKept(h, readings);
    assert InTime(readings[|readings| - 1]);
    MeasureIsTrue(next, previous);
  }
}
