/** What reading a trace buffer back gives, in terms of the records that were written. */
module TraceDecoding {
  import opened TraceLayout
  import opened TraceBuffers
  import opened TraceFormatter
  import opened Wrappers

  // What one record is read back as, and the upper half of the time stamps before it.
  function Contribution(r: Record, upper: nat, isBigEndian: bool): seq<Delivery>
    requires r.Valid()
  {
    match r
    case SequenceWrap(_) => []
    case TracePoint(data) => Shown(data, upper, isBigEndian)
  }

  function UpperBefore(r: Record, upper: nat): nat {
    match r
    case SequenceWrap(word) => word * TWO_TO_THE_32
    case TracePoint(_) => upper
  }

  // Everything there is to deliver, newest record first.
  function NewestFirst(records: seq<Record>, upper: nat, isBigEndian: bool): seq<Delivery>
    requires forall r <- records :: r.Valid()
  {
    if records == [] then []
    else
      var newest := records[|records| - 1];
      Contribution(newest, upper, isBigEndian) + NewestFirst(records[..|records| - 1], UpperBefore(newest, upper), isBigEndian)
  }

  // ---------- Control records ----------

  lemma ClassifySequenceWrap(word: nat, isBigEndian: bool)
    requires word < TWO_TO_THE_32
    ensures var f := SequenceWrap(word).Frames(isBigEndian)[0];
            |f| == SEQ_WRAP_LENGTH && Classify(f[..7], isBigEndian) == UpperTimeWord(word)
  {
    var f := SequenceWrap(word).Frames(isBigEndian)[0];
    U32RoundTrip(word, isBigEndian);
    assert f[..7][3..7] == EncodeU32(word, isBigEndian);
  }

  // A long-record marker is taken for what it is unless the high byte of the length
  // is the id of the lost-records warning, which is tested first.
  lemma MarkerIsRecognized(high: byte, isBigEndian: bool)
    ensures Classify([0, 0, high], isBigEndian) == LongMarker(high) <==> high as nat != LOST_RECORDS_ID
    ensures high as nat == LOST_RECORDS_ID ==> Classify([0, 0, high], isBigEndian) == LostRecordsWarning
  {
  }

  // ---------- One record ----------

  // Going back over the frames of one record delivers what the record stands for,
  // unless the walk stops there.
  lemma StepOver(g: Layout, fs: seq<seq<byte>>, k: nat, r: Record, upper: nat)
    requires WellFramed(fs) && k <= |fs| && Unspoilt(g, fs, k) && r.Valid()
    requires |r.Frames(g.isBigEndian)| <= k && fs[k - |r.Frames(g.isBigEndian)|..k] == r.Frames(g.isBigEndian)
    ensures var k' := k - |r.Frames(g.isBigEndian)|;
            if Stops(g, fs, k) || (k' + 2 == k && Stops(g, fs, k - 1)) then
              Deliveries(g, fs, k, upper) == []
            else
              && Unspoilt(g, fs, k')
              && Deliveries(g, fs, k, upper)
                 == Contribution(r, upper, g.isBigEndian) + Deliveries(g, fs, k', UpperBefore(r, upper))
  {
    var own := r.Frames(g.isBigEndian);
    if !Stops(g, fs, k) {
      assert fs[k - 1] == own[|own| - 1];
      if r.SequenceWrap? {
        ClassifySequenceWrap(r.upper, g.isBigEndian);
      } else if |own| == 1 {
        StepOverData(g, fs, k, r.data, upper);
      } else {
        assert fs[k - 2] == own[0];
        StepOverLong(g, fs, k, r.data, upper);
      }
    }
  }

  lemma StepOverLong(g: Layout, fs: seq<seq<byte>>, k: nat, data: seq<byte>, upper: nat)
    requires WellFramed(fs) && 1 < k <= |fs| && !Stops(g, fs, k) && Unspoilt(g, fs, k)
    requires |fs[k - 1]| == EXTENDED_LENGTH && fs[k - 1][0] == 0 && fs[k - 1][1] == 0
    requires |fs[k - 2]| == |data| + 1 && data <= fs[k - 2] && TracePoint(data).Valid()
    ensures if Stops(g, fs, k - 1) then Deliveries(g, fs, k, upper) == []
            else
              && Unspoilt(g, fs, k - 2)
              && Deliveries(g, fs, k, upper)
                 == Contribution(TracePoint(data), upper, g.isBigEndian) + Deliveries(g, fs, k - 2, upper)
  {
    StepOverMarker(g, fs, k, upper);
    if !Stops(g, fs, k - 1) {
      assert FrameOk(fs, k - 2);
      StepOverData(g, fs, k - 1, data, upper);
    }
  }

  lemma StepOverData(g: Layout, fs: seq<seq<byte>>, k: nat, data: seq<byte>, upper: nat)
    requires WellFramed(fs) && 0 < k <= |fs| && !Stops(g, fs, k)
    requires |fs[k - 1]| == |data| + 1 && data <= fs[k - 1] && TracePoint(data).Valid()
    ensures Deliveries(g, fs, k, upper)
         == Contribution(TracePoint(data), upper, g.isBigEndian) + Deliveries(g, fs, k - 1, upper)
  {
    assert fs[k - 1][..|data|] == data;
  }

  lemma StepOverMarker(g: Layout, fs: seq<seq<byte>>, k: nat, upper: nat)
    requires WellFramed(fs) && 0 < k <= |fs| && Unspoilt(g, fs, k) && !Stops(g, fs, k)
    requires |fs[k - 1]| == EXTENDED_LENGTH && fs[k - 1][0] == 0 && fs[k - 1][1] == 0
    ensures Deliveries(g, fs, k, upper) == Deliveries(g, fs, k - 1, upper)
  {
    MarkerIsRecognized(fs[k - 1][2], g.isBigEndian);
    assert fs[k - 1][..3] == [0, 0, fs[k - 1][2]];
  }

  lemma LastRecordFrames(fs: seq<seq<byte>>, k: nat, records: seq<Record>, isBigEndian: bool)
    requires records != [] && forall r <- records :: r.Valid()
    requires k <= |fs| && fs[..k] == FramesOf(records, isBigEndian)
    ensures var own := records[|records| - 1].Frames(isBigEndian);
            && 1 <= |own| <= k && fs[k - |own|..k] == own && fs[k - 1] == own[|own| - 1]
            && (|own| == 2 ==> fs[k - 2] == own[0])
            && fs[..k - |own|] == FramesOf(records[..|records| - 1], isBigEndian)
  {
    var own := records[|records| - 1].Frames(isBigEndian);
    var older := FramesOf(records[..|records| - 1], isBigEndian);
    assert fs[..k] == older + own;
    assert k == |older| + |own|;
    assert fs[..|older|] == fs[..k][..|older|];
    assert fs[|older|..k] == fs[..k][|older|..];
  }

  // Going back over the newest of the records.
  lemma StepOverNewest(g: Layout, fs: seq<seq<byte>>, k: nat, records: seq<Record>, upper: nat)
    requires WellFramed(fs) && k <= |fs| && Unspoilt(g, fs, k) && records != []
    requires (forall r <- records :: r.Valid()) && fs[..k] == FramesOf(records, g.isBigEndian)
    ensures var n := |records| - 1;
            var own := records[n].Frames(g.isBigEndian);
            var k' := k - |own|;
            && 0 <= k' && fs[..k'] == FramesOf(records[..n], g.isBigEndian)
            && fs[k - 1] == own[|own| - 1] && (|own| == 2 ==> fs[k - 2] == own[0])
            && if Stops(g, fs, k) || (k' + 2 == k && Stops(g, fs, k - 1)) then
                 Deliveries(g, fs, k, upper) == []
               else
                 && Unspoilt(g, fs, k')
                 && Deliveries(g, fs, k, upper)
                    == Contribution(records[n], upper, g.isBigEndian)
                       + Deliveries(g, fs, k', UpperBefore(records[n], upper))
  {
    LastRecordFrames(fs, k, records, g.isBigEndian);
    assert records[|records| - 1] in records;
    StepOver(g, fs, k, records[|records| - 1], upper);
  }

  // ---------- Soundness ----------

  // Whatever the walk back from the frames of `records` delivers down to its stop is a prefix
  // of these records, newest first.
  lemma {:induction false} DeliveriesArePrefix(g: Layout, fs: seq<seq<byte>>, k: nat, records: seq<Record>, upper: nat)
    requires WellFramed(fs) && k <= |fs| && Unspoilt(g, fs, k)
    requires (forall r <- records :: r.Valid()) && fs[..k] == FramesOf(records, g.isBigEndian)
    ensures Deliveries(g, fs, k, upper) <= NewestFirst(records, upper, g.isBigEndian)
    decreases |records|
  {
    if records != [] {
      var n := |records| - 1;
      StepOverNewest(g, fs, k, records, upper);
      if Deliveries(g, fs, k, upper) != [] {
        var k' := k - |records[n].Frames(g.isBigEndian)|;
        DeliveriesArePrefix(g, fs, k', records[..n], UpperBefore(records[n], upper));
        PrefixBehind(Contribution(records[n], upper, g.isBigEndian),
                     Deliveries(g, fs, k', UpperBefore(records[n], upper)),
                     NewestFirst(records[..n], UpperBefore(records[n], upper), g.isBigEndian));
      }
    }
  }

  lemma PrefixBehind(first: seq<Delivery>, some: seq<Delivery>, all: seq<Delivery>)
    requires some <= all
    ensures first + some <= first + all
  {
  }

  // ---------- Completeness ----------

  // No record is long enough for its length to be spoilt by a signed `char`.
  predicate LengthsSurvive(records: seq<Record>, charIsSigned: bool) {
    charIsSigned ==> forall r <- records :: r.TracePoint? ==> |r.data| + 1 < 0x8000
  }

  // While the writer has not wrapped, nothing is left out.
  lemma {:induction false} DeliveriesAreComplete(g: Layout, fs: seq<seq<byte>>, k: nat, records: seq<Record>, upper: nat)
    requires WellFramed(fs) && k <= |fs| && Unspoilt(g, fs, k)
    requires (forall r <- records :: r.Valid()) && fs[..k] == FramesOf(records, g.isBigEndian)
    requires LengthsSurvive(records, g.charIsSigned)
    requires g.start <= g.end && g.end - g.start < g.size && g.end - g.start == |Concat(fs)|
    ensures Deliveries(g, fs, k, upper) == NewestFirst(records, upper, g.isBigEndian)
    decreases |records|
  {
    if records != [] {
      var n := |records| - 1;
      StepOverNewest(g, fs, k, records, upper);
      NewestIsNotStopped(g, fs, k, records);
      DeliveriesAreComplete(g, fs, k - |records[n].Frames(g.isBigEndian)|, records[..n], UpperBefore(records[n], upper));
    }
  }

  lemma NewestIsNotStopped(g: Layout, fs: seq<seq<byte>>, k: nat, records: seq<Record>)
    requires WellFramed(fs) && k <= |fs| && records != []
    requires (forall r <- records :: r.Valid()) && LengthsSurvive(records, g.charIsSigned)
    requires var own := records[|records| - 1].Frames(g.isBigEndian);
             |own| <= k && fs[k - 1] == own[|own| - 1] && (|own| == 2 ==> fs[k - 2] == own[0])
    requires g.start <= g.end && g.end - g.start < g.size && g.end - g.start == |Concat(fs)|
    ensures !Stops(g, fs, k) && (|records[|records| - 1].Frames(g.isBigEndian)| == 2 ==> !Stops(g, fs, k - 1))
  {
    assert records[|records| - 1] in records;
    NotStopped(g, fs, k);
    if |records[|records| - 1].Frames(g.isBigEndian)| == 2 {
      NotStopped(g, fs, k - 1);
    }
  }

  lemma NotStopped(g: Layout, fs: seq<seq<byte>>, k: nat)
    requires 0 < k <= |fs| && WellFramed(fs)
    requires g.start <= g.end && g.end - g.start < g.size && g.end - g.start == |Concat(fs)|
    requires g.charIsSigned ==> |fs[k - 1]| < 0x8000
    ensures !Stops(g, fs, k)
  {
    assert FrameOk(fs, k - 1);
    FrameByte(fs, k, 0);
  }

  // ---------- When the walk is guarded ----------

  // Records that are no longer than the offset of the first entry, and need no marker,
  // can always be read back.
  lemma {:induction false} ShortRecordsAreGuarded(g: Layout, fs: seq<seq<byte>>, k: nat)
    requires WellFramed(fs) && k <= |fs| && Tail(fs, k) <= g.size
    requires g.start <= g.end && (k < |fs| ==> g.start < g.end)
    requires forall f <- fs :: |f| <= MAX_TRC_LENGTH && |f| <= g.start + 1
    ensures Guarded(g, fs, k)
    decreases k
  {
    if !Stops(g, fs, k) {
      assert FrameOk(fs, k - 1);
      ShortRecordsAreGuarded(g, fs, k - 1);
    } else {
      if k > 0 {
        assert FrameOk(fs, k - 1) && fs[k - 1] in fs;
      }
      if k < |fs| {
        assert FrameOk(fs, k);
      }
      if fs != [] {
        assert FrameOk(fs, |fs| - 1) && fs[|fs| - 1] in fs;
      }
    }
  }

  // Before the writer wraps, only a marker that looks like lost records can mislead.
  lemma {:induction false} UnwrappedIsGuarded(g: Layout, fs: seq<seq<byte>>, k: nat)
    requires WellFramed(fs) && k <= |fs|
    requires g.start <= g.end && g.end - g.start < g.size && g.end - g.start == |Concat(fs)|
    requires forall f <- fs :: |f| == EXTENDED_LENGTH ==> f[2] as nat != LOST_RECORDS_ID
    ensures Guarded(g, fs, k)
    decreases k
  {
    ConcatTail(fs, k);
    if !Stops(g, fs, k) {
      assert FrameOk(fs, k - 1) && fs[k - 1] in fs;
      UnwrappedIsGuarded(g, fs, k - 1);
    }
  }

  // Past the wrap, where the next older record is no longer intact, the iterator
  // notices exactly when the length it reads does not exceed the position it reads
  // it from: the 32-bit subtraction of the two must not underflow.
  lemma OverwrittenIsNoticed(record: seq<byte>, g: Layout, fs: seq<seq<byte>>, k: nat)
    requires Holds(record, g, fs) && k <= |fs| && g.start < g.end
    requires g.end - g.start + 1 < Tail(fs, k) <= g.size
    requires k == 0 || Tail(fs, k) + |fs[k - 1]| > g.size
    requires 0 < LengthRead(g, fs, k) <= g.size && LengthRead(g, fs, k) <= MAX_EXTENDED_LENGTH
    ensures var position := Pos(g.start, g.end, g.size, Tail(fs, k));
            && InBounds(record, g, position, true, PendingHigh(g, fs, k))
            && (Locate(record, g, position, true, PendingHigh(g, fs, k)) == Nothing
                <==> LengthRead(g, fs, k) <= position)
  {
    LengthByte(record, g, fs, k);
    if k > 0 && Tail(fs, k) < g.size {
      LengthReadOfIntact(g, fs, k);
    }
  }
}
