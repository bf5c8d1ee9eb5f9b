/** A trace buffer, byte for byte, that the iterator reads without end. */
module TraceRedelivery {
  import opened TraceLayout
  import opened TraceBuffers
  import opened TraceFormatter
  import opened TraceWalk

  // The data of a trace point with id 1024, of a component named "A".
  function ExampleData(length: nat, isBigEndian: bool): (data: seq<byte>)
    requires 13 <= length <= MAX_TRC_LENGTH
    ensures |data| == length - 1
    ensures Classify(data, isBigEndian) == Deliverable
  {
    U32RoundTrip(1, isBigEndian);
    var data := [0, 4, 0, 0, 0, 0, 0] + EncodeU32(1, isBigEndian) + [65] + seq(length - 13, _ => 0);
    assert data[7..11] == EncodeU32(1, isBigEndian) && data[11..][0] == 65;
    data
  }

  function ExampleRecords(isBigEndian: bool): seq<Record> {
    [TracePoint(ExampleData(20, isBigEndian)), TracePoint(ExampleData(20, isBigEndian)), TracePoint(ExampleData(100, isBigEndian))]
  }

  function ExampleFrame(length: nat, isBigEndian: bool): (f: seq<byte>)
    requires 13 <= length <= MAX_TRC_LENGTH
    ensures |f| == length
  {
    ExampleData(length, isBigEndian) + [length as byte]
  }

  // A header of 65 bytes, and a data area of 120: the last 21 bytes of the newest record,
  // the whole of the one before, and the other 79 bytes of the newest.
  function ExampleBuffer(isBigEndian: bool): (record: seq<byte>)
    ensures |record| == 185
  {
    var newest := ExampleFrame(100, isBigEndian);
    seq(65, _ => 0) + newest[79..] + ExampleFrame(20, isBigEndian) + newest[..79]
  }

  lemma ExampleFrames(isBigEndian: bool)
    ensures forall r <- ExampleRecords(isBigEndian) :: r.Valid()
    ensures FramesOf(ExampleRecords(isBigEndian), isBigEndian)
         == [ExampleFrame(20, isBigEndian), ExampleFrame(20, isBigEndian), ExampleFrame(100, isBigEndian)]
  {
    var records := ExampleRecords(isBigEndian);
    assert records[..2][..1] == records[..1] && records[..1][..0] == [];
    assert FramesOf(records[..1], isBigEndian) == FramesOf([], isBigEndian) + records[0].Frames(isBigEndian);
    assert FramesOf(records[..2], isBigEndian) == FramesOf(records[..1], isBigEndian) + records[1].Frames(isBigEndian);
  }

  // It is what the writer leaves after the three records.
  lemma ExampleIsWritten(isBigEndian: bool)
    ensures forall r <- ExampleRecords(isBigEndian) :: r.Valid()
    ensures var stream := StreamOf(ExampleRecords(isBigEndian), isBigEndian);
            EndPosition(65, 185, |stream|) == 85 && Ring(ExampleBuffer(isBigEndian), 65, 85, stream)
  {
    ExampleFrames(isBigEndian);
    ExampleEnd();
    var older, newest := ExampleFrame(20, isBigEndian), ExampleFrame(100, isBigEndian);
    ExampleStream(older, older, newest);
    ExampleBytes(ExampleBuffer(isBigEndian), older, newest);
  }

  lemma ExampleEnd()
    ensures EndPosition(65, 185, 141) == 85
  {
    EndPositionWithin(65, 185, 21);
    EndPositionPeriod(65, 185, 21);
  }

  lemma ExampleBytes(mem: seq<byte>, older: seq<byte>, newest: seq<byte>)
    requires |older| == 20 && |newest| == 100
    requires mem == seq(65, _ => 0) + newest[79..] + older + newest[..79]
    ensures Ring(mem, 65, 85, [0] + (older + older + newest))
  {
    var stream := [0] + (older + older + newest);
    assert mem[65..] == newest[79..] + older + newest[..79];
    assert stream[21..] == older + newest;
    ExampleRing(mem, older, newest, stream);
  }

  lemma ExampleFits(isBigEndian: bool, charIsSigned: bool)
    ensures forall r <- ExampleRecords(isBigEndian) :: r.Valid()
    ensures FitsExactly(ExampleBuffer(isBigEndian), Layout(65, 85, 120, isBigEndian, charIsSigned),
                        FramesOf(ExampleRecords(isBigEndian), isBigEndian), 1)
  {
    ExampleIsWritten(isBigEndian);
    ExampleFrames(isBigEndian);
    var fs := FramesOf(ExampleRecords(isBigEndian), isBigEndian);
    FramesOfWellFramed(ExampleRecords(isBigEndian), isBigEndian);
    assert Tail(fs, 3) == 0 && Tail(fs, 2) == 100 && Tail(fs, 1) == 120;
  }

  lemma ExampleStream(f0: seq<byte>, f1: seq<byte>, f2: seq<byte>)
    ensures Concat([f0, f1, f2]) == f0 + f1 + f2
  {
    assert [f0, f1, f2][..2] == [f0, f1] && [f0, f1][..1] == [f0] && [f0][..0] == [];
    assert Concat([f0]) == f0;
    assert Concat([f0, f1]) == f0 + f1;
  }

  lemma ExampleRing(mem: seq<byte>, older: seq<byte>, newest: seq<byte>, stream: seq<byte>)
    requires |older| == 20 && |newest| == 100 && |mem| == 185 && |stream| == 141
    requires mem[65..] == newest[79..] + older + newest[..79]
    requires stream[21..] == older + newest
    ensures Ring(mem, 65, 85, stream)
  {
    var area, last := newest[79..] + older + newest[..79], older + newest;
    forall d: nat | d < 120 ensures ByteInPlace(mem, 65, 85, stream, d) {
      var position := Pos(65, 85, 120, d);
      assert mem[position] == area[position - 65] && stream[140 - d] == last[119 - d];
    }
  }

  function Repeated<T>(s: seq<T>, n: nat): seq<T> {
    if n == 0 then [] else s + Repeated(s, n - 1)
  }

  // Reading it back delivers the last two records over and over.
  lemma RedeliveryExample(isBigEndian: bool, charIsSigned: bool, upper: nat, n: nat)
    ensures var move := MoverOf(ExampleBuffer(isBigEndian), Layout(65, 85, 120, isBigEndian, charIsSigned));
            && Runs(move, Walker(85, false, 0, upper), 2 * n)
            && Shows(move, Walker(85, false, 0, upper), 2 * n)
               == Repeated([TracePointData(ExampleData(100, isBigEndian), upper),
                            TracePointData(ExampleData(20, isBigEndian), upper)], n)
  {
    ExampleFits(isBigEndian, charIsSigned);
    ExampleFrames(isBigEndian);
    var record, g := ExampleBuffer(isBigEndian), Layout(65, 85, 120, isBigEndian, charIsSigned);
    var fs := FramesOf(ExampleRecords(isBigEndian), isBigEndian);
    LongNewestIsCircular(record, g, fs, 1);
    NewestIsFoundAgain(record, g, fs, 1, upper);
    ExampleRounds(MoverOf(record, g), g, fs, upper, n);
  }

  lemma {:induction false} ExampleRounds(move: Mover, g: Layout, fs: seq<seq<byte>>, upper: nat, n: nat)
    requires Circular(move, g, fs, 1) && |fs| == 3
    requires fs[1] == ExampleFrame(20, g.isBigEndian) && fs[2] == ExampleFrame(100, g.isBigEndian)
    ensures var w := WalkerAt(g, fs, 3, upper);
            && Runs(move, w, 2 * n)
            && Shows(move, w, 2 * n)
               == Repeated([TracePointData(ExampleData(100, g.isBigEndian), upper),
                            TracePointData(ExampleData(20, g.isBigEndian), upper)], n)
  {
    if n > 0 {
      ExampleRounds(move, g, fs, upper, n - 1);
      ExampleRound(g, fs, upper);
      EveryRoundRepeats(move, g, fs, 1, upper, 2 * (n - 1));
    }
  }

  lemma ExampleRound(g: Layout, fs: seq<seq<byte>>, upper: nat)
    requires WellFramed(fs) && |fs| == 3
    requires fs[1] == ExampleFrame(20, g.isBigEndian) && fs[2] == ExampleFrame(100, g.isBigEndian)
    ensures PartUpper(g, fs, 1, 3, upper) == upper
    ensures PartShows(g, fs, 1, 3, upper)
         == [TracePointData(ExampleData(100, g.isBigEndian), upper), TracePointData(ExampleData(20, g.isBigEndian), upper)]
  {
    assert Data(fs[2]) == ExampleData(100, g.isBigEndian) && Data(fs[1]) == ExampleData(20, g.isBigEndian);
    assert PartShows(g, fs, 1, 1, upper) == [];
    assert PartShows(g, fs, 1, 2, upper) == [TracePointData(ExampleData(20, g.isBigEndian), upper)];
  }
}
