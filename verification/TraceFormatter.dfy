/** The iterator that reads the trace points of one circular buffer, newest first
    (omrtraceformatter.cpp).  Instead of the text printed for a trace point, the
    model hands out the bytes the text is made from, and the upper half of the time
    stamp that goes with them. */
module TraceFormatter {
  import opened TraceLayout
  import opened TraceEntries
  import opened TraceBuffers
  import opened Wrappers

  datatype Delivery =
    | LostRecords
    | TracePointData(data: seq<byte>, upperTimeWord: nat)

  const LOST_RECORDS_ID: nat := 0x10
  const CONTEXT_ID: nat := 0x103
  const INTERNAL_COMPONENT: seq<byte> :=
    [73, 78, 84, 69, 82, 78, 65, 76, 84, 82, 65, 67, 69, 67, 79, 77, 80, 79, 78, 69, 78, 84] // INTERNALTRACECOMPONENT

  // ---------- 32-bit unsigned arithmetic ----------

  function Sub32(x: nat, y: nat): (r: nat)
    requires x < TWO_TO_THE_32 && y < TWO_TO_THE_32
    ensures r < TWO_TO_THE_32
  {
    if y <= x then x - y else TWO_TO_THE_32 + x - y
  }

  // Shifting a byte, or a sign-extended byte, left by eight bits.
  function ShiftLeft8(x: nat): (r: nat)
    requires x < 0x100_0000 || 0xFF00_0000 <= x < TWO_TO_THE_32
    ensures r == x * 256 % TWO_TO_THE_32
  {
    if x < 0x100_0000 then x * 256 else (x - 0xFF00_0000) * 256
  }

  // A byte that passes through a plain `char` on its way to 32 bits.
  function ThroughChar(b: byte, charIsSigned: bool): (r: nat)
    ensures r < 256 || TWO_TO_THE_32 - 128 <= r < TWO_TO_THE_32
  {
    if charIsSigned && b >= 128 then TWO_TO_THE_32 - 256 + b as nat else b as nat
  }

  // ---------- What one run of data bytes stands for ----------

  datatype Kind = LostRecordsWarning | UpperTimeWord(word: nat) | LongMarker(high: byte) | Skipped | Deliverable

  function TraceId(data: seq<byte>): nat
    requires |data| >= 3
  {
    (data[0] as nat * 0x1_0000 + data[1] as nat * 0x100 + data[2] as nat) % 0x4000
  }

  predicate IsInternal(name: seq<byte>) {
    INTERNAL_COMPONENT <= name
  }

  function Classify(data: seq<byte>, isBigEndian: bool): Kind
    requires |data| == 3 || |data| == 7 || |data| >= 11
  {
    var tpLength := |data| + 1;
    var traceId := TraceId(data);
    if traceId == LOST_RECORDS_ID then LostRecordsWarning
    else if traceId == 0 && tpLength == SEQ_WRAP_LENGTH then UpperTimeWord(U32(data[3..7], isBigEndian))
    else if tpLength == EXTENDED_LENGTH then LongMarker(data[2])
    else if tpLength == SEQ_WRAP_LENGTH then Skipped
    else
      var nameLength := U32(data[7..11], isBigEndian);
      if nameLength == 0 || nameLength > tpLength - 12 then Skipped
      else if IsInternal(data[11..]) then
        if traceId == CONTEXT_ID then Skipped else Deliverable
      else if traceId <= 256 then Skipped
      else Deliverable
  }

  // What is delivered for them.
  function Shown(data: seq<byte>, upper: nat, isBigEndian: bool): seq<Delivery>
    requires FrameLength(|data| + 1)
  {
    match Classify(data, isBigEndian)
    case LostRecordsWarning => [LostRecords]
    case Deliverable => [TracePointData(data, upper)]
    case _ => []
  }

  // ---------- The walk, stated on the frames that were written ----------

  datatype Layout = Layout(start: nat, end: nat, size: nat, isBigEndian: bool, charIsSigned: bool)

  // The high byte left behind by the marker at index `k`, if there is one.
  function PendingHigh(g: Layout, fs: seq<seq<byte>>, k: nat): nat {
    if k < |fs| && |fs[k]| == EXTENDED_LENGTH then ThroughChar(fs[k][2], g.charIsSigned) else 0
  }

  // The walk goes no further than frame `k`: there is no older frame, its length
  // byte is at the first entry or would be just before it, it is no longer intact,
  // or its length has been spoilt by a signed `char`.
  predicate Stops(g: Layout, fs: seq<seq<byte>>, k: nat)
    requires k <= |fs|
  {
    var consumed := Tail(fs, k);
    || k == 0
    || consumed == g.end - g.start
    || consumed == g.end - g.start + 1
    || consumed + |fs[k - 1]| > g.size
    || (g.charIsSigned && |fs[k - 1]| >= 0x8000)
  }

  ghost function Deliveries(g: Layout, fs: seq<seq<byte>>, k: nat, upper: nat): seq<Delivery>
    requires k <= |fs| && WellFramed(fs)
    decreases k
  {
    if Stops(g, fs, k) then []
    else
      assert FrameOk(fs, k - 1);
      Interpret(g, fs, k, upper)
  }

  // What frame `k - 1` contributes, followed by what the older frames contribute.
  ghost function Interpret(g: Layout, fs: seq<seq<byte>>, k: nat, upper: nat): seq<Delivery>
    requires 0 < k <= |fs| && WellFramed(fs) && FrameLength(|fs[k - 1]|)
    decreases k, 0
  {
    var data := fs[k - 1][..|fs[k - 1]| - 1];
    match Classify(data, g.isBigEndian)
    case LostRecordsWarning => [LostRecords] + Deliveries(g, fs, k - 1, upper)
    case UpperTimeWord(word) => Deliveries(g, fs, k - 1, word * TWO_TO_THE_32)
    case LongMarker(_) => Deliveries(g, fs, k - 1, upper)
    case Skipped => Deliveries(g, fs, k - 1, upper)
    case Deliverable => [TracePointData(data, upper)] + Deliveries(g, fs, k - 1, upper)
  }

  function LastByte(f: seq<byte>): nat {
    if f == [] then 0 else f[|f| - 1] as nat
  }

  // The length the iterator computes when it has gone back over the frames from `k` on.
  function LengthRead(g: Layout, fs: seq<seq<byte>>, k: nat): nat
    requires k <= |fs|
  {
    var lengthByte :=
      if k > 0 && Tail(fs, k) < g.size then LastByte(fs[k - 1])
      else if fs != [] then LastByte(fs[|fs| - 1])
      else 0;
    lengthByte + ShiftLeft8(PendingHigh(g, fs, k))
  }

  // Where the walk ends past the wrap, the length that is read there does not exceed
  // the position it is read from.
  predicate TerminalGuard(g: Layout, fs: seq<seq<byte>>, k: nat)
    requires k <= |fs|
  {
    var consumed := Tail(fs, k);
    && consumed <= g.size
    && (consumed > g.end - g.start + 1 ==>
          || LengthRead(g, fs, k) == 0
          || LengthRead(g, fs, k) > MAX_EXTENDED_LENGTH
          || LengthRead(g, fs, k) <= Pos(g.start, g.end, g.size, consumed))
  }

  // What the walk back from frame `k` needs in order to be sound: the guard above
  // where it ends, and no marker on the way whose high byte is the lost-records id.
  predicate Guarded(g: Layout, fs: seq<seq<byte>>, k: nat)
    requires k <= |fs|
    decreases k
  {
    if Stops(g, fs, k) then TerminalGuard(g, fs, k)
    else
      && (|fs[k - 1]| == EXTENDED_LENGTH ==> fs[k - 1][2] as nat != LOST_RECORDS_ID)
      && Guarded(g, fs, k - 1)
  }

  // No marker on the way is taken for lost records.
  predicate Unspoilt(g: Layout, fs: seq<seq<byte>>, k: nat)
    requires k <= |fs|
    decreases k
  {
    Stops(g, fs, k) || (
      && (|fs[k - 1]| == EXTENDED_LENGTH ==> fs[k - 1][2] as nat != LOST_RECORDS_ID)
      && Unspoilt(g, fs, k - 1))
  }

  lemma {:induction false} GuardedIsUnspoilt(g: Layout, fs: seq<seq<byte>>, k: nat)
    requires k <= |fs| && Guarded(g, fs, k)
    ensures Unspoilt(g, fs, k)
    decreases k
  {
    if !Stops(g, fs, k) {
      GuardedIsUnspoilt(g, fs, k - 1);
    }
  }

  ghost predicate Holds(record: seq<byte>, g: Layout, fs: seq<seq<byte>>) {
    && WellFramed(fs)
    && |record| == g.start + g.size < 0x8000_0000
    && Ring(record, g.start, g.end, [0] + Concat(fs))
    && forall f <- fs :: |f| <= g.size
  }

  lemma LengthReadOfIntact(g: Layout, fs: seq<seq<byte>>, k: nat)
    requires 0 < k <= |fs| && WellFramed(fs) && Tail(fs, k) < g.size
    ensures var length := |fs[k - 1]|;
            if g.charIsSigned && length >= 0x8000 then LengthRead(g, fs, k) > MAX_EXTENDED_LENGTH
            else LengthRead(g, fs, k) == length
  {
    assert FrameOk(fs, k - 1);
    if k < |fs| {
      assert FrameOk(fs, k);
    }
  }

  // The byte under the iterator is the length byte the walk expects: that of the
  // frame before, or, one full turn back, that of the newest frame.
  lemma LengthByte(record: seq<byte>, g: Layout, fs: seq<seq<byte>>, k: nat)
    requires Holds(record, g, fs) && k <= |fs| && Tail(fs, k) <= g.size && g.start < g.end
    requires Tail(fs, k) != g.end - g.start && Tail(fs, k) != g.end - g.start + 1
    ensures g.start < Pos(g.start, g.end, g.size, Tail(fs, k)) < |record|
    ensures record[Pos(g.start, g.end, g.size, Tail(fs, k))] as nat + ShiftLeft8(PendingHigh(g, fs, k)) == LengthRead(g, fs, k)
    ensures k == 0 ==> Tail(fs, k) == g.size
  {
    NewestByte(record, g, fs);
    if k == 0 {
      ConcatTail(fs, 0);
      assert fs[..0] == [];
    } else if Tail(fs, k) < g.size {
      IntactByte(record, g, fs, k);
    }
  }

  lemma IntactByte(record: seq<byte>, g: Layout, fs: seq<seq<byte>>, k: nat)
    requires Holds(record, g, fs) && 0 < k <= |fs| && Tail(fs, k) < g.size
    ensures 0 <= Pos(g.start, g.end, g.size, Tail(fs, k)) < |record|
    ensures record[Pos(g.start, g.end, g.size, Tail(fs, k))] as nat == LastByte(fs[k - 1])
  {
    assert FrameOk(fs, k - 1);
    FrameByte(fs, k, |fs[k - 1]| - 1);
    assert ByteInPlace(record, g.start, g.end, [0] + Concat(fs), Tail(fs, k));
  }

  lemma NewestByte(record: seq<byte>, g: Layout, fs: seq<seq<byte>>)
    requires Holds(record, g, fs) && g.start < g.end
    ensures fs != [] && g.end < |record| && record[g.end] as nat == LastByte(fs[|fs| - 1])
  {
    IntactByte(record, g, fs, |fs|);
  }

  // The data bytes of an intact frame that does not cross the end of the buffer ...
  lemma ContiguousFrame(record: seq<byte>, g: Layout, fs: seq<seq<byte>>, k: nat)
    requires Holds(record, g, fs) && 0 < k <= |fs|
    requires Tail(fs, k) + |fs[k - 1]| <= g.size
    requires Tail(fs, k) > g.end - g.start || Tail(fs, k) + |fs[k - 1]| <= g.end - g.start + 1
    requires FrameLength(|fs[k - 1]|)
    ensures var offset, length := Pos(g.start, g.end, g.size, Tail(fs, k)), |fs[k - 1]|;
            g.start <= offset - length + 1 && offset < |record|
            && record[offset - length + 1..offset] == fs[k - 1][..length - 1]
  {
    var consumed, length := Tail(fs, k), |fs[k - 1]|;
    var offset := Pos(g.start, g.end, g.size, consumed);
    var slice := record[offset - length + 1..offset];
    forall j: nat | j < length - 1
      ensures slice[j] == fs[k - 1][j]
    {
      FrameByte(fs, k, j);
      assert ByteInPlace(record, g.start, g.end, [0] + Concat(fs), consumed + length - 1 - j);
    }
  }

  // ... and of one that does: its head is at the end of the buffer, its rest from
  // the first entry on.
  lemma WrappedFrame(record: seq<byte>, g: Layout, fs: seq<seq<byte>>, k: nat)
    requires Holds(record, g, fs) && 0 < k <= |fs|
    requires Tail(fs, k) <= g.end - g.start
    requires g.end - g.start + 1 < Tail(fs, k) + |fs[k - 1]| <= g.size
    requires FrameLength(|fs[k - 1]|)
    ensures var slot, offset := g.end - (Tail(fs, k) + |fs[k - 1]|) + g.size, g.end - Tail(fs, k);
            g.end <= slot && slot + 1 < |record|
            && record[slot + 1..] + record[g.start..offset] == fs[k - 1][..|fs[k - 1]| - 1]
  {
    var consumed, length := Tail(fs, k), |fs[k - 1]|;
    var slot, offset := g.end - (consumed + length) + g.size, g.end - consumed;
    var joined := record[slot + 1..] + record[g.start..offset];
    assert |joined| == length - 1;
    forall j: nat | j < length - 1
      ensures joined[j] == fs[k - 1][j]
    {
      FrameByte(fs, k, j);
      assert ByteInPlace(record, g.start, g.end, [0] + Concat(fs), consumed + length - 1 - j);
    }
  }

  lemma StepBack(g: Layout, fs: seq<seq<byte>>, k: nat)
    requires k <= |fs| && WellFramed(fs) && Guarded(g, fs, k) && !Stops(g, fs, k)
    ensures k > 0 && FrameLength(|fs[k - 1]|)
    ensures Tail(fs, k - 1) == Tail(fs, k) + |fs[k - 1]| <= g.size
    ensures Guarded(g, fs, k - 1)
    ensures |fs[k - 1]| == EXTENDED_LENGTH ==> fs[k - 1][2] as nat != LOST_RECORDS_ID
  {
    assert FrameOk(fs, k - 1);
  }

  // What the checks before the parsing of a trace point leave: the iterator is at an
  // intact frame, or at one that has to be taken from both ends of the buffer.
  lemma AfterChecks(record: seq<byte>, g: Layout, fs: seq<seq<byte>>, k: nat)
    requires Holds(record, g, fs) && k <= |fs| && Tail(fs, k) <= g.size && g.start < g.end
    requires Stops(g, fs, k) ==> TerminalGuard(g, fs, k)
    requires Tail(fs, k) != g.end - g.start && Tail(fs, k) != g.end - g.start + 1
    ensures var consumed := Tail(fs, k);
            var offset, length := Pos(g.start, g.end, g.size, consumed), LengthRead(g, fs, k);
            && (length == 0 || length > MAX_EXTENDED_LENGTH ==> Stops(g, fs, k))
            && (0 < length <= MAX_EXTENDED_LENGTH ==>
                  && 0 <= offset < TWO_TO_THE_32
                  && (consumed > g.end - g.start && Sub32(offset, length) < g.end ==> Stops(g, fs, k))
                  && (consumed < g.end - g.start || Sub32(offset, length) >= g.end ==>
                        && k > 0 && length == |fs[k - 1]|
                        && !(g.charIsSigned && length >= 0x8000)
                        && (consumed > g.end - g.start ==> !Stops(g, fs, k) && offset - length >= g.end)))
  {
    LengthByte(record, g, fs, k);
    if k > 0 {
      assert FrameOk(fs, k - 1);
    }
    if Tail(fs, k) < g.size {
      LengthReadOfIntact(g, fs, k);
    }
  }

  // ---------- Finding the next trace point ----------

  datatype Located =
    | Nothing
    | Found(data: seq<byte>, position: nat, hasWrapped: bool)

  // The length of the trace point whose length byte is at `offset`.
  function TracePointLength(record: seq<byte>, offset: nat, longLength: nat): nat
    requires offset < |record|
    requires longLength < 0x100_0000 || 0xFF00_0000 <= longLength < TWO_TO_THE_32
  {
    record[offset] as nat + ShiftLeft8(longLength)
  }

  // No access outside the buffer: what a trace point takes from the end of the
  // buffer is there.
  predicate InBounds(record: seq<byte>, g: Layout, position: nat, hasWrapped: bool, longLength: nat) {
    && 1 <= g.start <= g.end && |record| == g.start + g.size < 0x8000_0000
    && (longLength < 0x100_0000 || 0xFF00_0000 <= longLength < TWO_TO_THE_32)
    && (position > g.start ==>
          && position < |record|
          && var tpLength := TracePointLength(record, position, longLength);
             (tpLength <= MAX_EXTENDED_LENGTH && !(hasWrapped && Sub32(position, tpLength) < g.end)) ==>
               tpLength <= |record| + position - g.start)
  }

  // The control flow of omr_trc_formatNextTracePoint up to the parsing.
  function Locate(record: seq<byte>, g: Layout, position: nat, hasWrapped: bool, longLength: nat): Located
    requires InBounds(record, g, position, hasWrapped, longLength)
  {
    if position <= g.start then Nothing
    else
      var tpLength := TracePointLength(record, position, longLength);
      if tpLength == 0 || tpLength > MAX_EXTENDED_LENGTH then Nothing
      else if hasWrapped && Sub32(position, tpLength) < g.end then Nothing
      else if tpLength > position || position - tpLength + 1 < g.start then
        var slot := |record| - (tpLength - (position - g.start));
        if slot < g.end then Nothing
        else Found(record[slot + 1..] + record[g.start..position], slot, true)
      else Found(record[position - tpLength + 1..position], position - tpLength, hasWrapped)
  }

  // The position and the wrap flag once the frames from `k` on have been visited.
  function PositionAt(g: Layout, consumed: nat): int {
    if consumed == g.end - g.start + 1 then g.start - 1 else Pos(g.start, g.end, g.size, consumed)
  }

  // The iterator stands at the length byte of frame `k - 1`.
  ghost predicate OnFrame(g: Layout, fs: seq<seq<byte>>, k: nat, position: nat, hasWrapped: bool) {
    && k <= |fs|
    && Tail(fs, k) <= g.size
    && (Tail(fs, k) > 0 ==> g.start < g.end)
    && (hasWrapped <==> Tail(fs, k) > g.end - g.start + 1)
    && position == PositionAt(g, Tail(fs, k))
  }

  ghost predicate AtFrame(g: Layout, fs: seq<seq<byte>>, k: nat, position: nat, hasWrapped: bool) {
    OnFrame(g, fs, k, position, hasWrapped) && Guarded(g, fs, k)
  }

  // From the place of one frame, the iterator finds the next older one byte for byte,
  // and nothing exactly when the walk stops.
  lemma LocateFrame(record: seq<byte>, g: Layout, fs: seq<seq<byte>>, k: nat, position: nat, hasWrapped: bool)
    requires Holds(record, g, fs) && AtFrame(g, fs, k, position, hasWrapped)
    ensures InBounds(record, g, position, hasWrapped, PendingHigh(g, fs, k))
    ensures var l := Locate(record, g, position, hasWrapped, PendingHigh(g, fs, k));
            if Stops(g, fs, k) then l == Nothing
            else
              && FrameLength(|fs[k - 1]|)
              && l.Found? && l.data == fs[k - 1][..|fs[k - 1]| - 1]
              && AtFrame(g, fs, k - 1, l.position, l.hasWrapped)
  {
    LocateInBounds(record, g, fs, k, position, hasWrapped);
    if Stops(g, fs, k) {
      LocateStops(record, g, fs, k, position, hasWrapped);
    } else {
      LocateFinds(record, g, fs, k, position, hasWrapped);
      StepBack(g, fs, k);
    }
  }

  lemma LocateInBounds(record: seq<byte>, g: Layout, fs: seq<seq<byte>>, k: nat, position: nat, hasWrapped: bool)
    requires Holds(record, g, fs) && OnFrame(g, fs, k, position, hasWrapped)
    requires Stops(g, fs, k) ==> TerminalGuard(g, fs, k)
    ensures InBounds(record, g, position, hasWrapped, PendingHigh(g, fs, k))
  {
    var consumed := Tail(fs, k);
    if consumed != g.end - g.start && consumed != g.end - g.start + 1 {
      LengthByte(record, g, fs, k);
      AfterChecks(record, g, fs, k);
    }
  }

  lemma LocateStops(record: seq<byte>, g: Layout, fs: seq<seq<byte>>, k: nat, position: nat, hasWrapped: bool)
    requires Holds(record, g, fs) && OnFrame(g, fs, k, position, hasWrapped)
    requires Stops(g, fs, k) && TerminalGuard(g, fs, k)
    requires InBounds(record, g, position, hasWrapped, PendingHigh(g, fs, k))
    ensures Locate(record, g, position, hasWrapped, PendingHigh(g, fs, k)) == Nothing
  {
    var consumed := Tail(fs, k);
    if consumed != g.end - g.start && consumed != g.end - g.start + 1 {
      LengthByte(record, g, fs, k);
      AfterChecks(record, g, fs, k);
    }
  }

  lemma LocateFinds(record: seq<byte>, g: Layout, fs: seq<seq<byte>>, k: nat, position: nat, hasWrapped: bool)
    requires Holds(record, g, fs) && OnFrame(g, fs, k, position, hasWrapped) && !Stops(g, fs, k)
    requires InBounds(record, g, position, hasWrapped, PendingHigh(g, fs, k))
    ensures var l := Locate(record, g, position, hasWrapped, PendingHigh(g, fs, k));
            && FrameLength(|fs[k - 1]|)
            && l.Found? && l.data == fs[k - 1][..|fs[k - 1]| - 1]
            && OnFrame(g, fs, k - 1, l.position, l.hasWrapped)
  {
    var consumed := Tail(fs, k);
    LengthByte(record, g, fs, k);
    AfterChecks(record, g, fs, k);
    assert FrameOk(fs, k - 1);
    if consumed <= g.end - g.start && consumed + |fs[k - 1]| > g.end - g.start + 1 {
      WrappedFrame(record, g, fs, k);
    } else {
      ContiguousFrame(record, g, fs, k);
    }
  }

  ghost function LayoutOf(buffer: TraceBuffer, charIsSigned: bool): Layout
    requires buffer.firstEntry <= buffer.record.Length
    reads buffer`nextEntry
  {
    Layout(buffer.firstEntry, buffer.nextEntry, buffer.record.Length - buffer.firstEntry, buffer.isBigEndian, charIsSigned)
  }

  // What the iterator asks of the records in a buffer: each fits in the data area,
  // and the walk back from the newest one is guarded.
  ghost predicate Readable(g: Layout, fs: seq<seq<byte>>) {
    (forall f <- fs :: |f| <= g.size) && Guarded(g, fs, |fs|)
  }

  // ---------- The iterator ----------

  class TracePointIterator {
    const record: seq<byte>
    const recordLength: nat
    const start: nat
    const end: nat
    const isBigEndian: bool
    const charIsSigned: bool
    var currentPos: nat
    var currentUpperTimeWord: nat
    var iteratorHasWrapped: bool
    var longTracePointLength: nat
    // The frames that were written, and how many of them have not been visited yet.
    ghost const frames: seq<seq<byte>>
    ghost var unvisited: nat
    // Nothing more can be asked for once nothing was delivered.
    ghost var finished: bool

    ghost function Shape(): Layout
      requires start <= recordLength
    {
      Layout(start, end, recordLength - start, isBigEndian, charIsSigned)
    }

    ghost predicate Valid()
      reads this
    {
      && Positioned()
      && (!finished ==> longTracePointLength == PendingHigh(Shape(), frames, unvisited))
    }

    // The iterator stands at the length byte of the newest frame not visited yet.
    ghost predicate Positioned()
      reads this
    {
      && start <= recordLength
      && Holds(record, Shape(), frames)
      && unvisited <= |frames|
      && (!finished ==> AtFrame(Shape(), frames, unvisited, currentPos, iteratorHasWrapped))
    }

    // What is still to be delivered.
    ghost function Remaining(): seq<Delivery>
      reads this
      requires Valid()
    {
      if finished then [] else Deliveries(Shape(), frames, unvisited, currentUpperTimeWord)
    }

    constructor (buffer: TraceBuffer, charIsSigned: bool)
      requires buffer.Valid() && buffer.record.Length < 0x8000_0000
      requires Readable(LayoutOf(buffer, charIsSigned), FramesOf(buffer.written, buffer.isBigEndian))
      ensures Valid() && !finished && unvisited == |frames|
      ensures frames == FramesOf(buffer.written, buffer.isBigEndian)
      ensures start <= recordLength && Shape() == LayoutOf(buffer, charIsSigned)
      ensures currentUpperTimeWord == UpperHalf(buffer.sequence) * TWO_TO_THE_32
    {
      record := buffer.record[..];
      recordLength := buffer.record.Length;
      start := buffer.firstEntry;
      end := buffer.nextEntry;
      isBigEndian := buffer.isBigEndian;
      this.charIsSigned := charIsSigned;
      currentPos := buffer.nextEntry;
      currentUpperTimeWord := UpperHalf(buffer.sequence) * TWO_TO_THE_32;
      iteratorHasWrapped := false;
      longTracePointLength := 0;
      frames := FramesOf(buffer.written, buffer.isBigEndian);
      unvisited := |FramesOf(buffer.written, buffer.isBigEndian)|;
      finished := false;
      FramesOfWellFramed(buffer.written, buffer.isBigEndian);
    }

    method FormatNextTracePoint() returns (r: Option<Delivery>)
      requires Valid() && !finished
      modifies this
      ensures Valid()
      ensures r.Some? ==> !finished && old(Remaining()) == [r.value] + Remaining() && unvisited < old(unvisited)
      ensures r.None? ==> finished && old(Remaining()) == []
      decreases unvisited, 1
    {
      var data := StepToOlder();
      if data.None? {
        finished := true;
        return None;
      }
      r := ParseTracePoint(data.value);
    }

    // To the next older frame, unless the walk stops here.
    method StepToOlder() returns (data: Option<seq<byte>>)
      requires Valid() && !finished
      modifies this`currentPos, this`iteratorHasWrapped, this`longTracePointLength, this`unvisited
      ensures data.None? ==> Stops(Shape(), frames, old(unvisited)) && unvisited == old(unvisited)
      ensures data.Some? ==>
                && !Stops(Shape(), frames, old(unvisited)) && unvisited == old(unvisited) - 1
                && Positioned() && longTracePointLength == 0
                && FrameLength(|frames[unvisited]|)
                && data.value == frames[unvisited][..|frames[unvisited]| - 1]
                && (|data.value| + 1 == EXTENDED_LENGTH ==> data.value[2] as nat != LOST_RECORDS_ID)
    {
      LocateFrame(record, Shape(), frames, unvisited, currentPos, iteratorHasWrapped);
      data := LocateTracePoint();
      if data.Some? {
        StepBack(Shape(), frames, unvisited);
        unvisited := unvisited - 1;
      }
    }

    // The part of FormatNextTracePoint before the parsing.
    method LocateTracePoint() returns (data: Option<seq<byte>>)
      requires start <= recordLength && InBounds(record, Shape(), currentPos, iteratorHasWrapped, longTracePointLength)
      modifies this`currentPos, this`iteratorHasWrapped, this`longTracePointLength
      ensures var l := old(Locate(record, Shape(), currentPos, iteratorHasWrapped, longTracePointLength));
              if l.Found? then
                && data == Some(l.data) && currentPos == l.position && iteratorHasWrapped == l.hasWrapped
                && longTracePointLength == 0
              else data == None
    {
      if currentPos <= start {
        return None;
      }
      var offset := currentPos;
      var tpLength := record[offset] as nat;
      if longTracePointLength != 0 {
        tpLength := tpLength + ShiftLeft8(longTracePointLength);
        longTracePointLength := 0;
      }
      if tpLength == 0 || tpLength > MAX_EXTENDED_LENGTH {
        return None;
      }
      if iteratorHasWrapped && Sub32(offset, tpLength) < end {
        return None;
      }
      if tpLength > offset || offset - tpLength + 1 < start {
        // the trace point goes on from the end of the buffer
        iteratorHasWrapped := true;
        var remainder := tpLength - (offset - start);
        currentPos := recordLength - remainder;
        if currentPos < end {
          return None;
        }
        return Some(record[recordLength - remainder + 1..] + record[start..offset]);
      }
      currentPos := currentPos - tpLength;
      return Some(record[offset - tpLength + 1..offset]);
    }

    // `data` is what lies between the length byte of the record before and the
    // record's own length byte.
    method ParseTracePoint(data: seq<byte>) returns (r: Option<Delivery>)
      requires Positioned() && !finished && longTracePointLength == 0
      requires unvisited < |frames| && FrameLength(|frames[unvisited]|)
      requires data == frames[unvisited][..|frames[unvisited]| - 1]
      requires |data| + 1 == EXTENDED_LENGTH ==> data[2] as nat != LOST_RECORDS_ID
      modifies this
      ensures Valid()
      ensures var expected := old(Interpret(Shape(), frames, unvisited + 1, currentUpperTimeWord));
              if r.Some? then !finished && expected == [r.value] + Remaining() && unvisited <= old(unvisited)
              else finished && expected == []
      decreases unvisited, 2
    {
      ghost var expected := Interpret(Shape(), frames, unvisited + 1, currentUpperTimeWord);
      var traceId := TraceId(data);
      var tpLength := |data| + 1;
      if traceId == LOST_RECORDS_ID {
        return Some(LostRecords);
      }
      if traceId == 0 && tpLength == SEQ_WRAP_LENGTH {
        currentUpperTimeWord := U32(data[3..7], isBigEndian) * TWO_TO_THE_32;
      } else if tpLength == EXTENDED_LENGTH {
        longTracePointLength := ThroughChar(data[2], charIsSigned);
      } else if tpLength != SEQ_WRAP_LENGTH {
        var nameLength := U32(data[7..11], isBigEndian);
        var unformattable :=
          nameLength == 0 || tpLength < MIN_TRACEPOINT_LENGTH || nameLength > tpLength - MIN_TRACEPOINT_LENGTH;
        var ignored := if IsInternal(data[11..]) then traceId == CONTEXT_ID else traceId <= 256;
        if !unformattable && !ignored {
          return Some(TracePointData(data, currentUpperTimeWord));
        }
      }
      // nothing to show for this record
      assert expected == Deliveries(Shape(), frames, unvisited, currentUpperTimeWord);
      assert longTracePointLength == PendingHigh(Shape(), frames, unvisited);
      r := FormatNextTracePoint();
    }
  }
}
