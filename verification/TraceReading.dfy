/** Reading a whole trace buffer back, and the trace points that it gives. */
module TraceReading {
  import opened TraceLayout
  import opened TraceEntries
  import opened TraceBuffers
  import opened TraceFormatter
  import opened TraceDecoding

  // ---------- What trace points are delivered ----------

  // Only the lower 14 bits of the id count. The name of the trace engine's own component
  // is looked for past the end of the name; one of its trace points is for other tools, and
  // so are the first 257 of all other components.
  predicate IsDelivered(e: Entry) {
    && e.name != []
    && if INTERNAL_COMPONENT <= e.name + e.parameters then e.id % 0x4000 != 0x103 else e.id % 0x4000 > 256
  }

  // A trace point with id 16 is taken for the sign that records are lost.
  function DeliveryOf(e: Entry, isBigEndian: bool): seq<Delivery>
    requires e.Valid()
  {
    if e.id % 0x4000 == 16 then [LostRecords]
    else if IsDelivered(e) then [TracePointData(e.Data(isBigEndian), UpperHalf(e.time) * TWO_TO_THE_32)]
    else []
  }

  // Newest first.
  function Expected(entries: seq<Entry>, isBigEndian: bool): seq<Delivery>
    requires forall e <- entries :: e.Valid()
  {
    if entries == [] then []
    else
      var n := |entries| - 1;
      assert entries[n] in entries;
      DeliveryOf(entries[n], isBigEndian) + Expected(entries[..n], isBigEndian)
  }

  lemma IdIsInData(e: Entry, isBigEndian: bool)
    requires e.Valid()
    ensures TraceId(e.Data(isBigEndian)) == e.id % 0x4000
  {
    var d := e.Data(isBigEndian);
    assert d[0] as nat == e.id / 0x1_0000 && d[1] as nat == e.id / 0x100 % 0x100 && d[2] as nat == e.id % 0x100;
    assert d[0] as nat * 0x1_0000 + d[1] as nat * 0x100 + d[2] as nat == e.id;
  }

  lemma NameIsInData(e: Entry, isBigEndian: bool)
    requires e.Valid()
    ensures var d := e.Data(isBigEndian);
            U32(d[7..11], isBigEndian) == |e.name| && d[11..] == e.name + e.parameters
  {
    U32RoundTrip(|e.name|, isBigEndian);
    assert e.Data(isBigEndian)[7..11] == EncodeU32(|e.name|, isBigEndian);
  }

  // The record of a trace point is delivered if and only if its fields say so.
  lemma EntryIsShown(e: Entry, isBigEndian: bool)
    requires e.Valid()
    ensures Shown(e.Data(isBigEndian), UpperHalf(e.time) * TWO_TO_THE_32, isBigEndian) == DeliveryOf(e, isBigEndian)
  {
    IdIsInData(e, isBigEndian);
    NameIsInData(e, isBigEndian);
  }

  // Reading back the records of trace points gives each of them its own time.
  lemma {:induction false} EntriesAreExpected(entries: seq<Entry>, first: nat, isBigEndian: bool)
    requires AllValid(entries, first)
    ensures NewestFirst(RecordsOf(entries, first, isBigEndian), UpperHalf(LastTime(entries, first)) * TWO_TO_THE_32, isBigEndian)
         == Expected(entries, isBigEndian)
  {
    if entries != [] {
      var n := |entries| - 1;
      var e, last := entries[n], LastTime(entries[..n], first);
      assert e in entries && (n > 0 ==> entries[n - 1] in entries);
      EntriesAreExpected(entries[..n], first, isBigEndian);
      EntryIsShown(e, isBigEndian);
      EntryIsNewest(RecordsOf(entries[..n], first, isBigEndian), last, e, isBigEndian);
    }
  }

  lemma EntryIsNewest(older: seq<Record>, last: nat, e: Entry, isBigEndian: bool)
    requires (forall r <- older :: r.Valid()) && last < TWO_TO_THE_64 && e.Valid()
    ensures var upper := UpperHalf(e.time) * TWO_TO_THE_32;
            NewestFirst(older + EntryRecords(last, e, isBigEndian), upper, isBigEndian)
            == Shown(e.Data(isBigEndian), upper, isBigEndian) + NewestFirst(older, UpperHalf(last) * TWO_TO_THE_32, isBigEndian)
  {
    var upper, point := UpperHalf(e.time) * TWO_TO_THE_32, TracePoint(e.Data(isBigEndian));
    if UpperHalf(last) != UpperHalf(e.time) {
      var wrap := SequenceWrap(UpperHalf(last));
      assert older + EntryRecords(last, e, isBigEndian) == older + [wrap] + [point];
      NewestOf(older + [wrap], point, upper, isBigEndian);
      OldUpperIsNewest(older, UpperHalf(last), upper, isBigEndian);
    } else {
      assert older + EntryRecords(last, e, isBigEndian) == older + [point];
      NewestOf(older, point, upper, isBigEndian);
    }
  }

  lemma OldUpperIsNewest(older: seq<Record>, word: nat, upper: nat, isBigEndian: bool)
    requires (forall r <- older :: r.Valid()) && word < TWO_TO_THE_32
    ensures NewestFirst(older + [SequenceWrap(word)], upper, isBigEndian)
         == NewestFirst(older, word * TWO_TO_THE_32, isBigEndian)
  {
    NewestOf(older, SequenceWrap(word), upper, isBigEndian);
  }

  lemma NewestOf(older: seq<Record>, newest: Record, upper: nat, isBigEndian: bool)
    requires (forall r <- older :: r.Valid()) && newest.Valid()
    ensures NewestFirst(older + [newest], upper, isBigEndian)
         == Contribution(newest, upper, isBigEndian) + NewestFirst(older, UpperBefore(newest, upper), isBigEndian)
  {
    assert (older + [newest])[..|older|] == older;
  }

  function TimeOf(d: Delivery, isBigEndian: bool): nat
    requires d.TracePointData? && |d.data| >= 7
  {
    d.upperTimeWord + U32(d.data[3..7], isBigEndian)
  }

  // The n-th trace point of a component, counted from 0, is written with id n + 257. It is
  // delivered, with its time, if the component has a name that is not the engine's own.
  lemma ModuleTracePointIsDelivered(e: Entry, n: nat, isBigEndian: bool)
    requires e.Valid() && e.id == n + 257 && n < 0x4000 - 257
    requires e.name != [] && !(INTERNAL_COMPONENT <= e.name + e.parameters)
    ensures |DeliveryOf(e, isBigEndian)| == 1
    ensures var d := DeliveryOf(e, isBigEndian)[0];
            d.TracePointData? && d.data == e.Data(isBigEndian) && TimeOf(d, isBigEndian) == e.time
  {
    TimeIsInData(e, isBigEndian);
    assert e.id % 0x4000 == e.id;
  }

  // ---------- The whole walk ----------

  // Asking until there is nothing more.
  method ReadAll(trace: TracePointIterator) returns (out: seq<Delivery>)
    requires trace.Valid() && !trace.finished
    modifies trace
    ensures trace.Valid() && trace.finished
    ensures out == old(trace.Remaining())
    decreases trace.unvisited
  {
    var next := trace.FormatNextTracePoint();
    if next.None? {
      return [];
    }
    var rest := ReadAll(trace);
    return [next.value] + rest;
  }

  // Reading back a buffer delivers, byte for byte, a prefix of the records that were
  // written, newest first, and all of them as long as the writer did not wrap. If the
  // records are those of trace points, these are what is delivered.
  method Decode(buffer: TraceBuffer, charIsSigned: bool) returns (out: seq<Delivery>)
    requires buffer.Valid() && buffer.record.Length < 0x8000_0000
    requires Readable(LayoutOf(buffer, charIsSigned), FramesOf(buffer.written, buffer.isBigEndian))
    ensures var all := NewestFirst(buffer.written, UpperHalf(buffer.sequence) * TWO_TO_THE_32, buffer.isBigEndian);
            && out <= all && (Unwrapped(buffer) && LengthsSurvive(buffer.written, charIsSigned) ==> out == all)
    ensures buffer.Stamped() ==>
              var all := Expected(buffer.entries, buffer.isBigEndian);
              && out <= all && (Unwrapped(buffer) && LengthsSurvive(buffer.written, charIsSigned) ==> out == all)
  {
    ghost var records, g := buffer.written, LayoutOf(buffer, charIsSigned);
    ghost var fs := FramesOf(records, buffer.isBigEndian);
    ghost var upper := UpperHalf(buffer.sequence) * TWO_TO_THE_32;
    var trace := new TracePointIterator(buffer, charIsSigned);
    out := ReadAll(trace);
    assert fs[..|fs|] == fs;
    GuardedIsUnspoilt(g, fs, |fs|);
    DeliveriesArePrefix(g, fs, |fs|, records, upper);
    if Unwrapped(buffer) && LengthsSurvive(records, charIsSigned) {
      DeliveriesAreComplete(g, fs, |fs|, records, upper);
    }
    if buffer.Stamped() {
      EntriesAreExpected(buffer.entries, buffer.created, buffer.isBigEndian);
    }
  }

  // The writer has not come round to the first entry.
  ghost predicate Unwrapped(buffer: TraceBuffer)
    reads buffer`stream
  {
    |buffer.stream| <= buffer.record.Length - buffer.firstEntry
  }
}
