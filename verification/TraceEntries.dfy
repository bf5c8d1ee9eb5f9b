/** The trace points a thread writes, with their times, and the records they become. */
module TraceEntries {
  import opened TraceLayout

  const TWO_TO_THE_64: nat := 0x1_0000_0000_0000_0000

  // `id` is the trace id without its lowest byte, which is not written.
  datatype Entry = Entry(time: nat, id: nat, name: seq<byte>, parameters: seq<byte>) {
    predicate Valid() {
      && time < TWO_TO_THE_64 && id < 0x100_0000
      && MIN_TRACEPOINT_LENGTH + |name| + |parameters| <= MAX_EXTENDED_LENGTH
    }

    // Three bytes of the id, the lower half of the time, the length of the name, the name
    // and the parameters.
    function Data(isBigEndian: bool): (data: seq<byte>)
      requires Valid()
      ensures |data| == MIN_TRACEPOINT_LENGTH - 1 + |name| + |parameters|
    {
      [(id / 0x1_0000) as byte, (id / 0x100 % 0x100) as byte, (id % 0x100) as byte]
      + EncodeU32(LowerHalf(time), isBigEndian)
      + EncodeU32(|name|, isBigEndian) + name + parameters
    }
  }

  function LowerHalf(time: nat): (word: nat)
    ensures word < TWO_TO_THE_32
  {
    time % TWO_TO_THE_32
  }

  function UpperHalf(time: nat): (word: nat)
    ensures time < TWO_TO_THE_64 ==> word < TWO_TO_THE_32
    ensures word * TWO_TO_THE_32 + LowerHalf(time) == time
  {
    time / TWO_TO_THE_32
  }

  // The time of the last entry, or else `first`, when the buffer was set up.
  function LastTime(entries: seq<Entry>, first: nat): nat {
    if entries == [] then first else entries[|entries| - 1].time
  }

  predicate AllValid(entries: seq<Entry>, first: nat) {
    first < TWO_TO_THE_64 && forall e <- entries :: e.Valid()
  }

  // When the upper half of the time has changed, the old one is written first: it is that
  // of the entries before.
  function RecordsOf(entries: seq<Entry>, first: nat, isBigEndian: bool): (records: seq<Record>)
    requires AllValid(entries, first)
    ensures forall r <- records :: r.Valid()
  {
    if entries == [] then []
    else
      var n := |entries| - 1;
      assert entries[n] in entries;
      assert n > 0 ==> entries[n - 1] in entries;
      RecordsOf(entries[..n], first, isBigEndian)
      + EntryRecords(LastTime(entries[..n], first), entries[n], isBigEndian)
  }

  function EntryRecords(last: nat, e: Entry, isBigEndian: bool): (records: seq<Record>)
    requires last < TWO_TO_THE_64 && e.Valid()
    ensures forall r <- records :: r.Valid()
  {
    (if UpperHalf(last) != UpperHalf(e.time) then [SequenceWrap(UpperHalf(last))] else []) + [TracePoint(e.Data(isBigEndian))]
  }

  lemma RecordsOfAppend(entries: seq<Entry>, first: nat, e: Entry, isBigEndian: bool)
    requires AllValid(entries, first) && e.Valid()
    ensures AllValid(entries + [e], first) && LastTime(entries, first) < TWO_TO_THE_64
    ensures RecordsOf(entries + [e], first, isBigEndian)
         == RecordsOf(entries, first, isBigEndian) + EntryRecords(LastTime(entries, first), e, isBigEndian)
  {
    assert (entries + [e])[..|entries|] == entries;
    if entries != [] {
      assert entries[|entries| - 1] in entries;
    }
  }

  // The two halves that are written, one in the record and one beside it, are the time.
  lemma TimeIsInData(e: Entry, isBigEndian: bool)
    requires e.Valid()
    ensures UpperHalf(e.time) * TWO_TO_THE_32 + U32(e.Data(isBigEndian)[3..7], isBigEndian) == e.time
  {
    U32RoundTrip(LowerHalf(e.time), isBigEndian);
    assert e.Data(isBigEndian)[3..7] == EncodeU32(LowerHalf(e.time), isBigEndian);
  }

  // The id is written with its most significant byte first, on any platform; the name
  // length is written as the platform does it.
  lemma ByteOrder(e: Entry, isBigEndian: bool)
    requires e.Valid()
    ensures var d := e.Data(isBigEndian);
            && d[0] as nat * 0x1_0000 <= e.id < (d[0] as nat + 1) * 0x1_0000
            && d[2] as nat == e.id % 0x100
            && (isBigEndian ==> d[7] as nat * 0x100_0000 <= |e.name| < (d[7] as nat + 1) * 0x100_0000)
            && (!isBigEndian ==> d[7] as nat == |e.name| % 0x100)
  {
    assert e.Data(isBigEndian)[7..11] == EncodeU32(|e.name|, isBigEndian);
    assert e.Data(isBigEndian)[7] == e.Data(isBigEndian)[7..11][0];
  }
}
