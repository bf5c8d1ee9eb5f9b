/** The writer's side of a trace buffer that is reused in place: bytes are appended
    after the last one written, and go on at the first entry when the end of the
    buffer is reached. */
module TraceBuffers {
  import opened TraceLayout
  import opened TraceEntries

  class TraceBuffer {
    const record: array<byte>
    const firstEntry: nat
    var nextEntry: nat
    const isBigEndian: bool
    // The time of the last trace point.
    var sequence: nat
    // Every record written so far, oldest first.
    ghost var written: seq<Record>
    // Every byte written so far, starting with the one put at `firstEntry`.
    ghost var stream: seq<byte>
    // Every trace point written, and the time when the buffer was set up.
    ghost var entries: seq<Entry>
    ghost const created: nat

    ghost predicate Consistent()
      reads this`nextEntry, this`stream, record
    {
      && 1 <= firstEntry < record.Length
      && Ring(record[..], firstEntry, nextEntry, stream)
      && nextEntry == EndPosition(firstEntry, record.Length, |stream|)
    }

    ghost predicate Valid()
      reads this, record
    {
      && Consistent()
      && (forall r <- written :: r.Valid())
      && stream == StreamOf(written, isBigEndian)
    }

    // The records are those of the trace points.
    ghost predicate Stamped()
      reads this`sequence, this`entries, this`written
    {
      && AllValid(entries, created)
      && sequence == LastTime(entries, created)
      && written == RecordsOf(entries, created, isBigEndian)
    }

    constructor (header: seq<byte>, size: nat, isBigEndian: bool, writePlatform: nat)
      requires header != [] && size >= 1 && writePlatform < TWO_TO_THE_64
      ensures Valid() && Stamped() && fresh(record) && entries == [] && created == writePlatform
      ensures written == [] && firstEntry == |header| && record.Length == |header| + size
      ensures this.isBigEndian == isBigEndian && nextEntry == firstEntry
    {
      record := new byte[|header| + size](i requires 0 <= i < |header| + size => if i < |header| then header[i] else 0);
      firstEntry := |header|;
      nextEntry := |header|;
      this.isBigEndian := isBigEndian;
      sequence, created, entries := writePlatform, writePlatform, [];
      written := [];
      stream := [0];
      new;
      assert ByteInPlace(record[..], firstEntry, nextEntry, stream, 0);
    }

    method CopyToBuffer(bytes: seq<byte>)
      requires Consistent()
      modifies this`nextEntry, this`stream, record
      ensures Consistent() && stream == old(stream) + bytes
      ensures record[..firstEntry] == old(record[..firstEntry])
    {
      var i := 0;
      while i < |bytes|
        invariant 0 <= i <= |bytes|
        invariant Consistent() && stream == old(stream) + bytes[..i]
        invariant record[..firstEntry] == old(record[..firstEntry])
      {
        RingAppend(record[..], firstEntry, nextEntry, stream, bytes[i]);
        ghost var next := NextPosition(firstEntry, record.Length, nextEntry);
        ghost var after := record[..][next := bytes[i]];
        nextEntry := if nextEntry + 1 == record.Length then firstEntry else nextEntry + 1;
        record[nextEntry] := bytes[i];
        assert record[..] == after;
        stream := stream + [bytes[i]];
        i := i + 1;
      }
    }

    method WriteFrames(fs: seq<seq<byte>>)
      requires Consistent()
      modifies this`nextEntry, this`stream, record
      ensures Consistent() && stream == old(stream) + Concat(fs)
      ensures record[..firstEntry] == old(record[..firstEntry])
    {
      var i := 0;
      while i < |fs|
        invariant 0 <= i <= |fs|
        invariant Consistent() && stream == old(stream) + Concat(fs[..i])
        invariant record[..firstEntry] == old(record[..firstEntry])
      {
        assert fs[..i + 1][..i] == fs[..i];
        CopyToBuffer(fs[i]);
        i := i + 1;
      }
      assert fs[..|fs|] == fs;
    }

    method WriteRecord(r: Record)
      requires Valid() && r.Valid()
      modifies this`nextEntry, this`stream, this`written, record
      ensures Valid() && written == old(written) + [r]
      ensures record[..firstEntry] == old(record[..firstEntry])
    {
      WriteFrames(r.Frames(isBigEndian));
      StreamOfAppend(written, r, isBigEndian);
      written := written + [r];
    }

    // A trace point is written with the lower half of its time, after the old upper half
    // if that has changed.
    method WriteTracePoint(e: Entry)
      requires Valid() && Stamped() && e.Valid()
      modifies this, record
      ensures Valid() && Stamped() && entries == old(entries) + [e]
      ensures record[..firstEntry] == old(record[..firstEntry])
    {
      RecordsOfAppend(entries, created, e, isBigEndian);
      var lastSequence := UpperHalf(sequence);
      sequence := e.time;
      if lastSequence != UpperHalf(sequence) {
        WriteRecord(SequenceWrap(lastSequence));
      }
      WriteRecord(TracePoint(e.Data(isBigEndian)));
      entries := entries + [e];
    }
  }

  // Where the last of `count` bytes is.
  function EndPosition(start: nat, limit: nat, count: nat): (end: nat)
    requires start < limit && count >= 1
    ensures start <= end < limit
  {
    if count == 1 then start else NextPosition(start, limit, EndPosition(start, limit, count - 1))
  }

  // The bytes a buffer has taken in, the first being the one put there at set-up.
  function StreamOf(records: seq<Record>, isBigEndian: bool): (stream: seq<byte>)
    requires forall r <- records :: r.Valid()
  {
    [0] + Concat(FramesOf(records, isBigEndian))
  }

  lemma StreamOfAppend(records: seq<Record>, r: Record, isBigEndian: bool)
    requires r.Valid() && forall q <- records :: q.Valid()
    ensures forall q <- records + [r] :: q.Valid()
    ensures StreamOf(records + [r], isBigEndian) == StreamOf(records, isBigEndian) + Concat(r.Frames(isBigEndian))
  {
    assert (records + [r])[..|records|] == records;
    assert FramesOf(records + [r], isBigEndian) == FramesOf(records, isBigEndian) + r.Frames(isBigEndian);
    ConcatAppend(FramesOf(records, isBigEndian), r.Frames(isBigEndian));
    Prepended([0], Concat(FramesOf(records, isBigEndian)), Concat(r.Frames(isBigEndian)));
  }

  lemma Prepended(a: seq<byte>, b: seq<byte>, c: seq<byte>)
    ensures a + (b + c) == (a + b) + c
  {
  }

  lemma {:induction false} EndPositionWithin(start: nat, limit: nat, count: nat)
    requires start < limit && 1 <= count <= limit - start
    ensures EndPosition(start, limit, count) == start + count - 1
  {
    if count > 1 {
      EndPositionWithin(start, limit, count - 1);
    }
  }

  lemma {:induction false} EndPositionPeriod(start: nat, limit: nat, count: nat)
    requires start < limit && count >= 1
    ensures EndPosition(start, limit, count + (limit - start)) == EndPosition(start, limit, count)
  {
    if count == 1 {
      EndPositionWithin(start, limit, limit - start);
    } else {
      EndPositionPeriod(start, limit, count - 1);
    }
  }
}
