/** The byte layout of trace records, as the trace writer produces it and the
    formatter reads it back.

    A record is a run of data bytes followed by one length byte; the length counts
    the data and the length byte itself.  A record longer than 255 bytes carries
    only the low byte of its length, and is followed by a four-byte marker that
    holds the high byte.  An eight-byte record carries the upper half of the time
    stamps of all records written before it.  A `frame` is one such run of bytes
    with its length byte: every record is one frame, or two when it is long. */
module TraceLayout {
  newtype byte = b: int | 0 <= b < 256

  const MAX_TRC_LENGTH: nat := 255
  const MAX_EXTENDED_LENGTH: nat := 64 * 1024 - 9
  const EXTENDED_LENGTH: nat := 4
  const SEQ_WRAP_LENGTH: nat := 8
  const MIN_TRACEPOINT_LENGTH: nat := 12
  const TWO_TO_THE_32: nat := 0x1_0000_0000

  datatype Record =
    | SequenceWrap(upper: nat)
    | TracePoint(data: seq<byte>)
  {
    // What the writer produces: three id bytes, four time-stamp bytes, four bytes
    // of name length, the name and the parameters.
    predicate Valid() {
      match this
      case SequenceWrap(upper) => upper < TWO_TO_THE_32
      case TracePoint(data) => MIN_TRACEPOINT_LENGTH <= |data| + 1 <= MAX_EXTENDED_LENGTH
    }

    function Frames(isBigEndian: bool): (fs: seq<seq<byte>>)
      requires Valid()
    {
      match this
      case SequenceWrap(upper) =>
        [[0, 0, 0] + EncodeU32(upper, isBigEndian) + [SEQ_WRAP_LENGTH as byte]]
      case TracePoint(data) =>
        var length := |data| + 1;
        if length <= MAX_TRC_LENGTH then
          [data + [length as byte]]
        else
          [data + [(length % 256) as byte], [0, 0, (length / 256) as byte, EXTENDED_LENGTH as byte]]
    }
  }

  function EncodeU32(word: nat, isBigEndian: bool): (bytes: seq<byte>)
    requires word < TWO_TO_THE_32
    ensures |bytes| == 4
  {
    var b0 := (word % 0x100) as byte;
    var b1 := (word / 0x100 % 0x100) as byte;
    var b2 := (word / 0x1_0000 % 0x100) as byte;
    var b3 := (word / 0x100_0000) as byte;
    if isBigEndian then [b3, b2, b1, b0] else [b0, b1, b2, b3]
  }

  function U32(data: seq<byte>, isBigEndian: bool): (word: nat)
    requires |data| == 4
    ensures word < TWO_TO_THE_32
  {
    if isBigEndian then
      data[0] as nat * 0x100_0000 + data[1] as nat * 0x1_0000 + data[2] as nat * 0x100 + data[3] as nat
    else
      data[3] as nat * 0x100_0000 + data[2] as nat * 0x1_0000 + data[1] as nat * 0x100 + data[0] as nat
  }

  // Integers are read back as they were written, on either platform.
  lemma U32RoundTrip(word: nat, isBigEndian: bool)
    requires word < TWO_TO_THE_32
    ensures U32(EncodeU32(word, isBigEndian), isBigEndian) == word
  {
    var q1 := word / 0x100;
    var q2 := q1 / 0x100;
    assert word / 0x1_0000 == q2;
    assert word / 0x100_0000 == q2 / 0x100;
  }

  // ---------- Sequences of frames ----------

  function Concat(fs: seq<seq<byte>>): seq<byte> {
    if fs == [] then [] else Concat(fs[..|fs| - 1]) + fs[|fs| - 1]
  }

  function FramesOf(records: seq<Record>, isBigEndian: bool): seq<seq<byte>>
    requires forall r <- records :: r.Valid()
  {
    if records == [] then []
    else FramesOf(records[..|records| - 1], isBigEndian) + records[|records| - 1].Frames(isBigEndian)
  }

  // The number of bytes in the frames from index `k` on.
  function Tail(fs: seq<seq<byte>>, k: nat): nat
    requires k <= |fs|
    decreases |fs| - k
  {
    if k == |fs| then 0 else |fs[k]| + Tail(fs, k + 1)
  }

  predicate IsMarkerOf(marker: seq<byte>, frame: seq<byte>) {
    |marker| == 4 && marker[0] == 0 && marker[1] == 0 && marker[2] as nat == |frame| / 256
  }

  predicate FrameLength(length: nat) {
    length == EXTENDED_LENGTH || length == SEQ_WRAP_LENGTH || MIN_TRACEPOINT_LENGTH <= length <= MAX_EXTENDED_LENGTH
  }

  predicate FrameOk(fs: seq<seq<byte>>, i: nat)
    requires i < |fs|
  {
    var length := |fs[i]|;
    && FrameLength(length)
    && fs[i][length - 1] as nat == length % 256
    && (length == EXTENDED_LENGTH ==> i > 0 && |fs[i - 1]| > MAX_TRC_LENGTH && IsMarkerOf(fs[i], fs[i - 1]))
    && (length == SEQ_WRAP_LENGTH ==> fs[i][..3] == [0, 0, 0])
    && (length > MAX_TRC_LENGTH ==> i + 1 < |fs| && |fs[i + 1]| == 4)
  }

  ghost predicate WellFramed(fs: seq<seq<byte>>) {
    forall i :: 0 <= i < |fs| ==> FrameOk(fs, i)
  }

  lemma RecordFramesOk(r: Record, isBigEndian: bool)
    requires r.Valid()
    ensures WellFramed(r.Frames(isBigEndian))
  {
  }

  lemma WellFramedConcat(fs: seq<seq<byte>>, gs: seq<seq<byte>>)
    requires WellFramed(fs) && WellFramed(gs)
    ensures WellFramed(fs + gs)
  {
    forall i | 0 <= i < |fs + gs| ensures FrameOk(fs + gs, i) {
      if i < |fs| {
        assert FrameOk(fs, i);
      } else {
        assert FrameOk(gs, i - |fs|);
      }
    }
  }

  lemma {:induction false} FramesOfWellFramed(records: seq<Record>, isBigEndian: bool)
    requires forall r <- records :: r.Valid()
    ensures WellFramed(FramesOf(records, isBigEndian))
  {
    if records != [] {
      var n := |records| - 1;
      FramesOfWellFramed(records[..n], isBigEndian);
      RecordFramesOk(records[n], isBigEndian);
      WellFramedConcat(FramesOf(records[..n], isBigEndian), records[n].Frames(isBigEndian));
    }
  }

  lemma {:induction false} ConcatTail(fs: seq<seq<byte>>, k: nat)
    requires k <= |fs|
    ensures |Concat(fs[..k])| + Tail(fs, k) == |Concat(fs)|
    ensures Concat(fs[..k]) <= Concat(fs)
    decreases |fs| - k
  {
    if k == |fs| {
      assert fs[..k] == fs;
    } else {
      ConcatTail(fs, k + 1);
      assert fs[..k + 1][..k] == fs[..k];
    }
  }

  // The byte at index `j` of frame `k - 1`, counted back from the last byte written.
  lemma FrameByte(fs: seq<seq<byte>>, k: nat, j: nat)
    requires 0 < k <= |fs| && j < |fs[k - 1]|
    ensures |Concat(fs[..k])| == |Concat(fs[..k - 1])| + |fs[k - 1]|
    ensures Tail(fs, k) + |fs[k - 1]| <= |Concat(fs)|
    ensures Concat(fs)[|Concat(fs)| - 1 - (Tail(fs, k) + |fs[k - 1]| - 1 - j)] == fs[k - 1][j]
  {
    ConcatTail(fs, k);
    assert fs[..k][..k - 1] == fs[..k - 1];
  }

  lemma {:induction false} ConcatAppend(fs: seq<seq<byte>>, gs: seq<seq<byte>>)
    ensures Concat(fs + gs) == Concat(fs) + Concat(gs)
  {
    if gs == [] {
      assert fs + gs == fs;
    } else {
      var n := |gs| - 1;
      assert (fs + gs)[..|fs + gs| - 1] == fs + gs[..n];
      ConcatAppend(fs, gs[..n]);
    }
  }

  // ---------- The ring of bytes ----------

  // The data area of a buffer runs from `start` to the end of the buffer; `end` is
  // the position of the last byte written.  `Pos(start, end, size, d)` is the
  // position of the byte written `d` bytes before the last one.
  function Pos(start: int, end: int, size: int, d: int): int {
    if d <= end - start then end - d else end - d + size
  }

  // The byte written `d` bytes before the last one is still in place.
  ghost predicate ByteInPlace(mem: seq<byte>, start: nat, end: nat, stream: seq<byte>, d: nat)
    requires start <= end < |mem| && d < |stream| && d < |mem| - start
  {
    mem[Pos(start, end, |mem| - start, d)] == stream[|stream| - 1 - d]
  }

  // `mem` holds the newest bytes of `stream`.  The byte at `start` is written when
  // the buffer is set up, so a stream is never empty.
  ghost predicate Ring(mem: seq<byte>, start: nat, end: nat, stream: seq<byte>) {
    && 1 <= start <= end < |mem|
    && |stream| >= 1
    && (|stream| <= |mem| - start ==> end == start + |stream| - 1)
    && forall d: nat :: d < |stream| && d < |mem| - start ==> ByteInPlace(mem, start, end, stream, d)
  }

  function NextPosition(start: nat, limit: nat, end: nat): nat {
    if end + 1 == limit then start else end + 1
  }

  lemma RingAppend(mem: seq<byte>, start: nat, end: nat, stream: seq<byte>, b: byte)
    requires Ring(mem, start, end, stream)
    ensures start <= NextPosition(start, |mem|, end) < |mem|
    ensures Ring(mem[NextPosition(start, |mem|, end) := b], start, NextPosition(start, |mem|, end), stream + [b])
  {
    var size := |mem| - start;
    var next := NextPosition(start, |mem|, end);
    var mem', stream' := mem[next := b], stream + [b];
    forall d: nat | d < |stream'| && d < size
      ensures ByteInPlace(mem', start, next, stream', d)
    {
      if d > 0 {
        assert ByteInPlace(mem, start, end, stream, d - 1);
      }
    }
  }
}
