/** The walk of the iterator over the bytes of a buffer, one record at a time, also where it
    is not guarded: when it ends, and when it goes round for ever. */
module TraceWalk {
  import opened TraceLayout
  import opened TraceBuffers
  import opened TraceFormatter
  import opened TraceDecoding

  // The fields of the iterator that change.
  datatype Walker = Walker(position: nat, hasWrapped: bool, longLength: nat, upper: nat)

  // One step: nothing is found, or a record that is shown or skipped. The walk is astray
  // when it would read outside of the buffer, or a record too short to be one.
  datatype Move = Astray | Done | Go(next: Walker, shown: seq<Delivery>)

  function UpperAfter(data: seq<byte>, upper: nat, isBigEndian: bool): nat
    requires FrameLength(|data| + 1)
  {
    match Classify(data, isBigEndian)
    case UpperTimeWord(word) => word * TWO_TO_THE_32
    case _ => upper
  }

  function HighAfter(g: Layout, data: seq<byte>): nat
    requires FrameLength(|data| + 1)
  {
    match Classify(data, g.isBigEndian)
    case LongMarker(high) => ThroughChar(high, g.charIsSigned)
    case _ => 0
  }

  function MoveFrom(record: seq<byte>, g: Layout, w: Walker): Move {
    if !InBounds(record, g, w.position, w.hasWrapped, w.longLength) then Astray
    else
      match Locate(record, g, w.position, w.hasWrapped, w.longLength)
      case Nothing => Done
      case Found(data, position, hasWrapped) =>
        if !FrameLength(|data| + 1) then Astray
        else
          Go(Walker(position, hasWrapped, HighAfter(g, data), UpperAfter(data, w.upper, g.isBigEndian)),
             Shown(data, w.upper, g.isBigEndian))
  }

  type Mover = Walker -> Move

  function MoverOf(record: seq<byte>, g: Layout): Mover {
    w => MoveFrom(record, g, w)
  }

  // The walk makes `n` steps.
  predicate Runs(move: Mover, w: Walker, n: nat)
    decreases n
  {
    n == 0 || (move(w).Go? && Runs(move, move(w).next, n - 1))
  }

  // It makes `n` steps, and then finds nothing.
  predicate Ends(move: Mover, w: Walker, n: nat)
    decreases n
  {
    if n == 0 then move(w).Done? else move(w).Go? && Ends(move, move(w).next, n - 1)
  }

  ghost predicate EverEnds(move: Mover, w: Walker) {
    exists n: nat :: Ends(move, w, n)
  }

  // What it delivers in `n` steps.
  function Shows(move: Mover, w: Walker, n: nat): seq<Delivery>
    requires Runs(move, w, n)
    decreases n
  {
    if n == 0 then [] else move(w).shown + Shows(move, move(w).next, n - 1)
  }

  lemma {:induction false} RunsToTheEnd(move: Mover, w: Walker, n: nat, m: nat)
    requires Ends(move, w, n)
    ensures Runs(move, w, m) <==> m <= n
    decreases n
  {
    if n > 0 && m > 0 {
      RunsToTheEnd(move, move(w).next, n - 1, m - 1);
    }
  }

  // ---------- Down the frames ----------

  // The walker between frames `k` and `k - 1`.
  function WalkerAt(g: Layout, fs: seq<seq<byte>>, k: nat, upper: nat): Walker
    requires k <= |fs| && g.start >= 1
  {
    var position := PositionAt(g, Tail(fs, k));
    Walker(if position < 0 then 0 else position, Tail(fs, k) > g.end - g.start + 1, PendingHigh(g, fs, k), upper)
  }

  predicate MarkersKnown(fs: seq<seq<byte>>) {
    forall f <- fs :: |f| == EXTENDED_LENGTH ==> f[2] as nat != LOST_RECORDS_ID
  }

  function Data(f: seq<byte>): seq<byte>
    requires |f| > 0
  {
    f[..|f| - 1]
  }

  lemma HighIsPending(g: Layout, fs: seq<seq<byte>>, k: nat)
    requires WellFramed(fs) && MarkersKnown(fs) && 0 < k <= |fs|
    ensures FrameLength(|fs[k - 1]|) && HighAfter(g, Data(fs[k - 1])) == PendingHigh(g, fs, k - 1)
  {
    assert FrameOk(fs, k - 1) && fs[k - 1] in fs;
    if |fs[k - 1]| == EXTENDED_LENGTH {
      MarkerIsRecognized(fs[k - 1][2], g.isBigEndian);
      assert Data(fs[k - 1]) == [0, 0, fs[k - 1][2]];
    }
  }

  lemma MoveIsOlder(record: seq<byte>, g: Layout, fs: seq<seq<byte>>, k: nat, upper: nat)
    requires Holds(record, g, fs) && MarkersKnown(fs) && g.start < g.end
    requires k <= |fs| && Tail(fs, k) <= g.size && !Stops(g, fs, k)
    ensures MovesOn(MoverOf(record, g), g, fs, k, upper)
  {
    var w := WalkerAt(g, fs, k, upper);
    LocateInBounds(record, g, fs, k, w.position, w.hasWrapped);
    LocateFinds(record, g, fs, k, w.position, w.hasWrapped);
    HighIsPending(g, fs, k);
    assert MoverOf(record, g)(w) == MoveFrom(record, g, w);
  }

  // The next step goes to the next older frame, and shows what frame `k - 1` stands for.
  ghost predicate MovesOn(move: Mover, g: Layout, fs: seq<seq<byte>>, k: nat, upper: nat)
    requires k <= |fs| && g.start >= 1
  {
    && k > 0 && FrameLength(|fs[k - 1]|)
    && var data := Data(fs[k - 1]);
       move(WalkerAt(g, fs, k, upper))
       == Go(WalkerAt(g, fs, k - 1, UpperAfter(data, upper, g.isBigEndian)), Shown(data, upper, g.isBigEndian))
  }

  // It does wherever the walk does not stop.
  ghost predicate Follows(move: Mover, g: Layout, fs: seq<seq<byte>>) {
    && g.start >= 1
    && forall k: nat, upper: nat :: k <= |fs| && Tail(fs, k) <= g.size && !Stops(g, fs, k) ==> MovesOn(move, g, fs, k, upper)
  }

  lemma WalkFollows(record: seq<byte>, g: Layout, fs: seq<seq<byte>>)
    requires Holds(record, g, fs) && MarkersKnown(fs) && g.start < g.end
    ensures Follows(MoverOf(record, g), g, fs)
  {
    forall k: nat, upper: nat | k <= |fs| && Tail(fs, k) <= g.size && !Stops(g, fs, k)
      ensures MovesOn(MoverOf(record, g), g, fs, k, upper)
    {
      MoveIsOlder(record, g, fs, k, upper);
    }
  }

  // The frame at which the walk back from frame `k` should end.
  function FirstStop(g: Layout, fs: seq<seq<byte>>, k: nat): (stop: nat)
    requires k <= |fs|
    ensures stop <= k && Stops(g, fs, stop)
    decreases k
  {
    if Stops(g, fs, k) then k else FirstStop(g, fs, k - 1)
  }

  lemma {:induction false} FirstStopFits(g: Layout, fs: seq<seq<byte>>, k: nat)
    requires k <= |fs| && Tail(fs, k) <= g.size
    ensures Tail(fs, FirstStop(g, fs, k)) <= g.size
    decreases k
  {
    if !Stops(g, fs, k) {
      FirstStopFits(g, fs, k - 1);
    }
  }

  // What the frames in front of `j`, back to frame `k`, stand for, and the upper half of
  // the time stamps before them.
  function PartShows(g: Layout, fs: seq<seq<byte>>, k: nat, j: nat, upper: nat): seq<Delivery>
    requires k <= j <= |fs| && WellFramed(fs)
    decreases j
  {
    if j == k then []
    else
      assert FrameOk(fs, j - 1);
      var data := Data(fs[j - 1]);
      Shown(data, upper, g.isBigEndian) + PartShows(g, fs, k, j - 1, UpperAfter(data, upper, g.isBigEndian))
  }

  function PartUpper(g: Layout, fs: seq<seq<byte>>, k: nat, j: nat, upper: nat): nat
    requires k <= j <= |fs| && WellFramed(fs)
    decreases j
  {
    if j == k then upper
    else
      assert FrameOk(fs, j - 1);
      PartUpper(g, fs, k, j - 1, UpperAfter(Data(fs[j - 1]), upper, g.isBigEndian))
  }

  // From frame `j` down to frame `k`, and `n` steps more.
  ghost predicate PassesOver(move: Mover, g: Layout, fs: seq<seq<byte>>, k: nat, j: nat, upper: nat, n: nat)
    requires k <= j <= |fs| && WellFramed(fs) && g.start >= 1
  {
    var w, rest := WalkerAt(g, fs, j, upper), WalkerAt(g, fs, k, PartUpper(g, fs, k, j, upper));
    && (Ends(move, w, j - k + n) <==> Ends(move, rest, n))
    && (Runs(move, w, j - k + n) <==> Runs(move, rest, n))
    && (Runs(move, rest, n) ==>
          Shows(move, w, j - k + n) == PartShows(g, fs, k, j, upper) + Shows(move, rest, n))
  }

  lemma {:induction false} PartIsWalked(move: Mover, g: Layout, fs: seq<seq<byte>>, k: nat, j: nat, upper: nat, n: nat)
    requires Follows(move, g, fs) && WellFramed(fs) && k <= j <= |fs|
    requires forall i :: k < i <= j ==> !Stops(g, fs, i) && Tail(fs, i) <= g.size
    ensures PassesOver(move, g, fs, k, j, upper, n)
    decreases j
  {
    if j > k {
      assert MovesOn(move, g, fs, j, upper) && FrameOk(fs, j - 1);
      PartIsWalked(move, g, fs, k, j - 1, UpperAfter(Data(fs[j - 1]), upper, g.isBigEndian), n);
    }
  }

  lemma {:induction false} NoStopBefore(g: Layout, fs: seq<seq<byte>>, k: nat)
    requires k <= |fs| && Tail(fs, k) <= g.size
    ensures forall i :: FirstStop(g, fs, k) < i <= k ==> !Stops(g, fs, i) && Tail(fs, i) <= g.size
    decreases k
  {
    if !Stops(g, fs, k) {
      NoStopBefore(g, fs, k - 1);
    }
  }

  // ---------- Where the walk ends ----------

  // The walk does not stop at a marker after exactly one full turn.
  predicate StopsPlainly(g: Layout, fs: seq<seq<byte>>, stop: nat)
    requires stop <= |fs|
  {
    Tail(fs, stop) < g.size || PendingHigh(g, fs, stop) == 0
  }

  lemma LengthReadFits(g: Layout, fs: seq<seq<byte>>, k: nat)
    requires WellFramed(fs) && (forall f <- fs :: |f| <= g.size) && k <= |fs| && StopsPlainly(g, fs, k)
    requires 0 < LengthRead(g, fs, k) <= MAX_EXTENDED_LENGTH
    ensures LengthRead(g, fs, k) <= g.size
    ensures k > 0 && Tail(fs, k) < g.size ==> !(g.charIsSigned && |fs[k - 1]| >= 0x8000)
  {
    if k > 0 && Tail(fs, k) < g.size {
      LengthReadOfIntact(g, fs, k);
      assert fs[k - 1] in fs;
    } else if fs != [] {
      assert FrameOk(fs, |fs| - 1) && fs[|fs| - 1] in fs;
      assert FrameOk(fs, 0);
    }
  }

  // Where the walk should end, it finds nothing exactly when the guard holds there.
  lemma StopIsNoticed(record: seq<byte>, g: Layout, fs: seq<seq<byte>>, k: nat, upper: nat)
    requires Holds(record, g, fs) && g.start < g.end && k <= |fs| && Tail(fs, k) <= g.size
    requires Stops(g, fs, k) && StopsPlainly(g, fs, k)
    ensures MoveFrom(record, g, WalkerAt(g, fs, k, upper)).Done? <==> TerminalGuard(g, fs, k)
  {
    var w := WalkerAt(g, fs, k, upper);
    if TerminalGuard(g, fs, k) {
      LocateInBounds(record, g, fs, k, w.position, w.hasWrapped);
      LocateStops(record, g, fs, k, w.position, w.hasWrapped);
    } else {
      LengthReadFits(g, fs, k);
      OverwrittenIsNoticed(record, g, fs, k);
    }
  }

  lemma {:induction false} GuardedAtStop(g: Layout, fs: seq<seq<byte>>, k: nat)
    requires MarkersKnown(fs) && k <= |fs|
    ensures Guarded(g, fs, k) <==> TerminalGuard(g, fs, FirstStop(g, fs, k))
    decreases k
  {
    if !Stops(g, fs, k) {
      GuardedAtStop(g, fs, k - 1);
      assert fs[k - 1] in fs;
    }
  }

  // From the newest record back, the walk visits every frame in front of its stop once and
  // ends there, exactly when it is guarded.
  lemma EndsExactly(record: seq<byte>, g: Layout, fs: seq<seq<byte>>, upper: nat)
    requires Holds(record, g, fs) && MarkersKnown(fs) && g.start < g.end
    requires StopsPlainly(g, fs, FirstStop(g, fs, |fs|))
    ensures Ends(MoverOf(record, g), WalkerAt(g, fs, |fs|, upper), |fs| - FirstStop(g, fs, |fs|))
            <==> Guarded(g, fs, |fs|)
  {
    var stop := FirstStop(g, fs, |fs|);
    WalkFollows(record, g, fs);
    NoStopBefore(g, fs, |fs|);
    FirstStopFits(g, fs, |fs|);
    PartIsWalked(MoverOf(record, g), g, fs, stop, |fs|, upper, 0);
    StopIsNoticed(record, g, fs, stop, PartUpper(g, fs, stop, |fs|, upper));
    GuardedAtStop(g, fs, |fs|);
  }

  lemma {:induction false} PartIsDelivered(g: Layout, fs: seq<seq<byte>>, k: nat, upper: nat)
    requires WellFramed(fs) && k <= |fs|
    ensures PartShows(g, fs, FirstStop(g, fs, k), k, upper) == Deliveries(g, fs, k, upper)
    decreases k
  {
    if !Stops(g, fs, k) {
      assert FrameOk(fs, k - 1);
      PartIsDelivered(g, fs, k - 1, UpperAfter(Data(fs[k - 1]), upper, g.isBigEndian));
    }
  }

  // What it delivers on the way is what the frames stand for, guarded or not.
  lemma ShowsDeliveries(record: seq<byte>, g: Layout, fs: seq<seq<byte>>, upper: nat)
    requires Holds(record, g, fs) && MarkersKnown(fs) && g.start < g.end
    ensures var move, n := MoverOf(record, g), |fs| - FirstStop(g, fs, |fs|);
            && Runs(move, WalkerAt(g, fs, |fs|, upper), n)
            && Shows(move, WalkerAt(g, fs, |fs|, upper), n) == Deliveries(g, fs, |fs|, upper)
  {
    WalkFollows(record, g, fs);
    PartIsShown(MoverOf(record, g), g, fs, upper);
    PartIsDelivered(g, fs, |fs|, upper);
  }

  lemma PartIsShown(move: Mover, g: Layout, fs: seq<seq<byte>>, upper: nat)
    requires Follows(move, g, fs) && WellFramed(fs)
    ensures var stop, w := FirstStop(g, fs, |fs|), WalkerAt(g, fs, |fs|, upper);
            Runs(move, w, |fs| - stop) && Shows(move, w, |fs| - stop) == PartShows(g, fs, stop, |fs|, upper)
  {
    var stop, w := FirstStop(g, fs, |fs|), WalkerAt(g, fs, |fs|, upper);
    NoStopBefore(g, fs, |fs|);
    PartIsWalked(move, g, fs, stop, |fs|, upper, 0);
    assert |fs| - stop + 0 == |fs| - stop;
    assert Shows(move, WalkerAt(g, fs, stop, PartUpper(g, fs, stop, |fs|, upper)), 0) == [];
  }

  // A record whose length byte is at the first entry, or in front of it, is not found.
  lemma NothingAtFirstEntry(record: seq<byte>, g: Layout, w: Walker)
    requires InBounds(record, g, w.position, w.hasWrapped, w.longLength) && w.position <= g.start
    ensures Ends(MoverOf(record, g), w, 0) && !Runs(MoverOf(record, g), w, 1)
  {
    assert MoverOf(record, g)(w) == MoveFrom(record, g, w);
  }

  // ---------- Round and round ----------

  predicate Short(fs: seq<seq<byte>>) {
    forall f <- fs :: |f| <= MAX_TRC_LENGTH
  }

  lemma ShortHasNoMarkers(g: Layout, fs: seq<seq<byte>>, i: nat)
    requires WellFramed(fs) && Short(fs) && i < |fs|
    ensures |fs[i]| != EXTENDED_LENGTH && fs[i] != [] && fs[i][|fs[i]| - 1] as nat == |fs[i]|
    ensures PendingHigh(g, fs, i) == 0
  {
    assert FrameOk(fs, i) && fs[i] in fs;
    if i > 0 {
      assert fs[i - 1] in fs;
    }
  }

  lemma ShortMarkersKnown(fs: seq<seq<byte>>)
    requires WellFramed(fs) && Short(fs)
    ensures MarkersKnown(fs)
  {
    forall f | f in fs ensures |f| != EXTENDED_LENGTH {
      var i :| 0 <= i < |fs| && fs[i] == f;
      ShortHasNoMarkers(Layout(0, 0, 0, false, false), fs, i);
    }
  }

  lemma {:induction false} TailGrows(fs: seq<seq<byte>>, i: nat, j: nat)
    requires i <= j <= |fs|
    ensures Tail(fs, j) <= Tail(fs, i)
    decreases j - i
  {
    if i < j {
      TailGrows(fs, i + 1, j);
    }
  }

  // The frames from `k` on are short and fill the buffer exactly.
  ghost predicate FitsExactly(record: seq<byte>, g: Layout, fs: seq<seq<byte>>, k: nat) {
    && Holds(record, g, fs) && Short(fs) && g.start < g.end
    && k < |fs| && Tail(fs, k) == g.size
  }

  lemma NoStopInCircle(record: seq<byte>, g: Layout, fs: seq<seq<byte>>, k: nat, j: nat)
    requires FitsExactly(record, g, fs, k) && |fs[|fs| - 1]| > g.end && k < j <= |fs|
    ensures !Stops(g, fs, j) && Tail(fs, j) <= g.size
  {
    TailGrows(fs, k, j - 1);
    TailGrows(fs, k, |fs| - 1);
    if j < |fs| {
      TailGrows(fs, j, |fs| - 1);
    }
    assert fs[j - 1] in fs && fs[|fs| - 1] in fs;
  }

  // At the end of the newest record it makes no difference whether the walk has wrapped.
  lemma NewestIsFoundAgain(record: seq<byte>, g: Layout, fs: seq<seq<byte>>, k: nat, upper: nat)
    requires FitsExactly(record, g, fs, k) && |fs[|fs| - 1]| > g.end
    ensures WalkerAt(g, fs, |fs|, upper) == Walker(g.end, false, 0, upper)
    ensures WalkerAt(g, fs, k, upper) == Walker(g.end, true, 0, upper)
    ensures MoveFrom(record, g, Walker(g.end, true, 0, upper)) == MoveFrom(record, g, Walker(g.end, false, 0, upper))
  {
    NewestByte(record, g, fs);
    ShortHasNoMarkers(g, fs, |fs| - 1);
    ShortHasNoMarkers(g, fs, k);
    TailGrows(fs, k, |fs| - 1);
    assert fs[|fs| - 1] in fs;
  }

  // A walk that comes from frame `k` to the newest frame again.
  ghost predicate Circular(move: Mover, g: Layout, fs: seq<seq<byte>>, k: nat) {
    && WellFramed(fs) && Follows(move, g, fs) && k < |fs|
    && (forall j :: k < j <= |fs| ==> !Stops(g, fs, j) && Tail(fs, j) <= g.size)
    && forall upper: nat :: move(WalkerAt(g, fs, k, upper)) == move(WalkerAt(g, fs, |fs|, upper))
  }

  lemma LongNewestIsCircular(record: seq<byte>, g: Layout, fs: seq<seq<byte>>, k: nat)
    requires FitsExactly(record, g, fs, k) && |fs[|fs| - 1]| > g.end
    ensures Circular(MoverOf(record, g), g, fs, k)
  {
    ShortMarkersKnown(fs);
    WalkFollows(record, g, fs);
    forall j | k < j <= |fs| ensures !Stops(g, fs, j) && Tail(fs, j) <= g.size {
      NoStopInCircle(record, g, fs, k, j);
    }
    var move := MoverOf(record, g);
    forall upper: nat ensures move(WalkerAt(g, fs, k, upper)) == move(WalkerAt(g, fs, |fs|, upper)) {
      NewestIsFoundAgain(record, g, fs, k, upper);
    }
  }

  lemma {:induction false} RunsForEver(move: Mover, g: Layout, fs: seq<seq<byte>>, k: nat, j: nat, upper: nat, n: nat)
    requires Circular(move, g, fs, k) && k <= j <= |fs|
    ensures Runs(move, WalkerAt(g, fs, j, upper), n)
    decreases n
  {
    if n > 0 {
      var i := if j == k then |fs| else j;
      assert MovesOn(move, g, fs, i, upper);
      RunsForEver(move, g, fs, k, i - 1, UpperAfter(Data(fs[i - 1]), upper, g.isBigEndian), n - 1);
    }
  }

  // In a buffer that short records fill exactly, the walk back from the newest record ends
  // if and only if that record is not longer than its own end position.
  lemma ExactFitEnds(record: seq<byte>, g: Layout, fs: seq<seq<byte>>, k: nat, upper: nat)
    requires FitsExactly(record, g, fs, k)
    ensures EverEnds(MoverOf(record, g), WalkerAt(g, fs, |fs|, upper)) <==> |fs[|fs| - 1]| <= g.end
  {
    if |fs[|fs| - 1]| <= g.end {
      ShortNewestEnds(record, g, fs, k, upper);
    } else {
      LongNewestIsCircular(record, g, fs, k);
      CircleHasNoEnd(MoverOf(record, g), g, fs, k, upper);
    }
  }

  lemma ShortNewestEnds(record: seq<byte>, g: Layout, fs: seq<seq<byte>>, k: nat, upper: nat)
    requires FitsExactly(record, g, fs, k) && |fs[|fs| - 1]| <= g.end
    ensures EverEnds(MoverOf(record, g), WalkerAt(g, fs, |fs|, upper))
  {
    ExactFitIsGuarded(g, fs, k, |fs|);
    ShortMarkersKnown(fs);
    StopInExactFit(g, fs, k, |fs|);
    EndsExactly(record, g, fs, upper);
  }

  lemma CircleHasNoEnd(move: Mover, g: Layout, fs: seq<seq<byte>>, k: nat, upper: nat)
    requires Circular(move, g, fs, k)
    ensures !EverEnds(move, WalkerAt(g, fs, |fs|, upper))
  {
    if n: nat :| Ends(move, WalkerAt(g, fs, |fs|, upper), n) {
      RunsForEver(move, g, fs, k, |fs|, upper, n + 1);
      RunsToTheEnd(move, WalkerAt(g, fs, |fs|, upper), n, n + 1);
    }
  }

  lemma {:induction false} StopInExactFit(g: Layout, fs: seq<seq<byte>>, k: nat, j: nat)
    requires WellFramed(fs) && Short(fs) && k <= j <= |fs| && Tail(fs, k) == g.size
    ensures FirstStop(g, fs, j) >= k && StopsPlainly(g, fs, FirstStop(g, fs, j))
    decreases j
  {
    if k > 0 {
      assert FrameOk(fs, k - 1);
    }
    if Stops(g, fs, j) {
      if j < |fs| {
        ShortHasNoMarkers(g, fs, j);
      }
    } else {
      StopInExactFit(g, fs, k, j - 1);
    }
  }

  lemma {:induction false} ExactFitIsGuarded(g: Layout, fs: seq<seq<byte>>, k: nat, j: nat)
    requires WellFramed(fs) && Short(fs) && g.start < g.end && k <= j <= |fs| && k < |fs|
    requires Tail(fs, k) == g.size && |fs[|fs| - 1]| <= g.end
    ensures Guarded(g, fs, j)
    decreases j
  {
    TailGrows(fs, k, j);
    ShortHasNoMarkers(g, fs, |fs| - 1);
    if j < |fs| {
      ShortHasNoMarkers(g, fs, j);
    }
    if j > 0 {
      assert FrameOk(fs, j - 1) && fs[j - 1] in fs;
    }
    if !Stops(g, fs, j) {
      ShortHasNoMarkers(g, fs, j - 1);
      ExactFitIsGuarded(g, fs, k, j - 1);
    } else if j > k {
      TailGrows(fs, k, j - 1);
    }
  }

  // ---------- What is delivered on the way round ----------

  // After every round the walk is back at the newest record, and what it delivers in the
  // next `n` steps is what it delivers from there.
  lemma EveryRoundRepeats(move: Mover, g: Layout, fs: seq<seq<byte>>, k: nat, upper: nat, n: nat)
    requires Circular(move, g, fs, k)
    ensures var w, again := WalkerAt(g, fs, |fs|, upper), WalkerAt(g, fs, |fs|, PartUpper(g, fs, k, |fs|, upper));
            && Runs(move, again, n) && Runs(move, w, |fs| - k + n)
            && Shows(move, w, |fs| - k + n) == PartShows(g, fs, k, |fs|, upper) + Shows(move, again, n)
  {
    var upper' := PartUpper(g, fs, k, |fs|, upper);
    PartIsWalked(move, g, fs, k, |fs|, upper, n);
    RunsForEver(move, g, fs, k, k, upper', n);
    RunsForEver(move, g, fs, k, |fs|, upper', n);
    assert Shows(move, WalkerAt(g, fs, k, upper'), n) == Shows(move, WalkerAt(g, fs, |fs|, upper'), n);
  }

  predicate Showable(g: Layout, f: seq<byte>) {
    && FrameLength(|f|)
    && var kind := Classify(Data(f), g.isBigEndian); kind == LostRecordsWarning || kind == Deliverable
  }

  lemma {:induction false} ShowableIsShown(g: Layout, fs: seq<seq<byte>>, k: nat, j: nat, upper: nat, i: nat)
    requires k <= i < j <= |fs| && WellFramed(fs) && Showable(g, fs[i])
    ensures PartShows(g, fs, k, j, upper) != []
    decreases j
  {
    if i < j - 1 {
      assert FrameOk(fs, j - 1);
      ShowableIsShown(g, fs, k, j - 1, UpperAfter(Data(fs[j - 1]), upper, g.isBigEndian), i);
    }
  }

  lemma {:induction false} NothingIsShown(move: Mover, g: Layout, fs: seq<seq<byte>>, k: nat, j: nat, upper: nat, n: nat)
    requires Circular(move, g, fs, k) && k <= j <= |fs| && Runs(move, WalkerAt(g, fs, j, upper), n)
    requires forall i :: k <= i < |fs| ==> !Showable(g, fs[i])
    ensures Shows(move, WalkerAt(g, fs, j, upper), n) == []
    decreases n
  {
    if n > 0 {
      var i := if j == k then |fs| else j;
      assert MovesOn(move, g, fs, i, upper) && !Showable(g, fs[i - 1]);
      NothingIsShown(move, g, fs, k, i - 1, UpperAfter(Data(fs[i - 1]), upper, g.isBigEndian), n - 1);
    }
  }

  // In a walk that goes round, a call of the iterator returns if and only if some frame of
  // the round can be shown: otherwise the recursion never does.
  lemma CallReturnsExactly(move: Mover, g: Layout, fs: seq<seq<byte>>, k: nat, upper: nat)
    requires Circular(move, g, fs, k)
    ensures var w := WalkerAt(g, fs, |fs|, upper);
            (exists n: nat :: Runs(move, w, n) && Shows(move, w, n) != [])
            <==> (exists i :: k <= i < |fs| && Showable(g, fs[i]))
  {
    var w := WalkerAt(g, fs, |fs|, upper);
    if i :| k <= i < |fs| && Showable(g, fs[i]) {
      EveryRoundRepeats(move, g, fs, k, upper, 0);
      ShowableIsShown(g, fs, k, |fs|, upper, i);
      assert Runs(move, w, |fs| - k + 0) && Shows(move, w, |fs| - k + 0) != [];
    } else {
      forall n: nat | Runs(move, w, n) ensures Shows(move, w, n) == [] {
        NothingIsShown(move, g, fs, k, |fs|, upper, n);
      }
    }
  }

  // If it returns, there is no bound on what is delivered.
  lemma {:induction false} DeliveriesWithoutEnd(
    move: Mover, g: Layout, fs: seq<seq<byte>>, k: nat, i: nat, upper: nat, count: nat) returns (n: nat)
    requires Circular(move, g, fs, k) && k <= i < |fs| && Showable(g, fs[i])
    ensures var w := WalkerAt(g, fs, |fs|, upper); Runs(move, w, n) && |Shows(move, w, n)| >= count
    decreases count
  {
    n := 0;
    if count > 0 {
      var m := DeliveriesWithoutEnd(move, g, fs, k, i, PartUpper(g, fs, k, |fs|, upper), count - 1);
      EveryRoundRepeats(move, g, fs, k, upper, m);
      ShowableIsShown(g, fs, k, |fs|, upper, i);
      n := |fs| - k + m;
    }
  }
}
