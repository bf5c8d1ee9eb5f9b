/** The parser of trace options (omrtrcinit.c): it cuts a copy of the options into strings
    in place and fills an array with their positions. */
module TraceOptionParser {
  import opened Wrappers
  import opened CStrings
  import opened TraceOptions

  datatype Code = NoError | IllegalArgument | OutOfNativeMemory

  // A slot that is not NULL has the position of a string in the copy.
  type Slot = Option<nat>

  function SkipColons(s: string): (r: string)
    ensures |r| <= |s| && r == s[|s| - |r|..] && (r != "" ==> r[0] != ':')
  {
    if s != "" && s[0] == ':' then SkipColons(s[1..]) else s
  }

  lemma {:induction false} SkippedMeansTheSame(s: string)
    ensures RawPairs(SkipColons(s)) == RawPairs(s) && Parse(SkipColons(s)) == Parse(s)
  {
    if s != "" && s[0] == ':' {
      SkippedMeansTheSame(s[1..]);
    }
  }

  function Text(s: Option<string>): string {
    if s.Some? then s.value else ""
  }

  // ---------- What the slots hold ----------

  predicate HoldsString(slot: Slot, buffer: seq<char>, s: Option<string>) {
    match s
    case None => slot == None
    case Some(t) => slot.Some? && IsStringAt(buffer, slot.value, t)
  }

  predicate HoldsPair(slots: seq<Slot>, buffer: seq<char>, i: nat, p: Pair) {
    && 2 * i + 1 < |slots|
    && HoldsString(slots[2 * i], buffer, Some(p.key))
    && HoldsString(slots[2 * i + 1], buffer, p.value)
  }

  predicate HoldsPairs(slots: seq<Slot>, buffer: seq<char>, ps: seq<Pair>) {
    ps == [] ||
    (HoldsPairs(slots, buffer, ps[..|ps| - 1]) && HoldsPair(slots, buffer, |ps| - 1, ps[|ps| - 1]))
  }

  // Key and value of each pair in turn, and then a NULL.
  predicate HoldsOptions(slots: seq<Slot>, buffer: seq<char>, ps: seq<Pair>) {
    && 2 * |ps| < |slots|
    && (forall i :: 0 <= i < |ps| ==> HoldsPair(slots, buffer, i, ps[i]))
    && slots[2 * |ps|] == None
  }

  lemma {:induction false} HoldsEach(slots: seq<Slot>, buffer: seq<char>, ps: seq<Pair>, i: nat)
    requires HoldsPairs(slots, buffer, ps) && i < |ps|
    ensures HoldsPair(slots, buffer, i, ps[i])
  {
    if i < |ps| - 1 {
      HoldsEach(slots, buffer, ps[..|ps| - 1], i);
    }
  }

  lemma {:induction false} HoldsLonger(slots: seq<Slot>, buffer: seq<char>, more: seq<Slot>, longer: seq<char>, ps: seq<Pair>)
    requires HoldsPairs(slots, buffer, ps) && buffer <= longer
    requires 2 * |ps| <= |slots| && 2 * |ps| <= |more| && more[..2 * |ps|] == slots[..2 * |ps|]
    ensures HoldsPairs(more, longer, ps)
  {
    if ps != [] {
      var n := |ps| - 1;
      assert more[..2 * n] == more[..2 * |ps|][..2 * n] == slots[..2 * n];
      HoldsLonger(slots, buffer, more, longer, ps[..n]);
      assert more[2 * n] == more[..2 * |ps|][2 * n] == slots[2 * n];
      assert more[2 * n + 1] == more[..2 * |ps|][2 * n + 1] == slots[2 * n + 1];
      StaysReadable(buffer, longer, slots[2 * n].value, ps[n].key);
      if ps[n].value.Some? {
        StaysReadable(buffer, longer, slots[2 * n + 1].value, ps[n].value.value);
      }
    }
  }

  // ---------- Parsing ----------

  lemma {:induction false} IndexOfIsAt(s: string, c: char, k: nat)
    requires k <= |s| && c !in s[..k] && (k < |s| ==> s[k] == c)
    ensures IndexOf(s, c) == k
  {
    if k > 0 {
      assert s[0] == s[..k][0] && s[..k][1..] == s[1..][..k - 1];
      IndexOfIsAt(s[1..], c, k - 1);
    }
  }

  // The first `c` at `from` or after it, in the string that is there.
  method Strchr(buffer: array<char>, from: nat, c: char, ghost s: string) returns (i: Option<nat>)
    requires IsStringAt(buffer[..], from, s) && c != '\0'
    ensures i == if IndexOf(s, c) < |s| then Some(from + IndexOf(s, c)) else None
  {
    var k := from;
    assert forall j :: 0 <= j < |s| ==> s[j] == buffer[..][from..from + |s|][j];
    while buffer[k] != '\0' && buffer[k] != c
      invariant from <= k <= from + |s| && c !in s[..k - from]
      invariant buffer[k] == if k < from + |s| then s[k - from] else '\0'
      decreases from + |s| - k
    {
      assert s[..k + 1 - from] == s[..k - from] + [s[k - from]];
      k := k + 1;
    }
    i := if buffer[k] == c then Some(k) else None;
    IndexOfIsAt(s, c, k - from);
  }

  lemma {:induction false} IndexOfPrefix(s: string, c: char, n: nat)
    requires n <= |s|
    ensures IndexOf(s[..n], c) == if IndexOf(s, c) < n then IndexOf(s, c) else n
  {
    if n > 0 && s[0] != c {
      assert s[..n][1..] == s[1..][..n - 1];
      IndexOfPrefix(s[1..], c, n - 1);
    }
  }

  // Where the '=' of a segment is, if it has one.
  function Separator(segment: string): (i: nat)
    requires segment != ""
    ensures 1 <= i <= |segment|
  {
    1 + IndexOf(segment[1..], '=')
  }

  function ValueSlot(key: nat, segment: string): Slot
    requires segment != ""
  {
    var i := Separator(segment);
    if i < |segment| then Some(key + i + 1) else None
  }

  // The '=' of the first segment is the first one there is, if it is in front of the ':'.
  lemma SeparatorIsFirst(rest: string)
    requires rest != ""
    ensures var n, first := SegmentLength(rest), 1 + IndexOf(rest[1..], '=');
            && Separator(rest[..n]) == (if first < n then first else n)
            && (n < |rest| ==> first != n)
  {
    var n := SegmentLength(rest);
    assert rest[..n][1..] == rest[1..][..n - 1];
    IndexOfPrefix(rest[1..], '=', n - 1);
  }

  // A segment is cut when it ends with a NUL and its '=' has been made one.
  predicate IsCut(buffer: seq<char>, key: nat, segment: string)
    requires segment != ""
  {
    var n, i := |segment|, Separator(segment);
    && key + n + 1 == |buffer| && buffer[key + n] == '\0'
    && buffer[key..key + i] == segment[..i]
    && (i < n ==> buffer[key + i] == '\0' && buffer[key + i + 1..key + n] == segment[i + 1..])
  }

  lemma CutHoldsPair(buffer: seq<char>, key: nat, segment: string)
    requires segment != "" && IsCut(buffer, key, segment) && '\0' !in segment
    ensures HoldsString(Some(key), buffer, Some(PairOf(segment).key))
    ensures HoldsString(ValueSlot(key, segment), buffer, PairOf(segment).value)
  {
    var i := Separator(segment);
    if i == |segment| {
      assert segment[..i] == segment;
    }
  }

  function Cut(buffer: seq<char>, key: nat, segment: string): (cut: seq<char>)
    requires segment != "" && key + |segment| < |buffer|
    ensures |cut| == |buffer|
  {
    var n, i := |segment|, Separator(segment);
    (if i < n then buffer[key + i := '\0'] else buffer)[key + n := '\0']
  }

  lemma CutIsCut(buffer: seq<char>, key: nat, segment: string)
    requires segment != "" && key + |segment| < |buffer| && buffer[key..key + |segment|] == segment
    ensures var n, cut := |segment|, Cut(buffer, key, segment);
            && cut[..key] == buffer[..key]
            && IsCut(cut[..key + n + 1], key, segment)
            && cut[key + n + 1..] == buffer[key + n + 1..]
  {
    var n, i, cut := |segment|, Separator(segment), Cut(buffer, key, segment);
    var part := cut[..key + n + 1];
    forall j | 0 <= j < n && j != i ensures part[key + j] == segment[j] {
      assert segment[j] == buffer[key..key + n][j];
    }
    assert part[key..key + i] == segment[..i];
    if i < n {
      assert part[key + i + 1..key + n] == segment[i + 1..];
    }
  }

  // Where the next '=' and the next ':' are after the first character of a key.
  method FindEnds(copy: array<char>, key: nat, ghost rest: string) returns (value: Slot, next: Option<nat>)
    requires Left(copy[..], key, rest) && rest != ""
    ensures var n, i := SegmentLength(rest), Separator(rest[..SegmentLength(rest)]);
            && next == (if n == |rest| then None else Some(key + n))
            && (if i < n then value == Some(key + i) else value.None? || key + n < value.value < copy.Length)
            && (next.None? && i == n ==> value.None?)
  {
    StringFrom(copy[..], key, rest, 1);
    SeparatorIsFirst(rest);
    value := Strchr(copy, key + 1, '=', rest[1..]);
    next := Strchr(copy, key + 1, ':', rest[1..]);
  }

  // One key and its value are cut out at `key`; `next` is where the next key begins.
  method CutPair(copy: array<char>, key: nat, ghost rest: string) returns (value: Slot, next: Option<nat>)
    requires Left(copy[..], key, rest)
    requires rest != "" && rest[0] != ':' && rest[0] != '='
    modifies copy
    ensures var n := SegmentLength(rest);
            && copy[..] == Cut(old(copy[..]), key, rest[..n])
            && next == NextKey(key, rest)
            && value == ValueSlot(key, rest[..n])
  {
    value, next := FindEnds(copy, key, rest);
    if next == None {
      if value != None {
        copy[value.value] := '\0';
        value := Some(value.value + 1);
      }
    } else {
      if value != None {
        if value.value < next.value {
          copy[value.value] := '\0';
          value := Some(value.value + 1);
        } else {
          value := None;
        }
      }
      copy[next.value] := '\0';
      next := Some(next.value + 1);
    }
  }

  // When the next segment has been cut, the slots hold one pair more,
  lemma CutAddsPair(slots: seq<Slot>, buffer: seq<char>, key: nat, segment: string, ps: seq<Pair>, end: nat)
    requires segment != "" && '\0' !in segment && key + |segment| + 1 == end <= |buffer|
    requires buffer[key..key + |segment|] == segment
    requires 2 * |ps| + 1 < |slots| && HoldsPairs(slots, buffer[..key], ps)
    ensures HoldsPairs(slots[2 * |ps| := Some(key)][2 * |ps| + 1 := ValueSlot(key, segment)],
                       Cut(buffer, key, segment)[..end], ps + [PairOf(segment)])
  {
    var cut := Cut(buffer, key, segment)[..end];
    CutIsCut(buffer, key, segment);
    assert cut[..key] == buffer[..key];
    CutHoldsPairs(slots, buffer[..key], cut, segment, ps);
  }

  lemma CutHoldsPairs(slots: seq<Slot>, before: seq<char>, buffer: seq<char>, segment: string, ps: seq<Pair>)
    requires segment != "" && '\0' !in segment && before <= buffer && IsCut(buffer, |before|, segment)
    requires 2 * |ps| + 1 < |slots| && HoldsPairs(slots, before, ps)
    ensures HoldsPairs(slots[2 * |ps| := Some(|before|)][2 * |ps| + 1 := ValueSlot(|before|, segment)],
                       buffer, ps + [PairOf(segment)])
  {
    var more := slots[2 * |ps| := Some(|before|)][2 * |ps| + 1 := ValueSlot(|before|, segment)];
    HoldsLonger(slots, before, more, buffer, ps);
    CutHoldsPair(buffer, |before|, segment);
    assert HoldsPair(more, buffer, |ps|, PairOf(segment));
    assert (ps + [PairOf(segment)])[..|ps|] == ps;
  }

  // and the rest of the options is still there behind it.
  lemma CutLeavesRest(buffer: seq<char>, cut: seq<char>, key: nat, rest: string, m: nat)
    requires Left(buffer, key, rest) && m <= |rest|
    requires |cut| == |buffer| && cut[key + m..] == buffer[key + m..]
    ensures Left(cut, key + m, rest[m..])
  {
    StringFrom(buffer, key, rest, m);
    SameFrom(buffer, cut, key + m, rest[m..]);
  }

  lemma SegmentIsThere(buffer: seq<char>, key: nat, rest: string, n: nat)
    requires Left(buffer, key, rest) && n <= |rest|
    ensures buffer[key..key + n] == rest[..n]
  {
    assert buffer[key..key + n] == buffer[key..key + |rest|][..n];
  }

  lemma StringFrom(buffer: seq<char>, key: nat, s: string, m: nat)
    requires IsStringAt(buffer, key, s) && m <= |s|
    ensures IsStringAt(buffer, key + m, s[m..])
  {
    assert buffer[key + m..key + |s|] == buffer[key..key + |s|][m..];
  }

  lemma SameFrom(buffer: seq<char>, other: seq<char>, at: nat, s: string)
    requires IsStringAt(buffer, at, s) && |buffer| == |other| && buffer[at..] == other[at..]
    ensures IsStringAt(other, at, s)
  {
    assert other[at + |s|] == other[at..][|s|] && buffer[at + |s|] == buffer[at..][|s|];
    assert other[at..at + |s|] == other[at..][..|s|];
    assert buffer[at..at + |s|] == buffer[at..][..|s|];
  }

  function Onto(ps: seq<Pair>, more: Option<seq<Pair>>): Option<seq<Pair>> {
    if more.Some? then Some(ps + more.value) else None
  }

  lemma OntoPrepend(ps: seq<Pair>, p: Pair, more: Option<seq<Pair>>)
    ensures Onto(ps, Prepend(p, more)) == Onto(ps + [p], more)
  {
    if more.Some? {
      assert ps + ([p] + more.value) == ps + [p] + more.value;
    }
  }

  // The pairs in front of `end` have been cut out; `rest` is what remains.
  predicate Cutting(slots: seq<Slot>, buffer: seq<char>, end: nat, ps: seq<Pair>) {
    && end <= |buffer| && 2 * |ps| < MAXIMUM_SLOTS == |slots|
    && HoldsPairs(slots, buffer[..end], ps)
  }

  predicate Remains(text: string, ps: seq<Pair>, rest: string) {
    RawPairs(text) == Onto(ps, RawPairs(rest))
  }

  predicate Left(buffer: seq<char>, end: nat, rest: string) {
    IsStringAt(buffer, end, rest) && end + |rest| + 1 == |buffer|
  }

  // The next key is at `end`, or there is none.
  predicate Underway(slots: seq<Slot>, buffer: seq<char>, key: Slot, end: nat, ps: seq<Pair>, rest: string) {
    && Cutting(slots, buffer, end, ps)
    && (if key.Some? then key.value == end && Left(buffer, end, rest) else rest == "")
  }

  lemma AllRemains(text: string)
    ensures Remains(text, [], text)
  {
    assert RawPairs(text).Some? ==> [] + RawPairs(text).value == RawPairs(text).value;
  }

  lemma ColonSkipped(text: string, ps: seq<Pair>, rest: string)
    requires Remains(text, ps, rest) && rest != "" && rest[0] == ':'
    ensures Remains(text, ps, rest[1..])
  {
  }

  lemma PairCut(text: string, ps: seq<Pair>, rest: string)
    requires Remains(text, ps, rest) && rest != "" && rest[0] != ':' && rest[0] != '='
    ensures Remains(text, ps + [PairOf(rest[..SegmentLength(rest)])], Rest(rest)) && |Rest(rest)| < |rest|
  {
    OntoPrepend(ps, PairOf(rest[..SegmentLength(rest)]), RawPairs(Rest(rest)));
  }

  lemma NoKey(text: string, ps: seq<Pair>, rest: string)
    requires Remains(text, ps, rest) && rest != "" && rest[0] == '='
    ensures Parse(text).None?
  {
  }

  lemma TooManyPairs(text: string, ps: seq<Pair>, rest: string)
    requires Remains(text, ps, rest) && |ps| >= MAXIMUM_PAIRS
    requires rest != "" && rest[0] != '=' && rest[0] != ':'
    ensures Parse(text).None?
  {
  }

  lemma NothingRemains(text: string, ps: seq<Pair>)
    requires Remains(text, ps, "") && |ps| <= MAXIMUM_PAIRS
    ensures Parse(text).Some? && RawPairs(text) == Some(ps)
  {
    assert RawPairs("") == Some([]) && ps + [] == ps;
  }

  lemma CuttingSkips(slots: seq<Slot>, buffer: seq<char>, end: nat, ps: seq<Pair>, rest: string)
    requires Underway(slots, buffer, Some(end), end, ps, rest) && rest != ""
    ensures Underway(slots, buffer, Some(end + 1), end + 1, ps, rest[1..])
  {
    StringFrom(buffer, end, rest, 1);
    HoldsLonger(slots, buffer[..end], slots, buffer[..end + 1], ps);
  }

  function NextKey(key: nat, rest: string): Slot
    requires rest != ""
  {
    if SegmentLength(rest) == |rest| then None else Some(key + SegmentLength(rest) + 1)
  }

  lemma RestIsLeft(buffer: seq<char>, key: nat, rest: string)
    requires Left(buffer, key, rest) && rest != "" && SegmentLength(rest) < |rest|
    ensures var n := SegmentLength(rest); Left(Cut(buffer, key, rest[..n]), key + n + 1, rest[n + 1..])
  {
    var n := SegmentLength(rest);
    SegmentIsThere(buffer, key, rest, n);
    CutIsCut(buffer, key, rest[..n]);
    CutLeavesRest(buffer, Cut(buffer, key, rest[..n]), key, rest, n + 1);
  }

  lemma CutGoesOn(slots: seq<Slot>, buffer: seq<char>, key: nat, ps: seq<Pair>, rest: string, n: nat)
    requires 2 * |ps| + 2 < MAXIMUM_SLOTS == |slots| && key <= |buffer| && HoldsPairs(slots, buffer[..key], ps)
    requires Left(buffer, key, rest) && 0 < n <= |rest|
    ensures HoldsPairs(slots[2 * |ps| := Some(key)][2 * |ps| + 1 := ValueSlot(key, rest[..n])],
                       Cut(buffer, key, rest[..n])[..key + n + 1], ps + [PairOf(rest[..n])])
  {
    SegmentIsThere(buffer, key, rest, n);
    CutAddsPair(slots, buffer, key, rest[..n], ps, key + n + 1);
  }

  lemma StillUnderway(slots: seq<Slot>, buffer: seq<char>, key: nat, ps: seq<Pair>, rest: string)
    requires Underway(slots, buffer, Some(key), key, ps, rest) && |ps| < MAXIMUM_PAIRS && rest != ""
    ensures var n := SegmentLength(rest);
            Underway(slots[2 * |ps| := Some(key)][2 * |ps| + 1 := ValueSlot(key, rest[..n])],
                     Cut(buffer, key, rest[..n]), NextKey(key, rest), key + n + 1, ps + [PairOf(rest[..n])], Rest(rest))
  {
    CutGoesOn(slots, buffer, key, ps, rest, SegmentLength(rest));
    if SegmentLength(rest) < |rest| {
      RestIsLeft(buffer, key, rest);
    }
  }

  // How far the parser has come.
  datatype Progress = Progress(end: nat, ps: seq<Pair>, rest: string) {
    // After the next pair.
    function Taken(): Progress
      requires rest != ""
    {
      var n := SegmentLength(rest);
      Progress(end + n + 1, ps + [PairOf(rest[..n])], Rest(rest))
    }
  }

  // The next pair is cut out, and its slots are filled.
  method CutNext(trcOpts: array<Slot>, copy: array<char>, key: nat, optIndex: nat, ghost p: Progress) returns (next: Option<nat>)
    requires Underway(trcOpts[..], copy[..], Some(key), key, p.ps, p.rest) && p.end == key
    requires optIndex == 2 * |p.ps| && |p.ps| < MAXIMUM_PAIRS
    requires p.rest != "" && p.rest[0] != ':' && p.rest[0] != '='
    modifies trcOpts, copy
    ensures var p' := p.Taken(); Underway(trcOpts[..], copy[..], next, p'.end, p'.ps, p'.rest)
    ensures trcOpts[0] == if optIndex == 0 then Some(key) else old(trcOpts[0])
  {
    ghost var segment := p.rest[..SegmentLength(p.rest)];
    ghost var slots := trcOpts[..][optIndex := Some(key)][optIndex + 1 := ValueSlot(key, segment)];
    ghost var cut := Cut(copy[..], key, segment);
    StillUnderway(trcOpts[..], copy[..], key, p.ps, p.rest);
    var value;
    value, next := CutPair(copy, key, p.rest);
    trcOpts[optIndex] := Some(key);
    trcOpts[optIndex + 1] := value;
    assert trcOpts[..] == slots && copy[..] == cut;
  }

  // The first key is where the copy begins.
  predicate FromStart(slots: seq<Slot>, text: string, p: Progress) {
    if p.ps == [] then p.end == 0 && p.rest == text else |slots| > 0 && slots[0] == Some(0)
  }

  // The character at the key decides. Nothing more is to be done after an error.
  method ParseKey(trcOpts: array<Slot>, copy: array<char>, key: nat, optIndex: nat, ghost text: string, ghost p: Progress)
    returns (rc: Code, next: Option<nat>, optIndex': nat, ghost p': Progress)
    requires Underway(trcOpts[..], copy[..], Some(key), p.end, p.ps, p.rest) && Remains(text, p.ps, p.rest)
    requires optIndex == 2 * |p.ps| && p.rest != "" && copy[key] == p.rest[0]
    requires FromStart(trcOpts[..], text, p) && text[0] != ':'
    modifies trcOpts, copy
    ensures |p'.rest| < |p.rest|
    ensures rc == NoError ==>
      && optIndex' == 2 * |p'.ps|
      && Underway(trcOpts[..], copy[..], next, p'.end, p'.ps, p'.rest) && Remains(text, p'.ps, p'.rest)
      && p'.ps != [] && trcOpts[0] == Some(0)
    ensures rc != NoError ==> rc == IllegalArgument && next.None? && Parse(text).None?
  {
    rc, next, optIndex', p' := NoError, None, optIndex, p.(rest := p.rest[1..]);
    if copy[key] == '=' {
      NoKey(text, p.ps, p.rest);
      rc := IllegalArgument;
    } else if copy[key] == ':' {
      ColonSkipped(text, p.ps, p.rest);
      CuttingSkips(trcOpts[..], copy[..], p.end, p.ps, p.rest);
      next := Some(key + 1);
      p' := p.(rest := p.rest[1..], end := p.end + 1);
    } else if optIndex + 3 > MAXIMUM_SLOTS {
      TooManyPairs(text, p.ps, p.rest);
      rc := IllegalArgument;
    } else {
      PairCut(text, p.ps, p.rest);
      p' := p.Taken();
      next := CutNext(trcOpts, copy, key, optIndex, p);
      optIndex' := optIndex + 2;
    }
  }

  // All pairs are cut out, as long as there are slots for them; an empty value is still an
  // empty string.
  method CutPairs(trcOpts: array<Slot>, copy: array<char>, ghost text: string) returns (rc: Code, optIndex: nat)
    requires trcOpts.Length == MAXIMUM_SLOTS && Left(copy[..], 0, text) && text != "" && text[0] != ':'
    modifies trcOpts, copy
    ensures rc == (if Parse(text).Some? then NoError else IllegalArgument)
    ensures rc == NoError ==> trcOpts[0] == Some(0)
    ensures rc == NoError ==>
              && optIndex == 2 * |RawPairs(text).value|
              && HoldsPairs(trcOpts[..], copy[..], RawPairs(text).value)
  {
    rc, optIndex := NoError, 0;
    var key: Option<nat> := Some(0);
    ghost var p := Progress(0, [], text);
    AllRemains(text);
    while key.Some? && copy[key.value] != '\0'
      invariant rc == NoError ==>
        && optIndex == 2 * |p.ps|
        && Underway(trcOpts[..], copy[..], key, p.end, p.ps, p.rest) && Remains(text, p.ps, p.rest)
        && FromStart(trcOpts[..], text, p)
      invariant rc != NoError ==> rc == IllegalArgument && key.None? && Parse(text).None?
      decreases |p.rest|
    {
      EmptyIsNul(copy[..], p.end, p.rest);
      rc, key, optIndex, p := ParseKey(trcOpts, copy, key.value, optIndex, text, p);
    }
    if rc == NoError {
      if key.Some? {
        EmptyIsNul(copy[..], p.end, p.rest);
      }
      NothingRemains(text, p.ps);
      HoldsLonger(trcOpts[..], copy[..p.end], trcOpts[..], copy[..], p.ps);
    }
  }

  // Slots of empty strings become NULL.
  method DropEmpty(trcOpts: array<Slot>, copy: array<char>, optIndex: nat, ghost ps: seq<Pair>)
    requires optIndex == 2 * |ps| < trcOpts.Length && AllWellFormed(ps)
    requires HoldsPairs(trcOpts[..], copy[..], ps) && trcOpts[optIndex] == None
    modifies trcOpts
    ensures HoldsOptions(trcOpts[..], copy[..], Normals(ps))
    ensures ps != [] ==> trcOpts[0] == old(trcOpts[0])
  {
    ghost var slots := trcOpts[..];
    for i := 0 to optIndex
      invariant trcOpts[..] == DroppedUpTo(slots, copy[..], i)
    {
      SlotInBuffer(slots, copy[..], ps, i);
      assert trcOpts[i] == slots[i];
      if trcOpts[i].Some? && copy[trcOpts[i].value] == '\0' {
        trcOpts[i] := None;
      }
    }
    AllDroppedHold(slots, trcOpts[..], copy[..], ps);
    if ps != [] {
      assert HoldsPair(trcOpts[..], copy[..], 0, Normals(ps)[0]);
    }
  }

  function DroppedUpTo(slots: seq<Slot>, buffer: seq<char>, n: nat): (after: seq<Slot>)
    ensures |after| == |slots|
  {
    seq(|slots|, j requires 0 <= j < |slots| => if j < n then Dropped(slots, buffer, j) else slots[j])
  }

  lemma SlotInBuffer(slots: seq<Slot>, buffer: seq<char>, ps: seq<Pair>, i: nat)
    requires HoldsPairs(slots, buffer, ps) && i < 2 * |ps| <= |slots|
    ensures slots[i].Some? ==> slots[i].value < |buffer|
  {
    HoldsEach(slots, buffer, ps, i / 2);
    assert i == 2 * (i / 2) || i == 2 * (i / 2) + 1;
  }

  lemma AllDroppedHold(slots: seq<Slot>, after: seq<Slot>, buffer: seq<char>, ps: seq<Pair>)
    requires HoldsPairs(slots, buffer, ps) && AllWellFormed(ps) && 2 * |ps| < |slots| == |after|
    requires forall j :: 0 <= j < 2 * |ps| ==> after[j] == Dropped(slots, buffer, j)
    requires after[2 * |ps|] == None
    ensures HoldsOptions(after, buffer, Normals(ps))
  {
    forall k | 0 <= k < |ps| ensures HoldsPair(after, buffer, k, Normals(ps)[k]) {
      HoldsEach(slots, buffer, ps, k);
      assert WellFormed(ps[k]);
      DroppedHolds(slots, after, buffer, k, ps[k]);
    }
  }

  lemma DroppedHolds(slots: seq<Slot>, after: seq<Slot>, buffer: seq<char>, k: nat, p: Pair)
    requires HoldsPair(slots, buffer, k, p) && p.key != "" && 2 * k + 1 < |after|
    requires after[2 * k] == Dropped(slots, buffer, 2 * k) && after[2 * k + 1] == Dropped(slots, buffer, 2 * k + 1)
    ensures HoldsPair(after, buffer, k, Normal(p))
  {
    EmptyIsNul(buffer, slots[2 * k].value, p.key);
    if p.value.Some? {
      EmptyIsNul(buffer, slots[2 * k + 1].value, p.value.value);
    }
  }

  function Dropped(slots: seq<Slot>, buffer: seq<char>, j: nat): Slot
    requires j < |slots|
  {
    if slots[j].Some? && slots[j].value < |buffer| && buffer[slots[j].value] == '\0' then None else slots[j]
  }

  lemma EmptyIsNul(buffer: seq<char>, offset: nat, s: string)
    requires IsStringAt(buffer, offset, s)
    ensures buffer[offset] == '\0' <==> s == ""
    ensures s != "" ==> buffer[offset] == s[0]
  {
    if s != "" {
      assert buffer[offset] == buffer[offset..offset + |s|][0] == s[0];
    }
  }

  lemma RawPairsAreWellFormed(s: string)
    requires RawPairs(s).Some?
    ensures AllWellFormed(RawPairs(s).value)
  {
    var _ := ReadIsPrinted(s);
  }

  // The first slot is the start of the copy, which is how the copy is freed, unless there
  // is no copy. `memory` tells whether the copy can be allocated. Nothing is said about the slots if
  // the options are rejected: the copy is freed then.
  method ParseTraceOptions(trcOpts: array<Slot>, traceOptString: Option<string>, memory: bool)
    returns (rc: Code, copy: array<char>)
    requires trcOpts.Length == MAXIMUM_SLOTS && '\0' !in Text(traceOptString)
    modifies trcOpts
    ensures fresh(copy)
    ensures rc == (if SkipColons(Text(traceOptString)) == "" then NoError
                   else if !memory then OutOfNativeMemory
                   else if Parse(Text(traceOptString)).Some? then NoError
                   else IllegalArgument)
    ensures rc == NoError ==>
              && Parse(Text(traceOptString)).Some?
              && HoldsOptions(trcOpts[..], copy[..], Parse(Text(traceOptString)).value)
              && trcOpts[0] == if SkipColons(Text(traceOptString)) == "" then None else Some(0)
  {
    rc, copy := NoError, new char[0];
    trcOpts[0] := None;
    if traceOptString.Some? && traceOptString.value != "" {
      var s := traceOptString.value;
      var firstKey := FirstKey(s);
      SkippedMeansTheSame(s);
      if firstKey < |s| {
        if memory {
          copy := CopyFrom(s, firstKey);
          rc := ParseCopy(trcOpts, copy, SkipColons(s));
        } else {
          rc := OutOfNativeMemory;
        }
      }
    }
    if SkipColons(Text(traceOptString)) == "" {
      NothingToParse(Text(traceOptString), trcOpts[..], copy[..]);
    }
  }

  lemma NothingToParse(s: string, slots: seq<Slot>, buffer: seq<char>)
    requires SkipColons(s) == "" && |slots| > 0 && slots[0] == None
    ensures Parse(s) == Some([]) && HoldsOptions(slots, buffer, [])
  {
    SkippedMeansTheSame(s);
    assert RawPairs("") == Some([]) && Normals([]) == [];
  }

  method FirstKey(s: string) returns (firstKey: nat)
    ensures firstKey <= |s| && s[firstKey..] == SkipColons(s)
  {
    firstKey := 0;
    while firstKey < |s| && s[firstKey] == ':'
      invariant firstKey <= |s| && SkipColons(s[firstKey..]) == SkipColons(s)
    {
      firstKey := firstKey + 1;
    }
  }

  method CopyFrom(s: string, firstKey: nat) returns (copy: array<char>)
    requires firstKey <= |s| && '\0' !in s
    ensures fresh(copy) && Left(copy[..], 0, s[firstKey..])
  {
    copy := new char[|s| - firstKey + 1](
      i requires 0 <= i < |s| - firstKey + 1 => if firstKey + i < |s| then s[firstKey + i] else '\0');
    assert copy[..][0..|s| - firstKey] == s[firstKey..];
  }

  method ParseCopy(trcOpts: array<Slot>, copy: array<char>, ghost text: string) returns (rc: Code)
    requires trcOpts.Length == MAXIMUM_SLOTS && Left(copy[..], 0, text) && text != "" && text[0] != ':'
    modifies trcOpts, copy
    ensures rc == (if Parse(text).Some? then NoError else IllegalArgument)
    ensures rc == NoError ==> HoldsOptions(trcOpts[..], copy[..], Parse(text).value) && trcOpts[0] == Some(0)
  {
    var optIndex;
    rc, optIndex := CutPairs(trcOpts, copy, text);
    if rc == NoError {
      ghost var ps := RawPairs(text).value;
      HoldsLonger(trcOpts[..], copy[..], trcOpts[..][optIndex := None], copy[..], ps);
      RawPairsAreWellFormed(text);
      trcOpts[optIndex] := None;
      DropEmpty(trcOpts, copy, optIndex, ps);
    }
  }
}
