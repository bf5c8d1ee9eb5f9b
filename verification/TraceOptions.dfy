/** Options of the form key1=value1:key2=value2 (omrtrcinit.c): what they mean, and that
    this is the inverse of printing them. */
module TraceOptions {
  import opened Wrappers
  import opened CStrings

  const MAXIMUM_SLOTS: nat := 55
  const MAXIMUM_PAIRS: nat := 27

  datatype Pair = Pair(key: string, value: Option<string>)

  // The part before the first '=' after the first character, and the part after it.
  function PairOf(s: string): Pair
    requires s != ""
  {
    var i := 1 + IndexOf(s[1..], '=');
    if i == |s| then Pair(s, None) else Pair(s[..i], Some(s[i + 1..]))
  }

  function SegmentLength(s: string): (n: nat)
    requires s != ""
    ensures 1 <= n <= |s|
  {
    1 + IndexOf(s[1..], ':')
  }

  function Rest(s: string): (r: string)
    requires s != ""
    ensures |r| < |s|
  {
    if SegmentLength(s) == |s| then "" else s[SegmentLength(s) + 1..]
  }

  function Prepend(p: Pair, ps: Option<seq<Pair>>): Option<seq<Pair>> {
    if ps.Some? then Some([p] + ps.value) else None
  }

  // The pairs of the options, of which an empty value is one; none if a key begins with '='.
  function RawPairs(s: string): Option<seq<Pair>>
    decreases |s|
  {
    if s == "" then Some([])
    else if s[0] == '=' then None
    else if s[0] == ':' then RawPairs(s[1..])
    else Prepend(PairOf(s[..SegmentLength(s)]), RawPairs(Rest(s)))
  }

  // An empty value is no value.
  function Normal(p: Pair): Pair {
    if p.value == Some("") then p.(value := None) else p
  }

  function Normals(ps: seq<Pair>): (ns: seq<Pair>) {
    seq(|ps|, i requires 0 <= i < |ps| => Normal(ps[i]))
  }

  // What the trace engine gets, unless there are too many pairs.
  function Parse(s: string): Option<seq<Pair>> {
    match RawPairs(s)
    case None => None
    case Some(ps) => if |ps| <= MAXIMUM_PAIRS then Some(Normals(ps)) else None
  }

  // ---------- Printing ----------

  function Colons(n: nat): string {
    seq(n, _ => ':')
  }

  function Printed(p: Pair): string {
    p.key + if p.value.Some? then "=" + p.value.value else ""
  }

  // `gaps` are the numbers of extra separators before, between and after the pairs.
  function Print(ps: seq<Pair>, gaps: seq<nat>): string
    requires |gaps| == |ps| + 1
    decreases ps, 1
  {
    if ps == [] then Colons(gaps[0]) else Colons(gaps[0]) + (Printed(ps[0]) + AfterFirst(ps, gaps))
  }

  // What follows the first pair and the separators before it.
  function AfterFirst(ps: seq<Pair>, gaps: seq<nat>): string
    requires |gaps| == |ps| + 1 && ps != []
    decreases ps, 0
  {
    if |ps| == 1 then Colons(gaps[1]) else [':'] + Print(ps[1..], gaps[1..])
  }

  predicate WellFormed(p: Pair) {
    && p.key != "" && ':' !in p.key && '=' !in p.key
    && (p.value.Some? ==> ':' !in p.value.value)
  }

  predicate AllWellFormed(ps: seq<Pair>) {
    forall i :: 0 <= i < |ps| ==> WellFormed(ps[i])
  }

  lemma {:induction false} ColonsAreSkipped(n: nat, s: string)
    ensures RawPairs(Colons(n) + s) == RawPairs(s)
  {
    if n == 0 {
      assert Colons(0) + s == s;
    } else {
      assert (Colons(n) + s)[1..] == Colons(n - 1) + s;
      ColonsAreSkipped(n - 1, s);
    }
  }

  lemma PrintedIsRead(p: Pair)
    requires WellFormed(p)
    ensures IsSegment(Printed(p)) && PairOf(Printed(p)) == p
  {
    var s := Printed(p);
    assert s[0] == p.key[0];
    if p.value.Some? {
      assert s[1..] == p.key[1..] + ['='] + p.value.value;
      IndexOfIs(p.key[1..], '=', p.value.value);
      assert s[..|p.key|] == p.key && s[|p.key| + 1..] == p.value.value;
    } else {
      assert s == p.key;
      IndexOfIs(p.key[1..], '=', "");
    }
  }

  predicate IsSegment(s: string) {
    s != "" && s[0] != ':' && s[0] != '=' && ':' !in s
  }

  lemma SegmentIsRead(s: string, rest: string)
    requires IsSegment(s)
    ensures RawPairs(s + ([':'] + rest)) == Prepend(PairOf(s), RawPairs(rest))
  {
    var t := s + ([':'] + rest);
    assert t[1..] == s[1..] + [':'] + rest;
    IndexOfIs(s[1..], ':', rest);
    assert t[..|s|] == s && t[|s| + 1..] == rest;
  }

  lemma LastSegmentIsRead(s: string, n: nat)
    requires IsSegment(s)
    ensures RawPairs(s + Colons(n)) == Some([PairOf(s)])
  {
    assert RawPairs("") == Some([]);
    if n == 0 {
      IndexOfIs(s[1..], ':', "");
      assert s[..|s|] == s && s + Colons(0) == s;
      assert SegmentLength(s) == |s| && Rest(s) == "";
      assert [PairOf(s)] + [] == [PairOf(s)];
    } else {
      assert Colons(n) == [':'] + Colons(n - 1);
      SegmentIsRead(s, Colons(n - 1));
      assert Colons(n - 1) + "" == Colons(n - 1);
      ColonsAreSkipped(n - 1, "");
    }
  }

  // Whatever has been printed is read back,
  lemma {:induction false} PrintedAreRead(ps: seq<Pair>, gaps: seq<nat>)
    requires |gaps| == |ps| + 1 && AllWellFormed(ps)
    ensures RawPairs(Print(ps, gaps)) == Some(ps)
  {
    if ps == [] {
      assert Colons(gaps[0]) + "" == Colons(gaps[0]);
      ColonsAreSkipped(gaps[0], "");
    } else {
      ColonsAreSkipped(gaps[0], Printed(ps[0]) + AfterFirst(ps, gaps));
      if |ps| > 1 {
        PrintedAreRead(ps[1..], gaps[1..]);
      }
      FirstIsRead(ps, gaps);
    }
  }

  lemma FirstIsRead(ps: seq<Pair>, gaps: seq<nat>)
    requires |gaps| == |ps| + 1 && ps != [] && WellFormed(ps[0])
    requires |ps| > 1 ==> RawPairs(Print(ps[1..], gaps[1..])) == Some(ps[1..])
    ensures RawPairs(Printed(ps[0]) + AfterFirst(ps, gaps)) == Some(ps)
  {
    PrintedIsRead(ps[0]);
    assert ps == [ps[0]] + ps[1..];
    if |ps| == 1 {
      LastSegmentIsRead(Printed(ps[0]), gaps[1]);
    } else {
      SegmentIsRead(Printed(ps[0]), Print(ps[1..], gaps[1..]));
    }
  }

  // and what can be read has been printed.
  lemma {:induction false} ReadIsPrinted(s: string) returns (gaps: seq<nat>)
    requires RawPairs(s).Some?
    ensures AllWellFormed(RawPairs(s).value)
    ensures |gaps| == |RawPairs(s).value| + 1 && s == Print(RawPairs(s).value, gaps)
    decreases |s|
  {
    if s == "" {
      gaps := [0];
    } else if s[0] == ':' {
      gaps := ReadIsPrinted(s[1..]);
      OneMoreColon(RawPairs(s).value, gaps);
      gaps := gaps[0 := gaps[0] + 1];
      assert s == [':'] + s[1..];
    } else {
      var more := ReadIsPrinted(Rest(s));
      var p, ps := PairOf(s[..SegmentLength(s)]), RawPairs(Rest(s)).value;
      SegmentIsPrinted(s);
      OneMoreWellFormed(p, ps);
      if SegmentLength(s) == |s| {
        OnlySegment(s, p, ps);
        gaps := [0, 0];
      } else {
        gaps := FirstIsPrinted(s, p, ps, more);
      }
    }
  }

  lemma FirstIsPrinted(s: string, p: Pair, ps: seq<Pair>, more: seq<nat>) returns (gaps: seq<nat>)
    requires s != "" && SegmentLength(s) < |s| && Printed(p) == s[..SegmentLength(s)]
    requires |more| == |ps| + 1 && Rest(s) == Print(ps, more)
    ensures |gaps| == |ps| + 2 && s == Print([p] + ps, gaps)
  {
    assert s == s[..SegmentLength(s)] + ([':'] + Rest(s));
    gaps := PairBefore(p, ps, more);
  }

  lemma OnlySegment(s: string, p: Pair, ps: seq<Pair>)
    requires s != "" && SegmentLength(s) == |s| && Printed(p) == s[..|s|] && RawPairs(Rest(s)) == Some(ps)
    ensures [p] + ps == [p] && ps == [] && Print([p], [0, 0]) == s
  {
    assert s[..|s|] == s && RawPairs("") == Some([]);
    OnlyPair(p);
  }

  lemma OneMoreWellFormed(p: Pair, ps: seq<Pair>)
    requires WellFormed(p) && AllWellFormed(ps)
    ensures AllWellFormed([p] + ps)
  {
  }

  lemma OnlyPair(p: Pair)
    ensures Print([p], [0, 0]) == Printed(p)
  {
    assert Print([p], [0, 0]) == Colons(0) + (Printed(p) + Colons(0));
  }

  lemma PairBefore(p: Pair, ps: seq<Pair>, more: seq<nat>) returns (gaps: seq<nat>)
    requires |more| == |ps| + 1
    ensures |gaps| == |ps| + 2
    ensures Print([p] + ps, gaps) == Printed(p) + ([':'] + Print(ps, more))
  {
    assert ([p] + ps)[1..] == ps;
    if ps == [] {
      gaps := [0, more[0] + 1];
      assert Colons(more[0] + 1) == [':'] + Colons(more[0]);
    } else {
      gaps := [0] + more;
      assert gaps[1..] == more;
    }
  }

  lemma OneMoreColon(ps: seq<Pair>, gaps: seq<nat>)
    requires |gaps| == |ps| + 1
    ensures Print(ps, gaps[0 := gaps[0] + 1]) == [':'] + Print(ps, gaps)
  {
    assert Colons(gaps[0] + 1) == [':'] + Colons(gaps[0]);
    assert gaps[0 := gaps[0] + 1][1..] == gaps[1..];
    if |ps| > 0 {
      assert gaps[0 := gaps[0] + 1][1] == gaps[1];
    }
  }

  lemma SegmentIsPrinted(s: string)
    requires s != "" && s[0] != ':' && s[0] != '='
    ensures var n := SegmentLength(s); WellFormed(PairOf(s[..n])) && Printed(PairOf(s[..n])) == s[..n]
  {
    var segment := s[..SegmentLength(s)];
    assert segment == [s[0]] + s[1..][..SegmentLength(s) - 1];
    PairIsPrinted(segment);
  }

  lemma PairIsPrinted(segment: string)
    requires IsSegment(segment)
    ensures WellFormed(PairOf(segment)) && Printed(PairOf(segment)) == segment
  {
    var i := 1 + IndexOf(segment[1..], '=');
    assert segment[..i] == [segment[0]] + segment[1..][..i - 1];
    if i < |segment| {
      assert segment == segment[..i] + ['='] + segment[i + 1..];
    } else {
      assert segment[..i] == segment;
    }
  }

  // Options are accepted exactly when they are the print of at most 27 pairs whose keys
  // are not empty, and then those pairs are what the trace engine gets.
  lemma AcceptedExactly(s: string, options: seq<Pair>)
    ensures Parse(s) == Some(options) <==>
            exists ps: seq<Pair>, gaps: seq<nat> ::
              && |gaps| == |ps| + 1 && |ps| <= MAXIMUM_PAIRS && AllWellFormed(ps)
              && s == Print(ps, gaps) && options == Normals(ps)
  {
    if Parse(s) == Some(options) {
      var gaps := ReadIsPrinted(s);
      var ps := RawPairs(s).value;
      assert |gaps| == |ps| + 1 && s == Print(ps, gaps);
    }
    forall ps: seq<Pair>, gaps: seq<nat>
      | |gaps| == |ps| + 1 && |ps| <= MAXIMUM_PAIRS && AllWellFormed(ps) && s == Print(ps, gaps) && options == Normals(ps)
      ensures Parse(s) == Some(options)
    {
      PrintedAreRead(ps, gaps);
    }
  }

  // A list of pairs is read back as it is if no value is empty, and one pair too many
  // rejects the whole list.
  lemma RoundTrip(ps: seq<Pair>, gaps: seq<nat>)
    requires |gaps| == |ps| + 1 && AllWellFormed(ps) && forall i :: 0 <= i < |ps| ==> ps[i].value != Some("")
    ensures Parse(Print(ps, gaps)) == if |ps| <= 27 then Some(ps) else None
  {
    PrintedAreRead(ps, gaps);
    assert Normals(ps) == ps;
  }

  // An empty value is read back as none.
  lemma EmptyValuesAreRead(ps: seq<Pair>, gaps: seq<nat>, i: nat)
    requires |gaps| == |ps| + 1 && AllWellFormed(ps) && i < |ps| <= 27
    ensures Parse(Print(ps, gaps)).Some? && |Parse(Print(ps, gaps)).value| == |ps|
    ensures var p := Parse(Print(ps, gaps)).value[i];
            && p.key == ps[i].key && p.value != Some("")
            && (ps[i].value != p.value ==> ps[i].value == Some("") && p.value == None)
  {
    PrintedAreRead(ps, gaps);
  }
}
