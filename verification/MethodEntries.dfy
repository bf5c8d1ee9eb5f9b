/** What retrieving method descriptions means (OMR_MethodDictionary.cpp), stated on
    values: a table of entries, a list of requested keys, and a number of name bytes. */
module MethodEntries {
  import opened Wrappers
  import opened CStrings

  type Key = int

  // The property strings of a method; a property may be missing.
  type Entry = seq<Option<string>>

  predicate ValidEntry(e: Entry, numProperties: nat) {
    |e| == numProperties && forall i :: 0 <= i < |e| && e[i].Some? ==> '\0' !in e[i].value
  }

  // The bytes of the names, each with its terminator.
  function NameBytes(e: Entry): nat {
    if e == [] then 0
    else NameBytes(e[..|e| - 1]) + if e[|e| - 1].None? then 0 else |e[|e| - 1].value| + 1
  }

  function Packed(e: Entry): (p: seq<char>)
    ensures |p| == NameBytes(e)
  {
    if e == [] then []
    else Packed(e[..|e| - 1]) + if e[|e| - 1].None? then [] else e[|e| - 1].value + ['\0']
  }

  // Where the names are when they are packed from `position` on.
  function Offsets(e: Entry, position: nat): (offsets: seq<Option<nat>>)
    ensures |offsets| == |e|
  {
    if e == [] then []
    else Offsets(e[..|e| - 1], position)
         + [if e[|e| - 1].None? then None else Some(position + NameBytes(e[..|e| - 1]))]
  }

  // A packed entry can be read back, string by string.
  lemma {:induction false} PackedIsReadable(before: seq<char>, e: Entry, after: seq<char>, i: nat)
    requires i < |e| && ValidEntry(e, |e|)
    ensures match e[i]
            case None => Offsets(e, |before|)[i] == None
            case Some(s) =>
              && Offsets(e, |before|)[i].Some?
              && IsStringAt(before + Packed(e) + after, Offsets(e, |before|)[i].value, s)
    decreases |e|
  {
    var n := |e| - 1;
    var last := if e[n].None? then [] else e[n].value + ['\0'];
    assert before + Packed(e) + after == before + Packed(e[..n]) + (last + after);
    if i < n {
      PackedIsReadable(before, e[..n], last + after, i);
    } else if e[n].Some? {
      var all, start := before + Packed(e[..n]) + (last + after), |before| + NameBytes(e[..n]);
      assert all[start..start + |e[n].value|] == e[n].value;
    }
  }

  // ---------- Retrieving ----------

  datatype Reason = Delivered | NotAvailable | Retry

  datatype Collected = Collected(
    table: map<Key, Entry>,
    retry: bool,
    firstRetry: nat,
    remaining: nat,
    reasons: seq<Reason>,
    values: seq<seq<Option<nat>>>,
    packed: seq<char>,
    delivered: seq<Key>)

  function Next(c: Collected, key: Key, nameBytes: nat): Collected {
    if key !in c.table then
      c.(reasons := c.reasons + [NotAvailable], values := c.values + [[]])
    else
      var e := c.table[key];
      if c.retry then
        c.(reasons := c.reasons + [Retry], values := c.values + [[]], remaining := c.remaining + NameBytes(e))
      else if NameBytes(e) <= nameBytes - |c.packed| then
        c.(reasons := c.reasons + [Delivered], values := c.values + [Offsets(e, |c.packed|)],
           packed := c.packed + Packed(e), delivered := c.delivered + [key], table := c.table - {key})
      else
        c.(reasons := c.reasons + [Retry], values := c.values + [[]], retry := true, firstRetry := |c.reasons|,
           remaining := NameBytes(e))
  }

  function Collect(table: map<Key, Entry>, keys: seq<Key>, nameBytes: nat): (c: Collected)
    ensures |c.reasons| == |c.values| == |keys|
  {
    if keys == [] then Collected(table, false, 0, 0, [], [], [], [])
    else Next(Collect(table, keys[..|keys| - 1], nameBytes), keys[|keys| - 1], nameBytes)
  }

  function Members(keys: seq<Key>): set<Key> {
    set k | k in keys
  }

  lemma MembersAppend(keys: seq<Key>, key: Key)
    ensures Members(keys + [key]) == Members(keys) + {key}
  {
  }

  predicate NoRepeats(keys: seq<Key>) {
    forall i, j :: 0 <= i < j < |keys| ==> keys[i] != keys[j]
  }

  // What is left in the table is what was not delivered; nothing is delivered twice, and
  // the names delivered fit in the bytes there are.
  lemma {:induction false} DeliveredOnce(table: map<Key, Entry>, keys: seq<Key>, nameBytes: nat)
    ensures var c := Collect(table, keys, nameBytes);
            && c.table == table - Members(c.delivered)
            && Members(c.delivered) <= table.Keys * Members(keys)
            && NoRepeats(c.delivered)
            && |c.packed| <= nameBytes
  {
    if keys != [] {
      var n := |keys| - 1;
      DeliveredOnce(table, keys[..n], nameBytes);
      var c := Collect(table, keys[..n], nameBytes);
      MembersAppend(c.delivered, keys[n]);
      assert keys == keys[..n] + [keys[n]];
      MembersAppend(keys[..n], keys[n]);
    }
  }

  // After the first request that has to be retried, nothing more is delivered.
  lemma {:induction false} NothingAfterRetry(table: map<Key, Entry>, keys: seq<Key>, nameBytes: nat)
    ensures var c := Collect(table, keys, nameBytes);
            && (c.retry ==>
                  && c.firstRetry < |keys| && c.reasons[c.firstRetry] == Retry
                  && forall i :: c.firstRetry <= i < |keys| ==> c.reasons[i] != Delivered)
            && (forall i :: 0 <= i < (if c.retry then c.firstRetry else |keys|) ==> c.reasons[i] != Retry)
  {
    if keys != [] {
      NothingAfterRetry(table, keys[..|keys| - 1], nameBytes);
    }
  }

  // ---------- The second call ----------

  // The name bytes of all requests, as far as their keys are in the table.
  function Need(table: map<Key, Entry>, keys: seq<Key>): nat {
    if keys == [] then 0
    else Need(table, keys[..|keys| - 1])
         + if keys[|keys| - 1] in table then NameBytes(table[keys[|keys| - 1]]) else 0
  }

  lemma {:induction false} NoRetry(table: map<Key, Entry>, keys: seq<Key>, nameBytes: nat)
    requires Need(table, keys) <= nameBytes
    ensures var c := Collect(table, keys, nameBytes); !c.retry && |c.packed| <= Need(table, keys)
  {
    if keys != [] {
      var n := |keys| - 1;
      NoRetry(table, keys[..n], nameBytes);
      DeliveredOnce(table, keys[..n], nameBytes);
    }
  }

  // With enough name bytes, everything that is there is delivered.
  lemma EnoughBytes(table: map<Key, Entry>, keys: seq<Key>, nameBytes: nat)
    requires Need(table, keys) <= nameBytes
    ensures var c := Collect(table, keys, nameBytes);
            && !c.retry
            && c.table == table - Members(keys)
            && Members(c.delivered) == table.Keys * Members(keys)
            && NoRepeats(c.delivered)
  {
    NoRetry(table, keys, nameBytes);
    MetRequests(table, keys, nameBytes);
    DeliveredOnce(table, keys, nameBytes);
    assert keys[..|keys|] == keys;
  }

  // The requests that were met before a retry, if any.
  function Met(c: Collected): nat {
    if c.retry then c.firstRetry else |c.reasons|
  }

  // The requests before the first retry have been met, the others have not been touched,
  lemma {:induction false} MetRequests(table: map<Key, Entry>, keys: seq<Key>, nameBytes: nat)
    ensures var c := Collect(table, keys, nameBytes);
            && Met(c) <= |keys|
            && c.table == table - Members(keys[..Met(c)])
            && Members(c.delivered) == table.Keys * Members(keys[..Met(c)])
  {
    if keys != [] {
      var n := |keys| - 1;
      MetRequests(table, keys[..n], nameBytes);
      var b, c := Collect(table, keys[..n], nameBytes), Collect(table, keys, nameBytes);
      if b.retry || c.retry {
        assert keys[..n][..Met(b)] == keys[..Met(b)];
      } else {
        assert keys[..n][..n] == keys[..n] && keys[..n + 1] == keys[..n] + [keys[n]];
        MembersAppend(b.delivered, keys[n]);
        MembersAppend(keys[..n], keys[n]);
      }
    }
  }

  // and `remaining` is what they need.
  lemma {:induction false} RemainingIsNeed(table: map<Key, Entry>, keys: seq<Key>, nameBytes: nat)
    ensures var c := Collect(table, keys, nameBytes);
            c.retry ==> c.firstRetry < |keys| && c.remaining == Need(c.table, keys[c.firstRetry..])
  {
    if keys != [] {
      var n := |keys| - 1;
      RemainingIsNeed(table, keys[..n], nameBytes);
      RemainingIsNeedStep(Collect(table, keys[..n], nameBytes), keys[..n], keys[n], nameBytes);
      assert keys == keys[..n] + [keys[n]];
    }
  }

  lemma RemainingIsNeedStep(b: Collected, keys: seq<Key>, key: Key, nameBytes: nat)
    requires |b.reasons| == |keys|
    requires b.retry ==> b.firstRetry < |keys| && b.remaining == Need(b.table, keys[b.firstRetry..])
    ensures var c := Next(b, key, nameBytes);
            c.retry ==> c.firstRetry <= |keys| && c.remaining == Need(c.table, (keys + [key])[c.firstRetry..])
  {
    if b.retry {
      assert (keys + [key])[b.firstRetry..] == keys[b.firstRetry..] + [key];
      NeedAppend(b.table, keys[b.firstRetry..], key);
    } else {
      assert (keys + [key])[|keys|..] == [] + [key];
      NeedAppend(b.table, [], key);
    }
  }

  lemma NeedAppend(table: map<Key, Entry>, keys: seq<Key>, key: Key)
    ensures Need(table, keys + [key]) == Need(table, keys) + if key in table then NameBytes(table[key]) else 0
  {
    assert (keys + [key])[..|keys|] == keys;
  }

  // ---------- What each request is told ----------

  // A request that comes before the first retry is met if its key is there and has not been
  // asked for before; from the first retry on, what is still there is to be retried.
  function ReasonOf(table: map<Key, Entry>, keys: seq<Key>, met: nat, i: nat): Reason
    requires i < |keys| && met <= |keys|
  {
    if i < met then if keys[i] in table && keys[i] !in keys[..i] then Delivered else NotAvailable
    else if keys[i] in table && keys[i] !in keys[..met] then Retry
    else NotAvailable
  }

  lemma {:induction false} ReasonsExactly(table: map<Key, Entry>, keys: seq<Key>, nameBytes: nat, i: nat)
    requires i < |keys|
    ensures var c := Collect(table, keys, nameBytes);
            Met(c) <= |keys| && c.reasons[i] == ReasonOf(table, keys, Met(c), i)
    decreases |keys|
  {
    var n := |keys| - 1;
    var b, c := Collect(table, keys[..n], nameBytes), Collect(table, keys, nameBytes);
    MetRequests(table, keys[..n], nameBytes);
    MetRequests(table, keys, nameBytes);
    assert keys[..n][..Met(b)] == keys[..Met(b)];
    if i < n {
      ReasonsExactly(table, keys[..n], nameBytes, i);
      assert keys[..n][..i] == keys[..i];
    } else {
      LastReason(b, table, keys, nameBytes);
    }
  }

  lemma LastReason(b: Collected, table: map<Key, Entry>, keys: seq<Key>, nameBytes: nat)
    requires keys != [] && |b.reasons| == |keys| - 1 && Met(b) < |keys|
    requires b.table == table - Members(keys[..Met(b)])
    ensures var n, c := |keys| - 1, Next(b, keys[|keys| - 1], nameBytes);
            Met(c) <= |keys| && c.reasons[n] == ReasonOf(table, keys, Met(c), n)
  {
  }

  // The names of every entry that is there and asked for in time can be read from the name
  // buffer.
  lemma {:induction false} DeliveredIsReadable(table: map<Key, Entry>, keys: seq<Key>, nameBytes: nat, i: nat, p: nat)
    requires i < |keys| && keys[i] in table && keys[i] !in keys[..i]
    requires i < Met(Collect(table, keys, nameBytes))
    requires forall k <- table :: ValidEntry(table[k], |table[k]|)
    ensures var c := Collect(table, keys, nameBytes);
            && c.reasons[i] == Delivered
            && |c.values[i]| == |table[keys[i]]|
            && (p < |c.values[i]| ==>
                  match table[keys[i]][p]
                  case None => c.values[i][p] == None
                  case Some(s) => c.values[i][p].Some? && IsStringAt(c.packed, c.values[i][p].value, s))
    decreases |keys|
  {
    var n := |keys| - 1;
    var before := Collect(table, keys[..n], nameBytes);
    var c := Collect(table, keys, nameBytes);
    ReasonsExactly(table, keys, nameBytes, i);
    DeliveredOnce(table, keys[..n], nameBytes);
    if i < n {
      assert keys[..n][..i] == keys[..i];
      DeliveredIsReadable(table, keys[..n], nameBytes, i, p);
      if p < |c.values[i]| && c.values[i][p].Some? {
        StaysReadable(before.packed, c.packed, c.values[i][p].value, table[keys[i]][p].value);
      }
    } else if p < |table[keys[n]]| {
      PackedIsReadable(before.packed, table[keys[n]], [], p);
      assert before.packed + Packed(table[keys[n]]) + [] == c.packed;
    }
  }

  // Calling again from the first retry on, with as many bytes as were asked for, retrieves
  // the rest: over both calls, every requested key that was there is delivered exactly
  // once and removed,
  lemma SecondCallCompletes(table: map<Key, Entry>, keys: seq<Key>, nameBytes: nat)
    requires Collect(table, keys, nameBytes).retry
    ensures var c1 := Collect(table, keys, nameBytes);
            && c1.firstRetry < |keys|
            && var c2 := Collect(c1.table, keys[c1.firstRetry..], c1.remaining);
               && !c2.retry
               && c2.table == table - Members(keys)
               && Members(c1.delivered + c2.delivered) == table.Keys * Members(keys)
               && NoRepeats(c1.delivered + c2.delivered)
  {
    var c1 := Collect(table, keys, nameBytes);
    RemainingIsNeed(table, keys, nameBytes);
    MetRequests(table, keys, nameBytes);
    DeliveredOnce(table, keys, nameBytes);
    var met, rest := keys[..c1.firstRetry], keys[c1.firstRetry..];
    EnoughBytes(c1.table, rest, c1.remaining);
    var c2 := Collect(c1.table, rest, c1.remaining);
    assert keys == met + rest;
    assert Members(keys) == Members(met) + Members(rest);
    assert Members(c1.delivered + c2.delivered) == Members(c1.delivered) + Members(c2.delivered);
    assert Members(c1.delivered) !! Members(c2.delivered);
    NoRepeatsConcat(c1.delivered, c2.delivered);
  }

  // and the request that comes first for it is told so.
  lemma SecondCallTells(table: map<Key, Entry>, keys: seq<Key>, nameBytes: nat, i: nat)
    requires Collect(table, keys, nameBytes).retry
    requires i < |keys| && keys[i] in table && keys[i] !in keys[..i]
    ensures var c1 := Collect(table, keys, nameBytes);
            && c1.firstRetry < |keys|
            && var c2 := Collect(c1.table, keys[c1.firstRetry..], c1.remaining);
               if i < c1.firstRetry then c1.reasons[i] == Delivered
               else
                 && c1.reasons[i] == Retry && c2.reasons[i - c1.firstRetry] == Delivered
                 && keys[i] in c1.table && c1.table[keys[i]] == table[keys[i]]
  {
    var c1 := Collect(table, keys, nameBytes);
    SecondCallCompletes(table, keys, nameBytes);
    MetRequests(table, keys, nameBytes);
    ReasonsExactly(table, keys, nameBytes, i);
    var r := c1.firstRetry;
    if i >= r {
      assert forall k :: k in keys[..r] ==> k in keys[..i] by {
        assert keys[..r] == keys[..i][..r];
      }
      assert keys[r..][..i - r] == keys[..i][r..];
      ReasonsExactly(c1.table, keys[r..], c1.remaining, i - r);
    }
  }

  lemma NoRepeatsConcat(a: seq<Key>, b: seq<Key>)
    requires NoRepeats(a) && NoRepeats(b) && Members(a) !! Members(b)
    ensures NoRepeats(a + b)
  {
    forall i, j | 0 <= i < j < |a + b| ensures (a + b)[i] != (a + b)[j] {
      if i < |a| <= j {
        assert a[i] in Members(a) && b[j - |a|] in Members(b);
      }
    }
  }
}
