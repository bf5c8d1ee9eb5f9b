/** The byte count of the method dictionary, over every run of insertions and retrievals. */
module MethodAccounting {
  import opened MethodEntries
  import opened MethodDictionaries
  import opened Wrappers

  function Cost(e: Entry, sizeofEntry: nat): nat {
    sizeofEntry + NameBytes(e)
  }

  // The bytes of the entries that are in the table, with their names.
  ghost function Footprint(table: map<Key, Entry>, sizeofEntry: nat): nat
    decreases |table|
  {
    if exists k :: k in table then
      var k :| k in table;
      Cost(table[k], sizeofEntry) + Footprint(table - {k}, sizeofEntry)
    else 0
  }

  lemma {:induction false} FootprintWithout(table: map<Key, Entry>, key: Key, sizeofEntry: nat)
    requires key in table
    ensures Footprint(table, sizeofEntry) == Cost(table[key], sizeofEntry) + Footprint(table - {key}, sizeofEntry)
    decreases |table|
  {
    var k :| k in table && Footprint(table, sizeofEntry) == Cost(table[k], sizeofEntry) + Footprint(table - {k}, sizeofEntry);
    if k != key {
      FootprintWithout(table - {k}, key, sizeofEntry);
      FootprintWithout(table - {key}, k, sizeofEntry);
      assert table - {k} - {key} == table - {key} - {k};
    }
  }

  lemma FootprintUpdate(table: map<Key, Entry>, key: Key, entry: Entry, sizeofEntry: nat)
    ensures Footprint(table[key := entry], sizeofEntry)
         == Footprint(table, sizeofEntry) + Cost(entry, sizeofEntry)
              - if key in table then Cost(table[key], sizeofEntry) else 0
  {
    FootprintWithout(table[key := entry], key, sizeofEntry);
    if key in table {
      FootprintWithout(table, key, sizeofEntry);
      assert table[key := entry] - {key} == table - {key};
    } else {
      assert table[key := entry] - {key} == table;
    }
  }

  // By how much the count exceeds what the table holds.
  ghost function Slack(d: Dictionary, sizeofEntry: nat): int {
    d.currentBytes - Footprint(d.table, sizeofEntry)
  }

  // Inserting a new key counts exactly; replacing an entry goes on counting the names of
  // the old one, and the entry itself once more when neither has any name.
  lemma InsertSlack(d: Dictionary, key: Key, entry: Entry, sizeofEntry: nat)
    ensures Slack(AfterInsert(d, key, entry, sizeofEntry), sizeofEntry)
         == Slack(d, sizeofEntry)
              + (if key in d.table then NameBytes(d.table[key]) else 0)
              + (if key in d.table && TakenForNew(d, key, entry) then sizeofEntry else 0)
  {
    FootprintUpdate(d.table, key, entry, sizeofEntry);
  }

  // Retrieving takes off exactly what is delivered.
  lemma {:induction false} RetrieveSlack(d: Dictionary, keys: seq<Key>, nameBytes: nat, sizeofEntry: nat)
    ensures Slack(AfterRetrieve(d, keys, nameBytes, sizeofEntry), sizeofEntry) == Slack(d, sizeofEntry)
    ensures AfterRetrieve(d, keys, nameBytes, sizeofEntry).currentBytes <= d.currentBytes
  {
    if keys != [] {
      var n := |keys| - 1;
      RetrieveSlack(d, keys[..n], nameBytes, sizeofEntry);
      var c := Collect(d.table, keys[..n], nameBytes);
      if keys[n] in c.table {
        FootprintWithout(c.table, keys[n], sizeofEntry);
      }
    }
  }

  // A copy that fails counts nothing: harmless when the entry was there before, but a new
  // entry stays behind uncounted.
  lemma FailedInsertSlack(d: Dictionary, key: Key, entry: Entry, failAt: nat, sizeofEntry: nat)
    requires failAt < |entry| && entry[failAt].Some?
    ensures Slack(AfterFailedInsert(d, key, entry, failAt), sizeofEntry)
         == Slack(d, sizeofEntry)
              + (if key in d.table then NameBytes(d.table[key]) else 0)
              - (if key in d.table then 0 else Cost(CopyFailedAt(entry, failAt), sizeofEntry))
  {
    var left := AfterFailedInsert(d, key, entry, failAt).table[key];
    FootprintUpdate(d.table, key, left, sizeofEntry);
    assert entry != NoStrings(|entry|);
    NoStringsAreFree(|entry|);
  }

  lemma {:induction false} NoStringsAreFree(n: nat)
    ensures NameBytes(NoStrings(n)) == 0
  {
    if n > 0 {
      assert NoStrings(n)[..n - 1] == NoStrings(n - 1);
      NoStringsAreFree(n - 1);
    }
  }

  // ---------- Runs ----------

  datatype Event =
    | Inserted(key: Key, entry: Entry)
    | CopyFailed(key: Key, entry: Entry, failAt: nat)
    | Retrieved(keys: seq<Key>, nameBytes: nat)
  {
    predicate Valid() {
      CopyFailed? ==> failAt < |entry| && entry[failAt].Some?
    }
  }

  function Step(d: Dictionary, e: Event, sizeofEntry: nat): Dictionary
    requires e.Valid()
  {
    match e
    case Inserted(key, entry) => AfterInsert(d, key, entry, sizeofEntry)
    case CopyFailed(key, entry, failAt) => AfterFailedInsert(d, key, entry, failAt)
    case Retrieved(keys, nameBytes) => AfterRetrieve(d, keys, nameBytes, sizeofEntry)
  }

  function Run(events: seq<Event>, sizeofEntry: nat): Dictionary
    requires forall e <- events :: e.Valid()
  {
    if events == [] then EMPTY
    else Step(Run(events[..|events| - 1], sizeofEntry), events[|events| - 1], sizeofEntry)
  }

  // No copy for a new key fails.
  predicate NewKeysCopied(events: seq<Event>, sizeofEntry: nat)
    requires forall e <- events :: e.Valid()
  {
    forall i :: 0 <= i < |events| && events[i].CopyFailed? ==> events[i].key in Run(events[..i], sizeofEntry).table
  }

  // No key is inserted while it is there, and no copy fails.
  predicate OnlyNewKeys(events: seq<Event>, sizeofEntry: nat)
    requires forall e <- events :: e.Valid()
  {
    forall i :: 0 <= i < |events| ==>
      !events[i].CopyFailed? && (events[i].Inserted? ==> events[i].key !in Run(events[..i], sizeofEntry).table)
  }

  // The count is never below what the table holds, so that the subtractions of a retrieval
  // never wrap, and the maximum bounds it.
  lemma {:induction false} CountCoversTable(events: seq<Event>, sizeofEntry: nat)
    requires forall e <- events :: e.Valid()
    requires NewKeysCopied(events, sizeofEntry)
    ensures var d := Run(events, sizeofEntry);
            0 <= Footprint(d.table, sizeofEntry) <= d.currentBytes <= d.maxBytes
  {
    if events != [] {
      var n := |events| - 1;
      forall i | 0 <= i < n && events[..n][i].CopyFailed?
        ensures events[..n][i].key in Run(events[..n][..i], sizeofEntry).table
      {
        assert events[..n][..i] == events[..i] && events[..n][i] == events[i];
      }
      CountCoversTable(events[..n], sizeofEntry);
      var d := Run(events[..n], sizeofEntry);
      assert events[n] in events && events[n].Valid();
      match events[n]
      case Inserted(key, entry) => InsertSlack(d, key, entry, sizeofEntry);
      case CopyFailed(key, entry, failAt) => FailedInsertSlack(d, key, entry, failAt, sizeofEntry);
      case Retrieved(keys, nameBytes) => RetrieveSlack(d, keys, nameBytes, sizeofEntry);
    }
  }

  // The count is exact as long as no key is inserted a second time.
  lemma {:induction false} CountIsExact(events: seq<Event>, sizeofEntry: nat)
    requires forall e <- events :: e.Valid()
    requires OnlyNewKeys(events, sizeofEntry)
    ensures var d := Run(events, sizeofEntry); d.currentBytes == Footprint(d.table, sizeofEntry)
  {
    if events != [] {
      var n := |events| - 1;
      forall i | 0 <= i < n
        ensures !events[..n][i].CopyFailed?
        ensures events[..n][i].Inserted? ==> events[..n][i].key !in Run(events[..n][..i], sizeofEntry).table
      {
        assert events[..n][..i] == events[..i] && events[..n][i] == events[i];
      }
      CountIsExact(events[..n], sizeofEntry);
      var d := Run(events[..n], sizeofEntry);
      assert events[..n] == events[..n + 1][..n];
      match events[n]
      case Inserted(key, entry) => InsertSlack(d, key, entry, sizeofEntry);
      case Retrieved(keys, nameBytes) => RetrieveSlack(d, keys, nameBytes, sizeofEntry);
    }
  }

  // ---------- What is in the table, and how full it has been ----------

  // The entry for a key is the last one that was inserted for it, unless it has been
  // retrieved since.
  function Held(events: seq<Event>, key: Key, sizeofEntry: nat): Option<Entry>
    requires forall e <- events :: e.Valid()
  {
    if events == [] then None
    else
      var before, last := events[..|events| - 1], events[|events| - 1];
      if last.Inserted? && last.key == key then Some(last.entry)
      else if last.Retrieved? then
        var c := Collect(Run(before, sizeofEntry).table, last.keys, last.nameBytes);
        if Met(c) <= |last.keys| && key in last.keys[..Met(c)] then None else Held(before, key, sizeofEntry)
      else Held(before, key, sizeofEntry)
  }

  lemma {:induction false} TableIsLastInserted(events: seq<Event>, key: Key, sizeofEntry: nat)
    requires forall e <- events :: e.Valid() && !(e.CopyFailed? && e.key == key)
    ensures match Held(events, key, sizeofEntry)
            case None => key !in Run(events, sizeofEntry).table
            case Some(entry) =>
              key in Run(events, sizeofEntry).table && Run(events, sizeofEntry).table[key] == entry
  {
    if events != [] {
      var before, last := events[..|events| - 1], events[|events| - 1];
      TableIsLastInserted(before, key, sizeofEntry);
      assert last in events;
      if last.Retrieved? {
        MetRequests(Run(before, sizeofEntry).table, last.keys, last.nameBytes);
      }
    }
  }

  // The maximum is the highest count there has been, and the number of entries goes with
  // it.
  lemma {:induction false} MaximumIsHighWaterMark(events: seq<Event>, sizeofEntry: nat) returns (i: nat)
    requires forall e <- events :: e.Valid()
    ensures i <= |events|
    ensures Run(events[..i], sizeofEntry).currentBytes == Run(events, sizeofEntry).maxBytes
    ensures |Run(events[..i], sizeofEntry).table| == Run(events, sizeofEntry).maxEntries
    ensures forall j :: 0 <= j <= |events| ==> Run(events[..j], sizeofEntry).currentBytes <= Run(events, sizeofEntry).maxBytes
  {
    var d := Run(events, sizeofEntry);
    assert events[..|events|] == events;
    if events == [] {
      i := 0;
    } else {
      var before, last := events[..|events| - 1], events[|events| - 1];
      assert last in events;
      i := MaximumIsHighWaterMark(before, sizeofEntry);
      forall j | 0 <= j < |events| ensures before[..j] == events[..j] {
      }
      MaximumStep(Run(before, sizeofEntry), last, sizeofEntry);
      if d.maxBytes > Run(before, sizeofEntry).maxBytes {
        i := |events|;
      }
    }
  }

  lemma MaximumStep(d: Dictionary, e: Event, sizeofEntry: nat)
    requires e.Valid() && d.currentBytes <= d.maxBytes
    ensures var d' := Step(d, e, sizeofEntry);
            if d'.currentBytes > d.maxBytes then d'.maxBytes == d'.currentBytes && d'.maxEntries == |d'.table|
            else d'.maxBytes == d.maxBytes && d'.maxEntries == d.maxEntries
  {
    if e.Retrieved? {
      RetrieveSlack(d, e.keys, e.nameBytes, sizeofEntry);
    }
  }

  // A failed copy leaves none of the strings that had been copied; if another entry was
  // there before, it leaves no string at all.
  lemma {:induction false} FailedCopyLeavesNothing(d: Dictionary, key: Key, entry: Entry, failAt: nat)
    requires failAt < |entry| && entry[failAt].Some?
    ensures var left := AfterFailedInsert(d, key, entry, failAt).table[key];
            && |left| == |entry|
            && (forall i :: 0 <= i <= failAt ==> left[i] == None)
            && (if key in d.table then NameBytes(left) == 0
                else forall i :: failAt < i < |entry| ==> left[i] == entry[i])
  {
    assert entry != NoStrings(|entry|);
    NoStringsAreFree(|entry|);
  }

  // After a failed copy, the count still covers the table exactly when the key was there
  // before, or when it was too high by what the entry left behind costs.
  lemma FailedCopyUncovers(d: Dictionary, key: Key, entry: Entry, failAt: nat, sizeofEntry: nat)
    requires failAt < |entry| && entry[failAt].Some?
    requires Slack(d, sizeofEntry) >= 0
    ensures Slack(AfterFailedInsert(d, key, entry, failAt), sizeofEntry) >= 0
            <==> key in d.table || Slack(d, sizeofEntry) >= Cost(CopyFailedAt(entry, failAt), sizeofEntry)
  {
    FailedInsertSlack(d, key, entry, failAt, sizeofEntry);
  }

  // The retrieval of an entry that such a copy has left behind takes the count below zero
  // exactly when that was less than what the entry costs.
  lemma FailedCopyUnderflows(d: Dictionary, key: Key, entry: Entry, failAt: nat, nameBytes: nat, sizeofEntry: nat)
    requires failAt < |entry| && entry[failAt].Some? && key !in d.table
    requires nameBytes >= NameBytes(CopyFailedAt(entry, failAt))
    ensures AfterRetrieve(AfterFailedInsert(d, key, entry, failAt), [key], nameBytes, sizeofEntry).currentBytes < 0
            <==> d.currentBytes < Cost(CopyFailedAt(entry, failAt), sizeofEntry)
  {
    var after, left := AfterFailedInsert(d, key, entry, failAt), CopyFailedAt(entry, failAt);
    assert after.table[key] == left && after.currentBytes == d.currentBytes;
    assert [key][..0] == [];
    var c := Collect(after.table, [key], nameBytes);
    assert c == Next(Collect(after.table, [], nameBytes), key, nameBytes);
    assert |c.packed| == NameBytes(left) && |c.delivered| == 1;
    assert EntryBytes(1, sizeofEntry) == sizeofEntry;
  }
}
