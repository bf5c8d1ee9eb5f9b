/** The method dictionary (OMR_MethodDictionary.cpp): inserting entries, retrieving them,
    and the count of the bytes it holds. */
module MethodDictionaries {
  import opened MethodEntries
  import opened Wrappers

  datatype ErrorCode = NoError | OutOfNativeMemory | RetryNeeded

  // ---------- Steps on values ----------

  // `currentBytes` stands for a size_t; that it is never negative is what keeps the
  // subtractions from wrapping.
  datatype Dictionary = Dictionary(table: map<Key, Entry>, currentBytes: int, maxBytes: int, maxEntries: nat)

  const EMPTY := Dictionary(map[], 0, 0, 0)

  function NoStrings(numProperties: nat): Entry {
    seq(numProperties, _ => None)
  }

  // The entry that is there is taken for the new one when neither has any string, for
  // only then are the pointers the same.
  predicate TakenForNew(d: Dictionary, key: Key, entry: Entry) {
    key !in d.table || (d.table[key] == entry == NoStrings(|entry|))
  }

  function WithBytes(d: Dictionary, bytes: int): Dictionary {
    if bytes > d.maxBytes then d.(currentBytes := bytes, maxBytes := bytes, maxEntries := |d.table|)
    else d.(currentBytes := bytes)
  }

  function AfterInsert(d: Dictionary, key: Key, entry: Entry, sizeofEntry: nat): Dictionary {
    WithBytes(d.(table := d.table[key := entry]),
              d.currentBytes + (if TakenForNew(d, key, entry) then sizeofEntry else 0) + NameBytes(entry))
  }

  function CopyFailedAt(dest: Entry, failAt: nat): Entry {
    seq(|dest|, i requires 0 <= i < |dest| => if i <= failAt then None else dest[i])
  }

  // Copying the string at `failAt` fails.  Strings after it still belong to the caller when
  // the entry has just been added.
  function AfterFailedInsert(d: Dictionary, key: Key, entry: Entry, failAt: nat): Dictionary
    requires failAt < |entry|
  {
    var left := if TakenForNew(d, key, entry) then CopyFailedAt(entry, failAt) else NoStrings(|entry|);
    d.(table := d.table[key := left])
  }

  function AfterRetrieve(d: Dictionary, keys: seq<Key>, nameBytes: nat, sizeofEntry: nat): Dictionary {
    var c := Collect(d.table, keys, nameBytes);
    d.(table := c.table, currentBytes := d.currentBytes - |c.packed| - EntryBytes(|c.delivered|, sizeofEntry))
  }

  // The bytes of a number of entries without their strings.
  function EntryBytes(count: nat, sizeofEntry: nat): nat {
    if count == 0 then 0 else EntryBytes(count - 1, sizeofEntry) + sizeofEntry
  }

  // ---------- The dictionary ----------

  datatype Description = Description(reason: Reason, values: seq<Option<nat>>)

  // The local variables of a retrieval.
  datatype Cursor = Cursor(
    rc: ErrorCode,
    firstRetryMethod: nat,
    nameBytesRemaining: nat,
    nameBytesAvailable: nat,
    nameBufferPos: nat)
  {
    ghost predicate InStep(c: Collected, nameBytes: nat) {
      && rc == (if c.retry then RetryNeeded else NoError)
      && firstRetryMethod == c.firstRetry && nameBytesRemaining == c.remaining
      && nameBufferPos == |c.packed| == nameBytes - nameBytesAvailable
      && (!c.retry ==> c.remaining == 0)
    }
  }

  class MethodDictionary {
    var table: map<Key, Entry>
    var currentBytes: int
    var maxBytes: int
    var maxEntries: nat
    const numProperties: nat
    const sizeofEntry: nat

    constructor (numProperties: nat, sizeofEntry: nat)
      ensures Valid() && State() == EMPTY
      ensures this.numProperties == numProperties && this.sizeofEntry == sizeofEntry
    {
      this.numProperties := numProperties;
      this.sizeofEntry := sizeofEntry;
      table, currentBytes, maxBytes, maxEntries := map[], 0, 0, 0;
    }

    ghost predicate Valid()
      reads this
    {
      forall k <- table :: ValidEntry(table[k], numProperties)
    }

    function State(): Dictionary
      reads this
    {
      Dictionary(table, currentBytes, maxBytes, maxEntries)
    }

    // Whether two entries have the same pointers: the strings of the table are copies of
    // its own, so they do only when both are missing.
    method EntryValueEquals(e1: Entry, e2: Entry) returns (same: bool)
      requires |e1| == |e2| == numProperties
      ensures same <==> e1 == e2 == NoStrings(numProperties)
    {
      same := true;
      var i := 0;
      while i < numProperties && same
        invariant 0 <= i <= numProperties
        invariant same <==> forall j :: 0 <= j < i ==> e1[j] == None == e2[j]
        decreases numProperties - i, same
      {
        if e1[i] != None || e2[i] != None {
          same := false;
        }
        i := i + 1;
      }
    }

    method CountEntryNameBytesNeeded(entry: Entry) returns (nameBytesNeeded: nat)
      requires |entry| == numProperties
      ensures nameBytesNeeded == NameBytes(entry)
    {
      nameBytesNeeded := 0;
      for i := 0 to numProperties
        invariant nameBytesNeeded == NameBytes(entry[..i])
      {
        assert entry[..i + 1][..i] == entry[..i];
        if entry[i].Some? {
          nameBytesNeeded := nameBytesNeeded + |entry[i].value| + 1;
        }
      }
      assert entry[..numProperties] == entry;
    }

    // `failAt` is the string for whose copy there is no memory, if any.
    method DupEntryStrings(dest: Entry, src: Entry, failAt: Option<nat>) returns (rc: ErrorCode, copy: Entry)
      requires |dest| == |src| == numProperties
      requires dest == src || dest == NoStrings(numProperties)
      requires failAt.Some? ==> failAt.value < |src| && src[failAt.value].Some?
      ensures failAt.None? ==> rc == NoError && copy == src
      ensures failAt.Some? ==> rc == OutOfNativeMemory && copy == CopyFailedAt(dest, failAt.value)
    {
      rc, copy := NoError, dest;
      var i := 0;
      while i < numProperties
        invariant 0 <= i <= numProperties && (failAt.Some? ==> i <= failAt.value) && rc == NoError
        invariant |copy| == numProperties
        invariant forall j :: 0 <= j < numProperties ==> copy[j] == if j < i then src[j] else dest[j]
      {
        if src[i].Some? {
          if failAt != Some(i) {
            copy := copy[i := src[i]];
          } else {
            rc := OutOfNativeMemory;
            copy := copy[i := None];
            // release the strings copied before
            for j := 0 to i
              invariant |copy| == numProperties
              invariant forall k :: 0 <= k < numProperties ==> copy[k] == if k < j || k == i then None else if k < i then src[k] else dest[k]
            {
              copy := copy[j := None];
            }
            return;
          }
        }
        i := i + 1;
      }
    }

    method Insert(key: Key, entry: Entry, canAdd: bool, failAt: Option<nat>) returns (rc: ErrorCode)
      requires Valid() && ValidEntry(entry, numProperties)
      requires failAt.Some? ==> failAt.value < |entry| && entry[failAt.value].Some?
      modifies this
      ensures Valid()
      ensures key !in old(table) && !canAdd ==> rc == OutOfNativeMemory && State() == old(State())
      ensures (key in old(table) || canAdd) && failAt.None? ==>
                rc == NoError && State() == AfterInsert(old(State()), key, entry, sizeofEntry)
      ensures (key in old(table) || canAdd) && failAt.Some? ==>
                rc == OutOfNativeMemory && State() == AfterFailedInsert(old(State()), key, entry, failAt.value)
    {
      if key !in table && !canAdd {
        return OutOfNativeMemory;
      }
      var reusedEntry := false;
      var newEntry := entry;
      if key in table {
        newEntry := table[key];
        var same := EntryValueEquals(newEntry, entry);
        if !same {
          newEntry := NoStrings(numProperties);
          reusedEntry := true;
        }
      }
      assert failAt.Some? ==> CopyFailedAt(NoStrings(numProperties), failAt.value) == NoStrings(numProperties);
      rc, newEntry := DupEntryStrings(newEntry, entry, failAt);
      table := table[key := newEntry];
      if rc == NoError {
        if !reusedEntry {
          currentBytes := currentBytes + sizeofEntry;
        }
        var nameBytes := CountEntryNameBytesNeeded(newEntry);
        currentBytes := currentBytes + nameBytes;
        if currentBytes > maxBytes {
          maxBytes := currentBytes;
          maxEntries := |table|;
        }
      }
    }

    method CopyEntryNameBytes(entry: Entry, nameBuffer: array<char>, position: nat) returns (values: seq<Option<nat>>)
      requires |entry| == numProperties && position + NameBytes(entry) <= nameBuffer.Length
      modifies nameBuffer
      ensures values == Offsets(entry, position)
      ensures nameBuffer[..position + NameBytes(entry)] == old(nameBuffer[..position]) + Packed(entry)
    {
      values := [];
      var nameBufferPos := position;
      for i := 0 to numProperties
        invariant nameBufferPos == position + NameBytes(entry[..i]) <= nameBuffer.Length
        invariant values == Offsets(entry[..i], position)
        invariant nameBuffer[..nameBufferPos] == old(nameBuffer[..position]) + Packed(entry[..i])
      {
        assert entry[..i + 1][..i] == entry[..i];
        NameBytesOfPrefix(entry, i + 1);
        if entry[i].None? {
          values := values + [None];
        } else {
          var text := entry[i].value + ['\0'];
          CopyBytes(nameBuffer, nameBufferPos, text);
          values := values + [Some(nameBufferPos)];
          nameBufferPos := nameBufferPos + |text|;
        }
      }
      assert entry[..numProperties] == entry;
    }

    method GetEntries(methodArray: seq<Key>, methodDescriptions: array<Description>, nameBuffer: array<char>, nameBytes: nat)
      returns (rc: ErrorCode, firstRetryMethod: nat, nameBytesRemaining: nat)
      requires Valid() && |methodArray| <= methodDescriptions.Length && nameBytes <= nameBuffer.Length
      modifies this, methodDescriptions, nameBuffer
      ensures Valid() && State() == AfterRetrieve(old(State()), methodArray, nameBytes, sizeofEntry)
      ensures var c := Collect(old(table), methodArray, nameBytes);
              && (rc == if c.retry then RetryNeeded else NoError)
              && (c.retry ==> firstRetryMethod == c.firstRetry && nameBytesRemaining == c.remaining)
              && |c.packed| <= nameBytes && nameBuffer[..|c.packed|] == c.packed
              && AllDescribed(methodDescriptions[..], c, |methodArray|)
    {
      var cursor := Cursor(NoError, 0, 0, nameBytes, 0);
      ghost var before, c := State(), Collect(table, [], nameBytes);
      for i := 0 to |methodArray|
        invariant Valid() && c == Collect(before.table, methodArray[..i], nameBytes)
        invariant cursor.InStep(c, nameBytes)
        invariant Follows(before, c, State(), sizeofEntry)
        invariant nameBuffer[..|c.packed|] == c.packed
        invariant AllDescribed(methodDescriptions[..], c, i)
      {
        CollectNext(before.table, methodArray, i, nameBytes);
        ghost var described := methodDescriptions[..];
        cursor := HandleRequest(methodArray[i], i, methodDescriptions, nameBuffer, cursor, c, nameBytes);
        DescribedNext(described, methodDescriptions[..], c, methodArray[i], nameBytes);
        FollowsNext(before, c, State(), methodArray[i], nameBytes, sizeofEntry);
        c := Next(c, methodArray[i], nameBytes);
      }
      assert methodArray[..|methodArray|] == methodArray;
      return cursor.rc, cursor.firstRetryMethod, cursor.nameBytesRemaining;
    }

    method HandleRequest(key: Key, i: nat, methodDescriptions: array<Description>, nameBuffer: array<char>, cursor: Cursor,
                         ghost c: Collected, ghost nameBytes: nat)
      returns (next: Cursor)
      requires Valid() && table == c.table && i == |c.reasons| == |c.values| && i < methodDescriptions.Length
      requires cursor.InStep(c, nameBytes) && nameBytes <= nameBuffer.Length && nameBuffer[..|c.packed|] == c.packed
      modifies this`table, this`currentBytes, methodDescriptions, nameBuffer
      ensures Valid() && next.InStep(Next(c, key, nameBytes), nameBytes)
      ensures var c' := Next(c, key, nameBytes);
              && table == c'.table
              && currentBytes == old(currentBytes) - (|c'.packed| - |c.packed|)
                                 - (if |c'.delivered| > |c.delivered| then sizeofEntry else 0)
              && nameBuffer[..|c'.packed|] == c'.packed
              && Described(methodDescriptions[i], c'.reasons[i], c'.values[i])
      ensures methodDescriptions[..i] == old(methodDescriptions[..i])
    {
      next := cursor;
      if key !in table {
        methodDescriptions[i] := methodDescriptions[i].(reason := NotAvailable);
        return;
      }
      var nameBytesNeeded := CountEntryNameBytesNeeded(table[key]);
      if cursor.rc == RetryNeeded {
        // only the bytes still needed are counted
        methodDescriptions[i] := methodDescriptions[i].(reason := Retry);
        next := cursor.(nameBytesRemaining := cursor.nameBytesRemaining + nameBytesNeeded);
      } else if nameBytesNeeded <= cursor.nameBytesAvailable {
        var values := Deliver(key, nameBuffer, cursor.nameBufferPos);
        methodDescriptions[i] := Description(Delivered, values);
        next := cursor.(nameBufferPos := cursor.nameBufferPos + nameBytesNeeded,
                        nameBytesAvailable := cursor.nameBytesAvailable - nameBytesNeeded);
      } else {
        methodDescriptions[i] := methodDescriptions[i].(reason := Retry);
        next := cursor.(rc := RetryNeeded, firstRetryMethod := i,
                        nameBytesRemaining := cursor.nameBytesRemaining + nameBytesNeeded);
      }
    }

    // The names of an entry go to the name buffer, and the entry is removed.
    method Deliver(key: Key, nameBuffer: array<char>, position: nat) returns (values: seq<Option<nat>>)
      requires Valid() && key in table && position + NameBytes(table[key]) <= nameBuffer.Length
      modifies this`table, this`currentBytes, nameBuffer
      ensures Valid() && values == Offsets(old(table[key]), position)
      ensures table == old(table) - {key}
      ensures currentBytes == old(currentBytes) - NameBytes(old(table[key])) - sizeofEntry
      ensures nameBuffer[..position + NameBytes(old(table[key]))] == old(nameBuffer[..position]) + Packed(old(table[key]))
    {
      var entry := table[key];
      var nameBytesNeeded := CountEntryNameBytesNeeded(entry);
      values := CopyEntryNameBytes(entry, nameBuffer, position);
      currentBytes := currentBytes - nameBytesNeeded;
      table := table - {key};
      currentBytes := currentBytes - sizeofEntry;
    }
  }

  lemma CollectNext(table: map<Key, Entry>, keys: seq<Key>, i: nat, nameBytes: nat)
    requires i < |keys|
    ensures Collect(table, keys[..i + 1], nameBytes) == Next(Collect(table, keys[..i], nameBytes), keys[i], nameBytes)
  {
    assert keys[..i + 1][..i] == keys[..i];
  }

  // memcpy
  method CopyBytes(buffer: array<char>, position: nat, bytes: seq<char>)
    requires position + |bytes| <= buffer.Length
    modifies buffer
    ensures buffer[..position + |bytes|] == old(buffer[..position]) + bytes
  {
    forall j | 0 <= j < |bytes| {
      buffer[position + j] := bytes[j];
    }
  }

  // The dictionary once the requests in `c` have been met.
  ghost predicate Follows(before: Dictionary, c: Collected, now: Dictionary, sizeofEntry: nat) {
    now == before.(table := c.table, currentBytes := before.currentBytes - |c.packed| - EntryBytes(|c.delivered|, sizeofEntry))
  }

  predicate Described(d: Description, reason: Reason, values: seq<Option<nat>>) {
    d.reason == reason && (reason == Delivered ==> d.values == values)
  }

  // The first `n` requests have been described as collecting them says.
  ghost predicate AllDescribed(descriptions: seq<Description>, c: Collected, n: nat) {
    && n == |c.reasons| == |c.values| && n <= |descriptions|
    && forall j :: 0 <= j < n ==> Described(descriptions[j], c.reasons[j], c.values[j])
  }

  lemma DescribedNext(before: seq<Description>, after: seq<Description>, c: Collected, key: Key, nameBytes: nat)
    requires var n, c' := |c.reasons|, Next(c, key, nameBytes);
             && AllDescribed(before, c, n) && n < |after| && after[..n] == before[..n]
             && Described(after[n], c'.reasons[n], c'.values[n])
    ensures AllDescribed(after, Next(c, key, nameBytes), |c.reasons| + 1)
  {
    var n, c' := |c.reasons|, Next(c, key, nameBytes);
    forall j | 0 <= j < n + 1 ensures Described(after[j], c'.reasons[j], c'.values[j]) {
      if j < n {
        assert after[j] == after[..n][j] == before[..n][j];
      }
    }
  }

  lemma FollowsNext(before: Dictionary, c: Collected, now: Dictionary, key: Key, nameBytes: nat, sizeofEntry: nat)
    requires var c' := Next(c, key, nameBytes);
             now == before.(table := c'.table,
                            currentBytes := before.currentBytes - |c.packed| - EntryBytes(|c.delivered|, sizeofEntry)
                                            - (|c'.packed| - |c.packed|)
                                            - (if |c'.delivered| > |c.delivered| then sizeofEntry else 0))
    ensures Follows(before, Next(c, key, nameBytes), now, sizeofEntry)
  {
  }

  lemma {:induction false} NameBytesOfPrefix(entry: Entry, n: nat)
    requires n <= |entry|
    ensures NameBytes(entry[..n]) <= NameBytes(entry)
    decreases |entry|
  {
    if n < |entry| {
      var m := |entry| - 1;
      NameBytesOfPrefix(entry[..m], n);
      assert entry[..m][..n] == entry[..n];
    } else {
      assert entry[..n] == entry;
    }
  }
}
