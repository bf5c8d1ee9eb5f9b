/** Filling a buffer with the memory categories (OMR_TI.cpp).  Pointers into the buffer
    are addresses: 0 is NULL, and `i + 1` is the address of entry `i`. */
module CategorySnapshot {
  import opened CategoryTree
  import opened MemoryCategories

  datatype Category = Category(
    name: string,
    liveBytesShallow: int,
    liveBytesDeep: int,
    liveAllocationsShallow: int,
    liveAllocationsDeep: int,
    firstChild: nat,
    nextSibling: nat,
    parent: nat)

  const EMPTY := Category("", 0, 0, 0, 0, 0, 0, 0)

  // ---------- What the walk writes ----------

  function FindCode(visits: seq<Visit>, code: nat): (i: nat)
    ensures i <= |visits|
    ensures i < |visits| ==> visits[i].code == code
    ensures forall j :: 0 <= j < i ==> visits[j].code != code
  {
    if visits == [] || visits[0].code == code then 0 else 1 + FindCode(visits[1..], code)
  }

  function ParentOf(visits: seq<Visit>, i: nat): nat
    requires i < |visits|
  {
    if visits[i].isRoot then 0 else 1 + FindCode(visits, visits[i].parentCode)
  }

  function ParentsOf(visits: seq<Visit>): (parents: seq<nat>)
    ensures |parents| == |visits|
  {
    seq(|visits|, i requires 0 <= i < |visits| => ParentOf(visits, i))
  }

  function BytesOf(visits: seq<Visit>): seq<int> {
    seq(|visits|, i requires 0 <= i < |visits| => visits[i].liveBytes)
  }

  function AllocationsOf(visits: seq<Visit>): seq<int> {
    seq(|visits|, i requires 0 <= i < |visits| => visits[i].liveAllocations)
  }

  lemma ParentIsBefore(visits: seq<Visit>, i: nat)
    requires ValidWalk(visits) && i < |visits| && !visits[i].isRoot
    ensures FindCode(visits, visits[i].parentCode) < i
  {
    assert HasParentBefore(visits, i);
  }

  lemma ParentsTopped(visits: seq<Visit>)
    requires ValidWalk(visits)
    ensures Topped(ParentsOf(visits))
  {
    forall i | 0 <= i < |visits| ensures ParentsOf(visits)[i] <= i {
      if !visits[i].isRoot {
        ParentIsBefore(visits, i);
      }
    }
  }

  lemma ParentInPrefix(visits: seq<Visit>, i: nat, n: nat)
    requires ValidWalk(visits) && i < n <= |visits|
    ensures ParentOf(visits[..n], i) == ParentOf(visits, i)
  {
    if !visits[i].isRoot {
      ParentIsBefore(visits, i);
      ValidWalkPrefix(visits, n);
      ParentIsBefore(visits[..n], i);
      var j, j' := FindCode(visits, visits[i].parentCode), FindCode(visits[..n], visits[i].parentCode);
      assert visits[..n][j'] == visits[j'] && visits[..n][j] == visits[j];
    }
  }

  function EntryAfterWalk(v: Visit, parent: nat): Category {
    EMPTY.(name := v.name, liveBytesShallow := v.liveBytes, liveAllocationsShallow := v.liveAllocations, parent := parent)
  }

  // What the slots of a walk offer to the walk function: the slot of the i-th category,
  // and that of the category above it, whose entry is `parents[i]`.
  predicate SlotFacts(visits: seq<Visit>, slots: seq<nat>, parents: seq<nat>, size: nat, i: nat) {
    && i < |visits| == |slots| == |parents| && size < TWO_TO_THE_32
    && visits[i].code < TWO_TO_THE_32
    && IndexFromCategoryCode(size, visits[i].code) == slots[i] < size
    && if visits[i].isRoot then parents[i] == 0
       else
         && 1 <= parents[i] <= i && visits[i].parentCode < TWO_TO_THE_32
         && IndexFromCategoryCode(size, visits[i].parentCode) == slots[parents[i] - 1]
  }

  predicate Distinct(slots: seq<nat>) {
    forall i, j :: 0 <= i < j < |slots| ==> slots[i] != slots[j]
  }

  function SlotsOf(visits: seq<Visit>): (slots: seq<nat>)
    requires AreCodes(visits)
    ensures |slots| == |visits|
  {
    seq(|visits|, i requires 0 <= i < |visits| => Slot(visits, i))
  }

  lemma SlotsAreDistinct(visits: seq<Visit>)
    requires ValidWalk(visits)
    ensures Distinct(SlotsOf(visits))
  {
    forall i, j | 0 <= i < j < |visits| ensures SlotsOf(visits)[i] != SlotsOf(visits)[j] {
      if Slot(visits, i) == Slot(visits, j) {
        IndexInjective(visits, i, j);
      }
    }
  }

  lemma SlotsAreFacts(visits: seq<Visit>, i: nat)
    requires ValidWalk(visits) && i < |visits|
    ensures SlotFacts(visits, SlotsOf(visits), ParentsOf(visits), MappingSize(visits), i)
  {
    IndexInRange(visits, i);
    assert visits[i] in visits;
    if !visits[i].isRoot {
      ParentIsBefore(visits, i);
      assert visits[FindCode(visits, visits[i].parentCode)] in visits;
    }
  }

  class CategoriesState {
    const buffer: array<Category>
    const maxCategories: int
    const mapping: array<nat>
    var writtenCount: nat
    var bufferOverflow: bool
    ghost const visits: seq<Visit>
    ghost const slots: seq<nat>
    ghost const parents: seq<nat>

    ghost predicate Valid()
      reads this`writtenCount, buffer, mapping
    {
      && |visits| == |slots| == |parents| && Distinct(slots)
      && (forall i :: 0 <= i < |slots| ==> slots[i] < mapping.Length)
      && buffer as object != mapping && maxCategories <= buffer.Length
      && writtenCount <= |visits| && (writtenCount > 0 ==> writtenCount <= maxCategories)
      && (forall i :: 0 <= i < writtenCount ==> buffer[i] == EntryAfterWalk(visits[i], parents[i]))
      && (forall i :: writtenCount <= i < maxCategories ==> buffer[i] == EMPTY)
      && (forall i :: 0 <= i < writtenCount ==> mapping[slots[i]] == i + 1)
    }

    constructor (buffer: array<Category>, maxCategories: int, ghost visits: seq<Visit>, mappingSize: nat)
      requires ValidWalk(visits) && mappingSize == MappingSize(visits)
      requires maxCategories <= buffer.Length
      requires forall i :: 0 <= i < maxCategories ==> buffer[i] == EMPTY
      ensures Valid() && writtenCount == 0 && !bufferOverflow
      ensures this.buffer == buffer && this.maxCategories == maxCategories && fresh(mapping) && mapping.Length == mappingSize
      ensures this.visits == visits && slots == SlotsOf(visits) && parents == ParentsOf(visits)
    {
      this.buffer := buffer;
      this.maxCategories := maxCategories;
      mapping := new nat[mappingSize](_ => 0);
      writtenCount := 0;
      bufferOverflow := false;
      this.visits := visits;
      slots := SlotsOf(visits);
      parents := ParentsOf(visits);
      SlotsAreDistinct(visits);
      forall i | 0 <= i < |visits| ensures SlotsOf(visits)[i] < mappingSize {
        SlotsAreFacts(visits, i);
      }
    }

    // Called for the category that is walked after the ones written so far.
    method Callback(v: Visit) returns (keepIterating: bool)
      requires Valid() && writtenCount < |visits| && v == visits[writtenCount]
      requires SlotFacts(visits, slots, parents, mapping.Length, writtenCount)
      modifies this`writtenCount, this`bufferOverflow, buffer, mapping
      ensures Valid()
      ensures keepIterating == (old(writtenCount) < maxCategories)
      ensures writtenCount == old(writtenCount) + if keepIterating then 1 else 0
      ensures bufferOverflow == (old(bufferOverflow) || !keepIterating)
    {
      if writtenCount < maxCategories {
        mapping[IndexFromCategoryCode(mapping.Length, v.code)] := writtenCount + 1;
        var parent := 0;
        if !v.isRoot {
          parent := mapping[IndexFromCategoryCode(mapping.Length, v.parentCode)];
        }
        buffer[writtenCount] := buffer[writtenCount].(
          name := v.name, liveBytesShallow := v.liveBytes, liveAllocationsShallow := v.liveAllocations, parent := parent);
        writtenCount := writtenCount + 1;
        return true;
      } else {
        bufferOverflow := true;
        return false;
      }
    }

    // The walk calls back until it is told to stop.
    method Walk(visits: seq<Visit>)
      requires ValidWalk(visits) && visits == this.visits && slots == SlotsOf(visits) && parents == ParentsOf(visits)
      requires Valid() && mapping.Length == MappingSize(visits) && writtenCount == 0 && !bufferOverflow
      modifies this`writtenCount, this`bufferOverflow, buffer, mapping
      ensures Valid()
      ensures writtenCount == WrittenCount(visits, maxCategories)
      ensures bufferOverflow <==> writtenCount < |visits|
    {
      var i := 0;
      while i < |visits| && !bufferOverflow
        invariant 0 <= i <= |visits| && Valid() && writtenCount == i && (i == 0 || i <= maxCategories)
        invariant bufferOverflow ==> i < |visits| && maxCategories <= i
        decreases |visits| - i, !bufferOverflow
      {
        SlotsAreFacts(visits, i);
        var keepIterating := Callback(visits[i]);
        if keepIterating {
          i := i + 1;
        }
      }
    }
  }

  function WrittenCount(visits: seq<Visit>, maxCategories: int): (n: nat)
    ensures n <= |visits|
  {
    if maxCategories < 0 then 0 else if maxCategories < |visits| then maxCategories else |visits|
  }

  // ---------- Children and siblings ----------

  // Entry `k` once the entries in `parents` have been linked.  While this goes on, the
  // deep byte counter of an entry holds the address of its last child.
  function LinkedEntry(c: Category, parents: seq<nat>, k: nat): Category {
    c.(firstChild := NextChild(parents, k + 1, 0),
       nextSibling := if k < |parents| && c.parent != 0 then NextChild(parents, c.parent, k + 1) else 0,
       liveBytesDeep := LastChild(parents, k + 1))
  }

  // What linking the entry at `address` to its parent `q`, whose last child so far is
  // `last`, does to entry `k`.
  function Relinked(e: Category, k: nat, q: nat, last: int, address: nat): Category {
    if q != 0 && k + 1 == q then e.(firstChild := if last == 0 then address else e.firstChild, liveBytesDeep := address)
    else if q != 0 && last != 0 && k + 1 == last then e.(nextSibling := address)
    else e
  }

  lemma LinkedStep(c: Category, parents: seq<nat>, q: nat, k: nat)
    requires q <= |parents| && (LastChild(parents, q) != 0 ==> q < LastChild(parents, q))
    requires k < |parents| ==> c.parent == parents[k]
    requires k == |parents| ==> c.parent == q
    ensures LinkedEntry(c, parents + [q], k)
         == Relinked(LinkedEntry(c, parents, k), k, q, LastChild(parents, q), |parents| + 1)
  {
    var e, e' := LinkedEntry(c, parents, k), LinkedEntry(c, parents + [q], k);
    var last, address := LastChild(parents, q), |parents| + 1;
    FirstChildAppend(parents, k + 1, q);
    LastChildAppend(parents, k + 1, q);
    assert e'.nextSibling == if q != 0 && last != 0 && k + 1 == last then address else e.nextSibling by {
      if k < |parents| {
        NextSiblingAppend(parents, k, q);
        if last != 0 && k + 1 == last {
          assert parents[last - 1] == q;
        }
      } else if k == |parents| {
        NoNextAfterEnd(parents + [q], q);
      }
    }
  }

  method LinkToParent(buffer: array<Category>, i: nat)
    requires i < buffer.Length && buffer[i].parent <= i
    requires buffer[i].parent != 0 ==> 0 <= buffer[buffer[i].parent - 1].liveBytesDeep <= i
    modifies buffer
    ensures var q := old(buffer[i].parent);
            var last := if q == 0 then 0 else old(buffer[q - 1].liveBytesDeep);
            last != q || last == 0 ==> AllRelinked(buffer[..], old(buffer[..]), q, last, i + 1)
  {
    var parent := buffer[i].parent;
    if parent != 0 {
      var lastChild := buffer[parent - 1].liveBytesDeep;
      if lastChild != 0 {
        buffer[lastChild - 1] := buffer[lastChild - 1].(nextSibling := i + 1);
      } else {
        buffer[parent - 1] := buffer[parent - 1].(firstChild := i + 1);
      }
      buffer[parent - 1] := buffer[parent - 1].(liveBytesDeep := i + 1);
    }
  }

  predicate Unlinked(start: seq<Category>, parents: seq<nat>, k: nat)
    requires k < |start| && k < |parents|
  {
    var e := start[k];
    e.parent == parents[k] && e.firstChild == 0 && e.nextSibling == 0 && e.liveBytesDeep == 0
  }

  ghost predicate AllUnlinked(start: seq<Category>, parents: seq<nat>) {
    |parents| <= |start| && forall k: nat :: k < |parents| ==> Unlinked(start, parents, k)
  }

  predicate LinkedFrom(entries: seq<Category>, start: seq<Category>, parents: seq<nat>, k: nat)
    requires k < |entries| == |start|
  {
    entries[k] == LinkedEntry(start[k], parents, k)
  }

  ghost predicate AllLinked(entries: seq<Category>, start: seq<Category>, parents: seq<nat>, n: nat) {
    n <= |entries| == |start| && forall k: nat :: k < n ==> LinkedFrom(entries, start, parents, k)
  }

  ghost predicate AllRelinked(entries: seq<Category>, before: seq<Category>, q: nat, last: int, address: nat) {
    |entries| == |before| && forall k :: 0 <= k < |entries| ==> entries[k] == Relinked(before[k], k, q, last, address)
  }

  lemma LinkRound(start: seq<Category>, before: seq<Category>, after: seq<Category>, parents: seq<nat>, i: nat)
    requires i < |parents| && Topped(parents) && AllUnlinked(start, parents)
    requires AllLinked(before, start, parents[..i], |parents|)
    requires AllRelinked(after, before, parents[i], LastChild(parents[..i], parents[i]), i + 1)
    ensures AllLinked(after, start, parents[..i + 1], |parents|)
  {
    var q := parents[i];
    var prefix := parents[..i + 1];
    assert prefix == parents[..i] + [q];
    forall k: nat | k < |parents|
      ensures LinkedFrom(after, start, prefix, k)
    {
      assert LinkedFrom(before, start, parents[..i], k) && Unlinked(start, parents, k);
      LastIsBelow(parents[..i], q);
      LinkedStep(start[k], parents[..i], q, k);
    }
  }

  lemma LastIsBelow(parents: seq<nat>, q: nat)
    requires Topped(parents)
    ensures LastChild(parents, q) != 0 ==> q < LastChild(parents, q)
  {
  }

  lemma LinkStart(start: seq<Category>, parents: seq<nat>)
    requires AllUnlinked(start, parents)
    ensures AllLinked(start, start, [], |parents|)
  {
    forall k: nat | k < |parents| ensures LinkedFrom(start, start, [], k) {
      assert Unlinked(start, parents, k);
    }
  }

  lemma LinkReady(start: seq<Category>, before: seq<Category>, parents: seq<nat>, i: nat)
    requires i < |parents| && Topped(parents) && AllUnlinked(start, parents)
    requires AllLinked(before, start, parents[..i], |parents|)
    ensures before[i].parent == parents[i] <= i
    ensures parents[i] != 0 ==>
              before[parents[i] - 1].liveBytesDeep == LastChild(parents[..i], parents[i]) <= i
    ensures LastChild(parents[..i], parents[i]) != parents[i] || LastChild(parents[..i], parents[i]) == 0
  {
    assert LinkedFrom(before, start, parents[..i], i) && Unlinked(start, parents, i);
    if parents[i] != 0 {
      assert LinkedFrom(before, start, parents[..i], parents[i] - 1);
    }
    LastIsBelow(parents[..i], parents[i]);
  }

  method FillInChildAndSiblingCategories(buffer: array<Category>, writtenCount: nat, ghost parents: seq<nat>)
    requires writtenCount <= buffer.Length && |parents| == writtenCount && Topped(parents)
    requires AllUnlinked(buffer[..], parents)
    modifies buffer
    ensures AllLinked(buffer[..], old(buffer[..]), parents, writtenCount)
  {
    ghost var start := buffer[..];
    LinkStart(start, parents);
    assert parents[..0] == [];
    for i := 0 to writtenCount
      invariant AllLinked(buffer[..], start, parents[..i], writtenCount)
    {
      ghost var before := buffer[..];
      LinkReady(start, before, parents, i);
      LinkToParent(buffer, i);
      LinkRound(start, before, buffer[..], parents, i);
    }
    assert parents[..writtenCount] == parents;
  }

  // A chain of siblings, from address `a` on, is the list of addresses and ends there.
  predicate Enumerates(entries: seq<Category>, a: nat, addresses: seq<nat>)
    decreases |addresses|
  {
    if addresses == [] then a == 0
    else a == addresses[0] && 1 <= a <= |entries| && Enumerates(entries, entries[a - 1].nextSibling, addresses[1..])
  }

  predicate LinkedAt(entries: seq<Category>, parents: seq<nat>, k: nat) {
    && k < |parents| && k < |entries|
    && entries[k].parent == parents[k]
    && entries[k].firstChild == NextChild(parents, k + 1, 0)
    && entries[k].nextSibling == if parents[k] == 0 then 0 else NextChild(parents, parents[k], k + 1)
  }

  ghost predicate Linked(entries: seq<Category>, parents: seq<nat>) {
    |parents| <= |entries| && forall k: nat :: k < |parents| ==> LinkedAt(entries, parents, k)
  }

  // From the first child on, the siblings are exactly the written children, in the
  // order of the buffer.
  lemma {:induction false} ChainsEnumerateChildren(entries: seq<Category>, parents: seq<nat>, p: nat, k: nat)
    requires Linked(entries, parents) && 1 <= p && k <= |parents|
    ensures Enumerates(entries, NextChild(parents, p, k), ChildrenAfter(parents, p, k))
    decreases |parents| - k
  {
    if k < |parents| {
      ChainsEnumerateChildren(entries, parents, p, k + 1);
      var rest := ChildrenAfter(parents, p, k + 1);
      if parents[k] == p {
        assert LinkedAt(entries, parents, k);
        assert ChildrenAfter(parents, p, k) == [k + 1] + rest;
        EnumeratesMore(entries, k + 1, rest);
      } else {
        assert ChildrenAfter(parents, p, k) == rest;
      }
    }
  }

  lemma EnumeratesMore(entries: seq<Category>, a: nat, rest: seq<nat>)
    requires 1 <= a <= |entries| && Enumerates(entries, entries[a - 1].nextSibling, rest)
    ensures Enumerates(entries, a, [a] + rest)
  {
    assert ([a] + rest)[1..] == rest;
  }
}
