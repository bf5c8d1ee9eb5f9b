/** Summing the deep counters of the memory categories over the links in the buffer
    (OMR_TI.cpp). */
module CategoryCounters {
  import opened CategoryTree
  import opened MemoryCategories
  import opened CategorySnapshot

  // The tree the buffer holds, and the shallow counters of its nodes.
  datatype Shape = Shape(parents: seq<nat>, bytes: seq<int>, allocations: seq<int>) {
    ghost predicate Valid() {
      |parents| == |bytes| == |allocations| && Topped(parents)
    }

    ghost predicate EntryOk(entries: seq<Category>, k: nat) {
      && Valid() && k < |parents| && LinkedAt(entries, parents, k)
      && entries[k].liveBytesShallow == bytes[k] && entries[k].liveAllocationsShallow == allocations[k]
    }

    ghost predicate Describes(entries: seq<Category>) {
      Valid() && |parents| <= |entries| && forall k: nat :: k < |parents| ==> EntryOk(entries, k)
    }

    // The deep counters of node `a`: everything below it.
    ghost function DeepBytes(a: nat): int
      requires Valid()
    {
      Sum(parents, bytes, a, |parents|)
    }

    ghost function DeepAllocations(a: nat): int
      requires Valid()
    {
      Sum(parents, allocations, a, |parents|)
    }
  }

  function Counted(e: Category, bytes: int, allocations: int): Category {
    e.(liveBytesDeep := bytes, liveAllocationsDeep := allocations)
  }

  // Entry `k` after the counters of node `a` have been filled in: those below `a` have
  // their sums, and the parent of `a` has received what `a` has.
  ghost predicate FilledAt(after: seq<Category>, before: seq<Category>, s: Shape, a: nat, k: nat)
    requires s.Valid() && 1 <= a <= |s.parents| && k < |s.parents| <= |before| == |after|
  {
    after[k] ==
      if Under(s.parents, k + 1, a) then Counted(before[k], s.DeepBytes(k + 1), s.DeepAllocations(k + 1))
      else if k + 1 == s.parents[a - 1] then
        Counted(before[k], before[k].liveBytesDeep + s.DeepBytes(a), before[k].liveAllocationsDeep + s.DeepAllocations(a))
      else before[k]
  }

  ghost predicate Filled(after: seq<Category>, before: seq<Category>, s: Shape, a: nat)
    requires s.Valid() && 1 <= a <= |s.parents| <= |before| == |after|
  {
    && (forall k: nat :: k < |s.parents| ==> FilledAt(after, before, s, a, k))
    && after[|s.parents|..] == before[|s.parents|..]
  }

  // Entry `k` while the children of `a` are visited, those up to node `m` being done.
  ghost predicate PartlyAt(now: seq<Category>, before: seq<Category>, s: Shape, a: nat, m: nat, k: nat)
    requires s.Valid() && a <= |s.parents| && m <= |s.parents| && k < |s.parents| <= |before| == |now|
  {
    now[k] ==
      if k + 1 == a then
        Counted(before[k], s.bytes[k] + ChildSums(s.parents, s.bytes, a, |s.parents|, m),
                s.allocations[k] + ChildSums(s.parents, s.allocations, a, |s.parents|, m))
      else if Under(s.parents, k + 1, a) && ChildToward(s.parents, k + 1, a) <= m then
        Counted(before[k], s.DeepBytes(k + 1), s.DeepAllocations(k + 1))
      else before[k]
  }

  ghost predicate Partly(now: seq<Category>, before: seq<Category>, s: Shape, a: nat, m: nat)
    requires s.Valid() && a <= |s.parents| && m <= |s.parents| <= |before| == |now|
  {
    && (forall k: nat :: k < |s.parents| ==> PartlyAt(now, before, s, a, m, k))
    && now[|s.parents|..] == before[|s.parents|..]
  }

  lemma PartlyDescribes(now: seq<Category>, before: seq<Category>, s: Shape, a: nat, m: nat)
    requires s.Describes(before) && a <= |s.parents| && m <= |s.parents| <= |before| == |now|
    requires Partly(now, before, s, a, m)
    ensures s.Describes(now)
  {
    forall k: nat | k < |s.parents| ensures s.EntryOk(now, k) {
      assert s.EntryOk(before, k) && PartlyAt(now, before, s, a, m, k);
      assert LinkedAt(before, s.parents, k);
    }
  }

  // Visiting the next child.
  lemma PartlyStep(next: seq<Category>, now: seq<Category>, before: seq<Category>, s: Shape, a: nat, m: nat, c: nat)
    requires s.Valid() && a <= |s.parents| && m < c <= |s.parents| <= |before| == |now| == |next|
    requires Partly(now, before, s, a, m)
    requires s.parents[c - 1] == a && forall i :: m <= i < c - 1 ==> s.parents[i] != a
    requires Filled(next, now, s, c)
    ensures Partly(next, before, s, a, c)
  {
    var n := |s.parents|;
    ChildSumsSkip(s.parents, s.bytes, a, n, m, c - 1);
    ChildSumsSkip(s.parents, s.allocations, a, n, m, c - 1);
    forall k: nat | k < n ensures PartlyAt(next, before, s, a, c, k) {
      assert PartlyAt(now, before, s, a, m, k) && FilledAt(next, now, s, c, k);
      UnderChild(s.parents, k + 1, a, c);
    }
  }

  // A node that is not a child of `a` needs no visit.
  lemma PartlySkip(now: seq<Category>, before: seq<Category>, s: Shape, a: nat, m: nat, m': nat)
    requires s.Valid() && a <= |s.parents| && m <= m' <= |s.parents| <= |before| == |now|
    requires Partly(now, before, s, a, m)
    requires forall i :: m <= i < m' ==> s.parents[i] != a
    ensures Partly(now, before, s, a, m')
  {
    var n := |s.parents|;
    ChildSumsSkip(s.parents, s.bytes, a, n, m, m');
    ChildSumsSkip(s.parents, s.allocations, a, n, m, m');
    forall k: nat | k < n ensures PartlyAt(now, before, s, a, m', k) {
      assert PartlyAt(now, before, s, a, m, k);
    }
  }

  // When all children have been visited, everything below `a` has its sum.
  lemma PartlyDone(now: seq<Category>, before: seq<Category>, s: Shape, a: nat, k: nat)
    requires s.Valid() && a <= |s.parents| <= |before| == |now| && k < |s.parents|
    requires Partly(now, before, s, a, |s.parents|)
    ensures now[k] == if Under(s.parents, k + 1, a) then Counted(before[k], s.DeepBytes(k + 1), s.DeepAllocations(k + 1))
                      else before[k]
  {
    assert PartlyAt(now, before, s, a, |s.parents|, k);
    SumByChildren(s.parents, s.bytes, a, |s.parents|);
    SumByChildren(s.parents, s.allocations, a, |s.parents|);
  }

  lemma PartlyStart(now: seq<Category>, before: seq<Category>, s: Shape, a: nat)
    requires s.Describes(before) && 1 <= a <= |s.parents|
    requires now == before[a - 1 := Counted(before[a - 1], before[a - 1].liveBytesShallow, before[a - 1].liveAllocationsShallow)]
    ensures Partly(now, before, s, a, 0)
  {
    forall k: nat | k < |s.parents| ensures PartlyAt(now, before, s, a, 0, k) {
      assert s.EntryOk(before, k);
    }
  }

  lemma PartlyEnd(after: seq<Category>, now: seq<Category>, before: seq<Category>, s: Shape, a: nat)
    requires s.Describes(before) && 1 <= a <= |s.parents| && |now| == |before|
    requires Partly(now, before, s, a, |s.parents|)
    requires var p := s.parents[a - 1];
             after == if p == 0 then now
                      else now[p - 1 := Counted(now[p - 1], now[p - 1].liveBytesDeep + now[a - 1].liveBytesDeep,
                                                now[p - 1].liveAllocationsDeep + now[a - 1].liveAllocationsDeep)]
    ensures |after| == |before| && Filled(after, before, s, a)
  {
    PartlyDone(now, before, s, a, a - 1);
    forall k: nat | k < |s.parents| ensures FilledAt(after, before, s, a, k) {
      PartlyDone(now, before, s, a, k);
      if k + 1 == s.parents[a - 1] && Under(s.parents, k + 1, a) {
        UnderIsLater(s.parents, k + 1, a);
      }
    }
  }

  method FillInCategoryDeepCounters(buffer: array<Category>, category: nat, ghost s: Shape)
    requires 1 <= category <= |s.parents| && s.Describes(buffer[..])
    modifies buffer
    ensures Filled(buffer[..], old(buffer[..]), s, category) && s.Describes(buffer[..])
    decreases |s.parents| - category
  {
    ghost var n, before := |s.parents|, buffer[..];
    assert s.EntryOk(before, category - 1) && LinkedAt(before, s.parents, category - 1);
    var e := buffer[category - 1];
    buffer[category - 1] := e.(liveBytesDeep := e.liveBytesShallow, liveAllocationsDeep := e.liveAllocationsShallow);
    PartlyStart(buffer[..], before, s, category);

    var childCursor := buffer[category - 1].firstChild;
    ghost var m := 0;
    assert childCursor == NextChild(s.parents, category, 0);
    while childCursor != 0
      invariant m <= n && childCursor == NextChild(s.parents, category, m)
      invariant Partly(buffer[..], before, s, category, m)
      decreases n - m
    {
      ghost var now := buffer[..];
      PartlyDescribes(now, before, s, category, m);
      NoChildBetween(s.parents, category, m);
      FillInCategoryDeepCounters(buffer, childCursor, s);
      PartlyStep(buffer[..], now, before, s, category, m, childCursor);
      m := childCursor;
      PartlyDescribes(buffer[..], before, s, category, m);
      assert s.EntryOk(buffer[..], childCursor - 1) && LinkedAt(buffer[..], s.parents, childCursor - 1);
      childCursor := buffer[childCursor - 1].nextSibling;
    }
    NoChildBetween(s.parents, category, m);
    PartlySkip(buffer[..], before, s, category, m, n);
    PartlyDescribes(buffer[..], before, s, category, n);
    assert s.EntryOk(buffer[..], category - 1) && LinkedAt(buffer[..], s.parents, category - 1);

    ghost var now := buffer[..];
    var parent := buffer[category - 1].parent;
    if parent != 0 {
      buffer[parent - 1] := buffer[parent - 1].(
        liveBytesDeep := buffer[parent - 1].liveBytesDeep + buffer[category - 1].liveBytesDeep,
        liveAllocationsDeep := buffer[parent - 1].liveAllocationsDeep + buffer[category - 1].liveAllocationsDeep);
    }
    PartlyEnd(buffer[..], now, before, s, category);
    FilledDescribes(buffer[..], before, s, category);
  }

  lemma FilledDescribes(after: seq<Category>, before: seq<Category>, s: Shape, a: nat)
    requires s.Describes(before) && 1 <= a <= |s.parents| <= |before| == |after| && Filled(after, before, s, a)
    ensures s.Describes(after)
  {
    forall k: nat | k < |s.parents| ensures s.EntryOk(after, k) {
      assert s.EntryOk(before, k) && FilledAt(after, before, s, a, k);
      assert LinkedAt(before, s.parents, k);
    }
  }

  // ---------- The whole snapshot ----------

  function ShapeOf(visits: seq<Visit>): Shape {
    Shape(ParentsOf(visits), BytesOf(visits), AllocationsOf(visits))
  }

  lemma ShapeIsValid(visits: seq<Visit>)
    requires ValidWalk(visits)
    ensures ShapeOf(visits).Valid()
  {
    ParentsTopped(visits);
  }

  // Entry `k` of a finished snapshot of the categories in `visits`.
  ghost function FinalEntry(visits: seq<Visit>, k: nat): Category
    requires ValidWalk(visits) && k < |visits|
  {
    ShapeIsValid(visits);
    var s := ShapeOf(visits);
    Category(visits[k].name,
             visits[k].liveBytes, s.DeepBytes(k + 1),
             visits[k].liveAllocations, s.DeepAllocations(k + 1),
             NextChild(s.parents, k + 1, 0),
             if s.parents[k] == 0 then 0 else NextChild(s.parents, s.parents[k], k + 1),
             s.parents[k])
  }

  lemma FinalFields(visits: seq<Visit>, k: nat)
    requires ValidWalk(visits) && k < |visits|
    ensures FinalEntry(visits, k).parent == ParentsOf(visits)[k] && ShapeOf(visits).Valid()
    ensures FinalEntry(visits, k).liveBytesDeep == Sum(ParentsOf(visits), BytesOf(visits), k + 1, |visits|)
    ensures FinalEntry(visits, k).liveAllocationsDeep == Sum(ParentsOf(visits), AllocationsOf(visits), k + 1, |visits|)
  {
    ShapeIsValid(visits);
  }

  ghost predicate IsSnapshot(entries: seq<Category>, visits: seq<Visit>)
    requires ValidWalk(visits)
  {
    |visits| <= |entries| && forall k :: 0 <= k < |visits| ==> entries[k] == FinalEntry(visits, k)
  }

  lemma LinkedIsDescribed(entries: seq<Category>, start: seq<Category>, visits: seq<Visit>)
    requires ValidWalk(visits) && |visits| <= |start| == |entries|
    requires forall k :: 0 <= k < |visits| ==> start[k] == EntryAfterWalk(visits[k], ParentOf(visits, k))
    requires AllLinked(entries, start, ParentsOf(visits), |visits|)
    ensures ShapeOf(visits).Describes(entries)
  {
    ShapeIsValid(visits);
    forall k: nat | k < |visits| ensures ShapeOf(visits).EntryOk(entries, k) {
      assert LinkedFrom(entries, start, ParentsOf(visits), k);
      assert LinkedAt(entries, ParentsOf(visits), k);
    }
  }

  method FillInAllDeepCounters(buffer: array<Category>, writtenCount: nat, ghost s: Shape)
    requires |s.parents| == writtenCount && s.Describes(buffer[..])
    modifies buffer
    ensures forall k :: 0 <= k < writtenCount ==>
              buffer[k] == Counted(old(buffer[k]), s.DeepBytes(k + 1), s.DeepAllocations(k + 1))
  {
    ghost var before := buffer[..];
    assert forall k: nat :: k < writtenCount ==> PartlyAt(before, before, s, 0, 0, k);
    for i := 0 to writtenCount
      invariant Partly(buffer[..], before, s, 0, i)
    {
      ghost var now := buffer[..];
      PartlyDescribes(now, before, s, 0, i);
      assert s.EntryOk(now, i) && LinkedAt(now, s.parents, i);
      if buffer[i].parent == 0 {
        FillInCategoryDeepCounters(buffer, i + 1, s);
        PartlyStep(buffer[..], now, before, s, 0, i, i + 1);
      } else {
        PartlySkip(now, before, s, 0, i, i + 1);
      }
    }
    forall k | 0 <= k < writtenCount
      ensures buffer[k] == Counted(old(buffer[k]), s.DeepBytes(k + 1), s.DeepAllocations(k + 1))
    {
      UnderTop(s.parents, k + 1);
      PartlyDone(buffer[..], before, s, 0, k);
    }
  }

  method CalculateMappingSize(visits: seq<Visit>) returns (size: nat)
    requires ValidWalk(visits)
    ensures size == MappingSize(visits)
  {
    var maxLanguageIndex, maxOmrIndex := 0, 0;
    for i := 0 to |visits|
      invariant maxLanguageIndex == MaxLanguageIndex(visits[..i]) && maxOmrIndex == MaxOmrIndex(visits[..i])
    {
      assert visits[..i + 1][..i] == visits[..i];
      var code := visits[i].code;
      assert visits[i] in visits;
      if code < LANGUAGE_CATEGORY_LIMIT {
        maxLanguageIndex := Max(maxLanguageIndex, code);
      } else if code > LANGUAGE_CATEGORY_LIMIT {
        maxOmrIndex := Max(maxOmrIndex, OmrIndex(code));
      }
    }
    assert visits[..|visits|] == visits;
    size := maxLanguageIndex + 1 + maxOmrIndex + 1;
  }

  // The parameters that may be NULL are optional here; `canAllocate` says whether there
  // is memory for the mapping.
  method GetMemoryCategories(maxCategories: int, buffer: array?<Category>, wantWritten: bool, wantTotal: bool,
                             visits: seq<Visit>, canAllocate: bool)
    returns (rc: ErrorCode, written: nat, total: nat)
    requires ValidWalk(visits)
    requires buffer != null ==> maxCategories <= buffer.Length
    modifies buffer
    ensures rc == IllegalArgument <==>
              || (maxCategories > 0 && (buffer == null || !wantWritten))
              || (buffer == null && !wantWritten && !wantTotal)
    ensures rc == Internal <==> buffer != null && !canAllocate && (maxCategories <= 0 || wantWritten)
    ensures rc == IllegalArgument || rc == Internal ==> buffer != null ==> buffer[..] == old(buffer[..])
    ensures rc == NoError || rc == OutOfNativeMemory ==>
              total == |visits| && (buffer != null ==>
                && written == (if |visits| <= maxCategories then |visits| else if maxCategories > 0 then maxCategories else 0)
                && ValidWalk(visits[..written]) && IsSnapshot(buffer[..], visits[..written])
                && (rc == OutOfNativeMemory <==> written < |visits|))
    ensures rc == NoError || rc == OutOfNativeMemory || rc == IllegalArgument || rc == Internal
  {
    written, total := 0, 0;
    if (maxCategories > 0 && buffer == null) || (maxCategories > 0 && buffer != null && !wantWritten)
       || (buffer == null && !wantWritten && !wantTotal) {
      return IllegalArgument, 0, 0;
    }
    rc := NotAvailable;
    total := |visits|;
    if buffer != null {
      var mappingSize := CalculateMappingSize(visits);
      if !canAllocate {
        return Internal, 0, 0;
      }
      forall i | 0 <= i < maxCategories {
        buffer[i] := EMPTY;
      }
      var state := new CategoriesState(buffer, maxCategories, visits, mappingSize);
      state.Walk(visits);
      written := state.writtenCount;
      Finish(buffer, written, visits);
      rc := if state.bufferOverflow then OutOfNativeMemory else NoError;
    }
    if rc == NotAvailable {
      rc := NoError;
    }
  }

  // Linking and summing what the walk has written.
  method Finish(buffer: array<Category>, written: nat, ghost visits: seq<Visit>)
    requires ValidWalk(visits) && written <= |visits| && written <= buffer.Length
    requires forall i :: 0 <= i < written ==> buffer[i] == EntryAfterWalk(visits[i], ParentsOf(visits)[i])
    modifies buffer
    ensures ValidWalk(visits[..written]) && IsSnapshot(buffer[..], visits[..written])
  {
    ghost var seen, start := visits[..written], buffer[..];
    ValidWalkPrefix(visits, written);
    ParentsTopped(seen);
    forall k: nat | k < written
      ensures start[k] == EntryAfterWalk(seen[k], ParentOf(seen, k)) && Unlinked(start, ParentsOf(seen), k)
    {
      ParentInPrefix(visits, k, written);
    }
    FillInChildAndSiblingCategories(buffer, written, ParentsOf(seen));
    ghost var linked := buffer[..];
    LinkedIsDescribed(linked, start, seen);
    FillInAllDeepCounters(buffer, written, ShapeOf(seen));
    CountedIsFinal(buffer[..], linked, start, seen);
  }

  lemma CountedIsFinal(entries: seq<Category>, linked: seq<Category>, start: seq<Category>, visits: seq<Visit>)
    requires ValidWalk(visits) && |visits| <= |start| == |linked| == |entries|
    requires forall k :: 0 <= k < |visits| ==> start[k] == EntryAfterWalk(visits[k], ParentOf(visits, k))
    requires AllLinked(linked, start, ParentsOf(visits), |visits|)
    requires ShapeOf(visits).Valid()
    requires forall k :: 0 <= k < |visits| ==>
               entries[k] == Counted(linked[k], ShapeOf(visits).DeepBytes(k + 1), ShapeOf(visits).DeepAllocations(k + 1))
    ensures IsSnapshot(entries, visits)
  {
    forall k | 0 <= k < |visits| ensures entries[k] == FinalEntry(visits, k) {
      assert LinkedFrom(linked, start, ParentsOf(visits), k);
    }
  }

  // ---------- What a snapshot means ----------

  lemma SnapshotIsLinked(entries: seq<Category>, visits: seq<Visit>)
    requires ValidWalk(visits) && IsSnapshot(entries, visits)
    ensures Linked(entries, ParentsOf(visits))
  {
    forall k: nat | k < |visits| ensures LinkedAt(entries, ParentsOf(visits), k) {
      assert entries[k] == FinalEntry(visits, k);
    }
  }

  // The chain that starts at the first child of an entry visits exactly the written
  // children of that entry, in the order of the buffer.
  lemma ChildrenAreEnumerated(entries: seq<Category>, visits: seq<Visit>, k: nat)
    requires ValidWalk(visits) && IsSnapshot(entries, visits) && k < |visits|
    ensures Enumerates(entries, entries[k].firstChild, ChildrenAfter(ParentsOf(visits), k + 1, 0))
  {
    SnapshotIsLinked(entries, visits);
    ChainsEnumerateChildren(entries, ParentsOf(visits), k + 1, 0);
    assert entries[k] == FinalEntry(visits, k);
  }
}
