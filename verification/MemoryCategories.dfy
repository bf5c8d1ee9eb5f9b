/** The snapshot of the memory categories (OMR_TI.cpp): the categories are walked depth
    first and written to a flat buffer, linked to their children and siblings in place,
    and their deep counters are summed. */
module MemoryCategories {
  import opened CategoryTree

  const TWO_TO_THE_32: nat := 0x1_0000_0000
  const LANGUAGE_CATEGORY_LIMIT: nat := 0x7FFF_FFFF

  datatype ErrorCode = NoError | OutOfNativeMemory | IllegalArgument | NotAvailable | Internal

  // ---------- The walk ----------

  // The arguments of one call of the walk function.
  datatype Visit = Visit(
    code: nat,
    name: string,
    liveBytes: nat,
    liveAllocations: nat,
    isRoot: bool,
    parentCode: nat)

  // The categories as they are registered, and the walk over them, depth first.
  datatype Tree = Tree(code: nat, name: string, liveBytes: nat, liveAllocations: nat, children: seq<Tree>)

  function WalkTree(t: Tree, isRoot: bool, parentCode: nat): seq<Visit> {
    [Visit(t.code, t.name, t.liveBytes, t.liveAllocations, isRoot, parentCode)] + WalkChildren(t.children, t.code)
  }

  function WalkChildren(ts: seq<Tree>, parentCode: nat): seq<Visit> {
    if ts == [] then [] else WalkTree(ts[0], false, parentCode) + WalkChildren(ts[1..], parentCode)
  }

  function WalkForest(ts: seq<Tree>): seq<Visit> {
    if ts == [] then [] else WalkTree(ts[0], true, 0) + WalkForest(ts[1..])
  }

  predicate HasParentBefore(visits: seq<Visit>, i: nat)
    requires i < |visits|
  {
    exists j :: 0 <= j < i && visits[j].code == visits[i].parentCode
  }

  // Every category is walked after the one above it.
  predicate ParentsFirst(visits: seq<Visit>) {
    forall i :: 0 <= i < |visits| && !visits[i].isRoot ==> HasParentBefore(visits, i)
  }

  predicate DistinctCodes(visits: seq<Visit>) {
    forall i, j :: 0 <= i < j < |visits| ==> visits[i].code != visits[j].code
  }

  predicate AreCodes(visits: seq<Visit>) {
    forall v <- visits :: v.code < TWO_TO_THE_32
  }

  // The code between language and other categories is none of either.
  predicate ValidWalk(visits: seq<Visit>) {
    && ParentsFirst(visits) && DistinctCodes(visits) && AreCodes(visits)
    && forall v <- visits :: v.code != LANGUAGE_CATEGORY_LIMIT
  }

  // Each visit is below `parentCode`, or below a category visited before.
  predicate Below(visits: seq<Visit>, parentCode: nat) {
    forall i :: 0 <= i < |visits| && !visits[i].isRoot ==>
      visits[i].parentCode == parentCode || HasParentBefore(visits, i)
  }

  lemma BelowAppend(vs: seq<Visit>, ws: seq<Visit>, parentCode: nat)
    requires Below(vs, parentCode) && Below(ws, parentCode)
    ensures Below(vs + ws, parentCode)
  {
    var both := vs + ws;
    forall i | 0 <= i < |both| && !both[i].isRoot && both[i].parentCode != parentCode
      ensures HasParentBefore(both, i)
    {
      if i < |vs| {
        var j :| 0 <= j < i && vs[j].code == vs[i].parentCode;
        assert both[j].code == both[i].parentCode;
      } else {
        assert HasParentBefore(ws, i - |vs|);
        var j :| 0 <= j < i - |vs| && ws[j].code == ws[i - |vs|].parentCode;
        assert both[|vs| + j].code == both[i].parentCode;
      }
    }
  }

  lemma {:induction false} WalkTreeBelow(t: Tree, isRoot: bool, parentCode: nat)
    ensures Below(WalkTree(t, isRoot, parentCode), parentCode)
    decreases t
  {
    var head := [Visit(t.code, t.name, t.liveBytes, t.liveAllocations, isRoot, parentCode)];
    var rest := WalkChildren(t.children, t.code);
    var all := WalkTree(t, isRoot, parentCode);
    WalkChildrenBelow(t.children, t.code);
    forall i | 1 <= i < |all| && !all[i].isRoot
      ensures HasParentBefore(all, i)
    {
      if all[i].parentCode == t.code {
        assert all[0].code == all[i].parentCode;
      } else {
        assert HasParentBefore(rest, i - 1);
        var j :| 0 <= j < i - 1 && rest[j].code == rest[i - 1].parentCode;
        assert all[j + 1].code == all[i].parentCode;
      }
    }
  }

  lemma {:induction false} WalkChildrenBelow(ts: seq<Tree>, parentCode: nat)
    ensures Below(WalkChildren(ts, parentCode), parentCode)
    decreases ts
  {
    if ts != [] {
      WalkTreeBelow(ts[0], false, parentCode);
      WalkChildrenBelow(ts[1..], parentCode);
      BelowAppend(WalkTree(ts[0], false, parentCode), WalkChildren(ts[1..], parentCode), parentCode);
    }
  }

  // The walk over any forest visits every category after the one above it.
  lemma {:induction false} WalkForestParentsFirst(ts: seq<Tree>)
    ensures ParentsFirst(WalkForest(ts))
  {
    if ts != [] {
      var vs, ws := WalkTree(ts[0], true, 0), WalkForest(ts[1..]);
      WalkForestParentsFirst(ts[1..]);
      RootedParentsFirst(ts[0]);
      var both := WalkForest(ts);
      forall i | 0 <= i < |both| && !both[i].isRoot ensures HasParentBefore(both, i) {
        if i < |vs| {
          assert HasParentBefore(vs, i);
          var j :| 0 <= j < i && vs[j].code == vs[i].parentCode;
          assert both[j].code == both[i].parentCode;
        } else {
          assert HasParentBefore(ws, i - |vs|);
          var j :| 0 <= j < i - |vs| && ws[j].code == ws[i - |vs|].parentCode;
          assert both[|vs| + j].code == both[i].parentCode;
        }
      }
    }
  }

  lemma RootedParentsFirst(t: Tree)
    ensures ParentsFirst(WalkTree(t, true, 0))
  {
    var rest, all := WalkChildren(t.children, t.code), WalkTree(t, true, 0);
    WalkChildrenBelow(t.children, t.code);
    forall i | 0 <= i < |all| && !all[i].isRoot ensures HasParentBefore(all, i) {
      if all[i].parentCode == t.code {
        assert all[0].code == all[i].parentCode;
      } else {
        assert HasParentBefore(rest, i - 1);
        var j :| 0 <= j < i - 1 && rest[j].code == rest[i - 1].parentCode;
        assert all[j + 1].code == all[i].parentCode;
      }
    }
  }

  // A walk that is cut short is still one.
  lemma ValidWalkPrefix(visits: seq<Visit>, n: nat)
    requires ValidWalk(visits) && n <= |visits|
    ensures ValidWalk(visits[..n])
  {
    forall i | 0 <= i < n && !visits[i].isRoot ensures HasParentBefore(visits[..n], i) {
      assert HasParentBefore(visits, i);
      var j :| 0 <= j < i && visits[j].code == visits[i].parentCode;
      assert visits[..n][j].code == visits[..n][i].parentCode;
    }
  }

  // ---------- Indexes of the mapping ----------

  // The low 31 bits of a code.
  function OmrIndex(code: nat): (index: nat)
    requires code < TWO_TO_THE_32
    ensures index < 0x8000_0000 && index == code % 0x8000_0000
  {
    if code < 0x8000_0000 then code else code - 0x8000_0000
  }

  function Max(x: nat, y: nat): nat {
    if x > y then x else y
  }

  function MaxLanguageIndex(visits: seq<Visit>): (m: nat)
    ensures m < LANGUAGE_CATEGORY_LIMIT
    ensures forall v <- visits :: v.code < LANGUAGE_CATEGORY_LIMIT ==> v.code <= m
  {
    if visits == [] then 0
    else
      var code, rest := visits[|visits| - 1].code, MaxLanguageIndex(visits[..|visits| - 1]);
      if code < LANGUAGE_CATEGORY_LIMIT then Max(rest, code) else rest
  }

  function MaxOmrIndex(visits: seq<Visit>): (m: nat)
    requires AreCodes(visits)
    ensures m <= LANGUAGE_CATEGORY_LIMIT
    ensures forall v <- visits :: v.code > LANGUAGE_CATEGORY_LIMIT ==> OmrIndex(v.code) <= m
  {
    if visits == [] then 0
    else
      var last := visits[|visits| - 1];
      assert last in visits;
      var code, rest := last.code, MaxOmrIndex(visits[..|visits| - 1]);
      if code > LANGUAGE_CATEGORY_LIMIT then Max(rest, OmrIndex(code)) else rest
  }

  // The size of the mapping that the walk over the categories asks for.
  function MappingSize(visits: seq<Visit>): (size: nat)
    requires AreCodes(visits)
    ensures 2 <= size < TWO_TO_THE_32
  {
    MaxLanguageIndex(visits) + 1 + MaxOmrIndex(visits) + 1
  }

  // Language codes go to the slots from the front, the others to the slots from the
  // back; the subtraction is one of 32-bit unsigned numbers.
  function IndexFromCategoryCode(size: nat, code: nat): (index: nat)
    requires size < TWO_TO_THE_32 && code < TWO_TO_THE_32
  {
    if code > LANGUAGE_CATEGORY_LIMIT then
      var difference := size - 1 - OmrIndex(code);
      if difference < 0 then difference + TWO_TO_THE_32 else difference
    else code
  }

  function Slot(visits: seq<Visit>, i: nat): nat
    requires i < |visits| && AreCodes(visits)
  {
    assert visits[i] in visits;
    IndexFromCategoryCode(MappingSize(visits), visits[i].code)
  }

  // Each walked code has a slot of its own within the mapping: language codes in the
  // front part, the others behind it.
  lemma IndexInRange(visits: seq<Visit>, i: nat)
    requires i < |visits| && AreCodes(visits) && visits[i].code != LANGUAGE_CATEGORY_LIMIT
    ensures var index := Slot(visits, i);
            if visits[i].code < LANGUAGE_CATEGORY_LIMIT then index == visits[i].code <= MaxLanguageIndex(visits)
            else MaxLanguageIndex(visits) < index < MappingSize(visits)
                 && index == MappingSize(visits) - 1 - OmrIndex(visits[i].code)
  {
    assert visits[i] in visits;
  }

  lemma IndexInjective(visits: seq<Visit>, i: nat, j: nat)
    requires i < |visits| && j < |visits| && AreCodes(visits)
    requires visits[i].code != LANGUAGE_CATEGORY_LIMIT && visits[j].code != LANGUAGE_CATEGORY_LIMIT
    requires Slot(visits, i) == Slot(visits, j)
    ensures visits[i].code == visits[j].code
  {
    IndexInRange(visits, i);
    IndexInRange(visits, j);
  }

  // The code between the two kinds is counted by neither. Every walked category has a
  // slot of its own within the mapping if and only if that code is not walked, or the
  // others need so many slots that there is one for it which none of them takes.
  lemma SlotsAreUsableExactly(visits: seq<Visit>)
    requires AreCodes(visits) && DistinctCodes(visits)
    ensures (&& (forall i :: 0 <= i < |visits| ==> Slot(visits, i) < MappingSize(visits))
             && (forall i, j :: 0 <= i < j < |visits| ==> Slot(visits, i) != Slot(visits, j)))
            <==> ((exists v <- visits :: v.code == LANGUAGE_CATEGORY_LIMIT) ==>
                    && MappingSize(visits) > LANGUAGE_CATEGORY_LIMIT
                    && forall v <- visits :: v.code > LANGUAGE_CATEGORY_LIMIT ==>
                         OmrIndex(v.code) != MappingSize(visits) - 1 - LANGUAGE_CATEGORY_LIMIT)
  {
    forall i | 0 <= i < |visits|
      ensures if visits[i].code == LANGUAGE_CATEGORY_LIMIT then Slot(visits, i) == LANGUAGE_CATEGORY_LIMIT
              else Slot(visits, i) < MappingSize(visits)
    {
      if visits[i].code != LANGUAGE_CATEGORY_LIMIT {
        IndexInRange(visits, i);
      }
    }
    forall i, j | 0 <= i < j < |visits|
      ensures Slot(visits, i) != Slot(visits, j) || SharesLimit(visits, i, j) || SharesLimit(visits, j, i)
    {
      if Slot(visits, i) == Slot(visits, j) {
        SharedSlot(visits, i, j);
      }
    }
    if k, j :| 0 <= k < |visits| && 0 <= j < |visits| && SharesLimit(visits, k, j) {
      IndexInRange(visits, j);
      assert Slot(visits, k) == Slot(visits, j);
    }
  }

  // The slot of the code between, at `i`, is that of another category.
  predicate SharesLimit(visits: seq<Visit>, i: nat, j: nat)
    requires i < |visits| && j < |visits| && AreCodes(visits)
  {
    && visits[i].code == LANGUAGE_CATEGORY_LIMIT && visits[j].code > LANGUAGE_CATEGORY_LIMIT
    && OmrIndex(visits[j].code) == MappingSize(visits) - 1 - LANGUAGE_CATEGORY_LIMIT
  }

  lemma SharedSlot(visits: seq<Visit>, i: nat, j: nat)
    requires i < |visits| && j < |visits| && AreCodes(visits)
    requires visits[i].code != visits[j].code && Slot(visits, i) == Slot(visits, j)
    ensures SharesLimit(visits, i, j) || SharesLimit(visits, j, i)
  {
    if visits[i].code != LANGUAGE_CATEGORY_LIMIT {
      IndexInRange(visits, i);
    }
    if visits[j].code != LANGUAGE_CATEGORY_LIMIT {
      IndexInRange(visits, j);
    }
  }

  // The two parts of the mapping are no larger than they need to be: the last slot of the
  // front part and the first one behind it are taken, if there are such categories.
  lemma PartsAdjoin(visits: seq<Visit>)
    requires AreCodes(visits)
    ensures (exists v <- visits :: v.code < LANGUAGE_CATEGORY_LIMIT) ==>
              exists i :: 0 <= i < |visits| && visits[i].code < LANGUAGE_CATEGORY_LIMIT && Slot(visits, i) == MaxLanguageIndex(visits)
    ensures (exists v <- visits :: v.code > LANGUAGE_CATEGORY_LIMIT) ==>
              exists i :: 0 <= i < |visits| && visits[i].code > LANGUAGE_CATEGORY_LIMIT && Slot(visits, i) == MaxLanguageIndex(visits) + 1
  {
    if v :| v in visits && v.code < LANGUAGE_CATEGORY_LIMIT {
      var i := LargestLanguageCode(visits, v);
      IndexInRange(visits, i);
    }
    if v :| v in visits && v.code > LANGUAGE_CATEGORY_LIMIT {
      var i := LargestOmrCode(visits, v);
      IndexInRange(visits, i);
      assert Slot(visits, i) == MaxLanguageIndex(visits) + 1;
    }
  }

  lemma {:induction false} LargestLanguageCode(visits: seq<Visit>, v: Visit) returns (i: nat)
    requires v in visits && v.code < LANGUAGE_CATEGORY_LIMIT
    ensures i < |visits| && visits[i].code < LANGUAGE_CATEGORY_LIMIT && visits[i].code == MaxLanguageIndex(visits)
  {
    var n := |visits| - 1;
    if forall w <- visits[..n] :: w.code >= LANGUAGE_CATEGORY_LIMIT {
      NoLanguageCode(visits[..n]);
    }
    if visits[n].code < LANGUAGE_CATEGORY_LIMIT && visits[n].code == MaxLanguageIndex(visits) {
      i := n;
    } else {
      var w :| w in visits[..n] && w.code < LANGUAGE_CATEGORY_LIMIT;
      i := LargestLanguageCode(visits[..n], w);
    }
  }

  lemma {:induction false} NoLanguageCode(visits: seq<Visit>)
    requires forall v <- visits :: v.code >= LANGUAGE_CATEGORY_LIMIT
    ensures MaxLanguageIndex(visits) == 0
  {
    if visits != [] {
      assert visits[|visits| - 1] in visits;
      NoLanguageCode(visits[..|visits| - 1]);
    }
  }

  lemma {:induction false} LargestOmrCode(visits: seq<Visit>, v: Visit) returns (i: nat)
    requires AreCodes(visits) && v in visits && v.code > LANGUAGE_CATEGORY_LIMIT
    ensures i < |visits| && visits[i].code > LANGUAGE_CATEGORY_LIMIT
    ensures visits[i].code < TWO_TO_THE_32 && OmrIndex(visits[i].code) == MaxOmrIndex(visits)
  {
    var n := |visits| - 1;
    assert visits[n] in visits;
    if forall w <- visits[..n] :: w.code <= LANGUAGE_CATEGORY_LIMIT {
      NoOmrCode(visits[..n]);
    }
    if visits[n].code > LANGUAGE_CATEGORY_LIMIT && OmrIndex(visits[n].code) == MaxOmrIndex(visits) {
      i := n;
    } else {
      var w :| w in visits[..n] && w.code > LANGUAGE_CATEGORY_LIMIT;
      i := LargestOmrCode(visits[..n], w);
    }
  }

  lemma {:induction false} NoOmrCode(visits: seq<Visit>)
    requires AreCodes(visits) && forall v <- visits :: v.code <= LANGUAGE_CATEGORY_LIMIT
    ensures MaxOmrIndex(visits) == 0
  {
    if visits != [] {
      assert visits[|visits| - 1] in visits;
      NoOmrCode(visits[..|visits| - 1]);
    }
  }
}
