/** A finished snapshot against the forest of categories that was walked: the links of an
    entry lead to the children of its category, and its deep counter is the sum over the
    categories below it. */
module CategoryForest {
  import opened CategoryTree
  import opened MemoryCategories
  import opened CategorySnapshot
  import opened CategoryCounters

  // ---------- The forest ----------

  // The tree is one of these, or part of one.
  predicate InForest(t: Tree, ts: seq<Tree>) {
    ts != [] && (t == ts[0] || InForest(t, ts[0].children) || InForest(t, ts[1..]))
  }

  function CodesOf(ts: seq<Tree>): seq<nat> {
    if ts == [] then [] else [ts[0].code] + CodesOf(ts[1..])
  }

  // Both counters of a category.
  datatype Counter = Bytes | Allocations {
    function OfTree(t: Tree): nat {
      match this
      case Bytes => t.liveBytes
      case Allocations => t.liveAllocations
    }

    function OfVisit(v: Visit): nat {
      match this
      case Bytes => v.liveBytes
      case Allocations => v.liveAllocations
    }

    function Shallow(e: Category): int {
      match this
      case Bytes => e.liveBytesShallow
      case Allocations => e.liveAllocationsShallow
    }

    function Deep(e: Category): int {
      match this
      case Bytes => e.liveBytesDeep
      case Allocations => e.liveAllocationsDeep
    }
  }

  function TreeTotal(t: Tree, counter: Counter): nat {
    counter.OfTree(t) + TreesTotal(t.children, counter)
  }

  function TreesTotal(ts: seq<Tree>, counter: Counter): nat {
    if ts == [] then 0 else TreeTotal(ts[0], counter) + TreesTotal(ts[1..], counter)
  }

  // ---------- Children in a walk ----------

  // The codes of the categories walked below the one with code `c`.
  function Kids(visits: seq<Visit>, c: nat): seq<nat> {
    if visits == [] then []
    else
      var v := visits[|visits| - 1];
      Kids(visits[..|visits| - 1], c) + if !v.isRoot && v.parentCode == c then [v.code] else []
  }

  lemma {:induction false} KidsConcat(a: seq<Visit>, b: seq<Visit>, c: nat)
    ensures Kids(a + b, c) == Kids(a, c) + Kids(b, c)
  {
    if b == [] {
      assert a + b == a;
    } else {
      var n := |b| - 1;
      KidsConcat(a, b[..n], c);
      assert (a + b)[..|a + b| - 1] == a + b[..n];
    }
  }

  predicate HasCode(visits: seq<Visit>, c: nat) {
    exists v <- visits :: v.code == c
  }

  lemma HasCodeConcat(a: seq<Visit>, b: seq<Visit>, c: nat)
    ensures HasCode(a + b, c) <==> HasCode(a, c) || HasCode(b, c)
  {
    if v :| v in a && v.code == c {
      assert v in a + b;
    }
    if v :| v in b && v.code == c {
      assert v in a + b;
    }
  }

  lemma DistinctParts(a: seq<Visit>, b: seq<Visit>, c: nat)
    requires DistinctCodes(a + b)
    ensures DistinctCodes(a) && DistinctCodes(b) && !(HasCode(a, c) && HasCode(b, c))
  {
    forall i, j | 0 <= i < j < |a| ensures a[i].code != a[j].code {
      assert (a + b)[i] == a[i] && (a + b)[j] == a[j];
    }
    forall i, j | 0 <= i < j < |b| ensures b[i].code != b[j].code {
      assert (a + b)[|a| + i] == b[i] && (a + b)[|a| + j] == b[j];
    }
    forall v, w | v in a && w in b ensures v.code != w.code {
      var i :| 0 <= i < |a| && a[i] == v;
      var j :| 0 <= j < |b| && b[j] == w;
      assert (a + b)[i] == v && (a + b)[|a| + j] == w;
    }
  }

  function Root(t: Tree, isRoot: bool, parentCode: nat): seq<Visit> {
    [Visit(t.code, t.name, t.liveBytes, t.liveAllocations, isRoot, parentCode)]
  }

  lemma {:induction false} KidsOfRoot(t: Tree, isRoot: bool, parentCode: nat, c: nat)
    ensures Kids(Root(t, isRoot, parentCode), c) == if !isRoot && parentCode == c then [t.code] else []
    ensures HasCode(Root(t, isRoot, parentCode), c) <==> t.code == c
  {
    assert Root(t, isRoot, parentCode)[..0] == [];
    assert Root(t, isRoot, parentCode)[0] in Root(t, isRoot, parentCode);
  }

  lemma {:induction false} KidsOfWalkTree(t: Tree, isRoot: bool, parentCode: nat, c: nat)
    ensures Kids(WalkTree(t, isRoot, parentCode), c)
         == (if !isRoot && parentCode == c then [t.code] else []) + Kids(WalkChildren(t.children, t.code), c)
    ensures HasCode(WalkTree(t, isRoot, parentCode), c) <==> t.code == c || HasCode(WalkChildren(t.children, t.code), c)
  {
    KidsConcat(Root(t, isRoot, parentCode), WalkChildren(t.children, t.code), c);
    HasCodeConcat(Root(t, isRoot, parentCode), WalkChildren(t.children, t.code), c);
    KidsOfRoot(t, isRoot, parentCode, c);
  }

  lemma {:induction false} KidsOfWalkChildren(ts: seq<Tree>, parentCode: nat, c: nat)
    requires ts != []
    ensures Kids(WalkChildren(ts, parentCode), c)
         == (if parentCode == c then [ts[0].code] else []) + Kids(WalkChildren(ts[0].children, ts[0].code), c)
            + Kids(WalkChildren(ts[1..], parentCode), c)
    ensures HasCode(WalkChildren(ts, parentCode), c)
            <==> ts[0].code == c || HasCode(WalkChildren(ts[0].children, ts[0].code), c)
                 || HasCode(WalkChildren(ts[1..], parentCode), c)
  {
    KidsConcat(WalkTree(ts[0], false, parentCode), WalkChildren(ts[1..], parentCode), c);
    HasCodeConcat(WalkTree(ts[0], false, parentCode), WalkChildren(ts[1..], parentCode), c);
    KidsOfWalkTree(ts[0], false, parentCode, c);
  }

  // Below a category that is not among them, there are none of these.
  lemma {:induction false} KidsOfStranger(ts: seq<Tree>, parentCode: nat, c: nat)
    requires !HasCode(WalkChildren(ts, parentCode), c) && c != parentCode
    ensures Kids(WalkChildren(ts, parentCode), c) == []
    decreases ts
  {
    if ts != [] {
      KidsOfWalkChildren(ts, parentCode, c);
      KidsOfStranger(ts[0].children, ts[0].code, c);
      KidsOfStranger(ts[1..], parentCode, c);
    }
  }

  lemma {:induction false} KidsOfParent(ts: seq<Tree>, parentCode: nat)
    requires !HasCode(WalkChildren(ts, parentCode), parentCode)
    ensures Kids(WalkChildren(ts, parentCode), parentCode) == CodesOf(ts)
    decreases ts
  {
    if ts != [] {
      KidsOfWalkChildren(ts, parentCode, parentCode);
      KidsOfStranger(ts[0].children, ts[0].code, parentCode);
      KidsOfParent(ts[1..], parentCode);
    }
  }

  lemma {:induction false} InForestIsWalked(t: Tree, ts: seq<Tree>, parentCode: nat)
    requires InForest(t, ts)
    ensures HasCode(WalkChildren(ts, parentCode), t.code)
    decreases ts
  {
    KidsOfWalkChildren(ts, parentCode, t.code);
    if t != ts[0] {
      if InForest(t, ts[0].children) {
        InForestIsWalked(t, ts[0].children, ts[0].code);
      } else {
        InForestIsWalked(t, ts[1..], parentCode);
      }
    }
  }

  lemma {:induction false} DistinctInTree(t: Tree, isRoot: bool, parentCode: nat)
    requires DistinctCodes(WalkTree(t, isRoot, parentCode))
    ensures DistinctCodes(WalkChildren(t.children, t.code)) && !HasCode(WalkChildren(t.children, t.code), t.code)
  {
    DistinctParts(Root(t, isRoot, parentCode), WalkChildren(t.children, t.code), t.code);
    KidsOfRoot(t, isRoot, parentCode, t.code);
  }

  // Below a category of the forest, its own children are walked, in their order.
  lemma {:induction false} KidsAreChildren(t: Tree, ts: seq<Tree>, parentCode: nat)
    requires InForest(t, ts) && DistinctCodes(WalkChildren(ts, parentCode))
    requires !HasCode(WalkChildren(ts, parentCode), parentCode)
    ensures Kids(WalkChildren(ts, parentCode), t.code) == CodesOf(t.children)
    decreases ts
  {
    KidsOfWalkChildren(ts, parentCode, t.code);
    KidsOfWalkChildren(ts, parentCode, parentCode);
    InForestIsWalked(t, ts, parentCode);
    DistinctParts(WalkTree(ts[0], false, parentCode), WalkChildren(ts[1..], parentCode), t.code);
    KidsOfWalkTree(ts[0], false, parentCode, t.code);
    DistinctInTree(ts[0], false, parentCode);
    KidsInTree(t, ts[0]);
    if InForest(t, ts[1..]) {
      InForestIsWalked(t, ts[1..], parentCode);
      KidsAreChildren(t, ts[1..], parentCode);
    } else {
      KidsOfStranger(ts[1..], parentCode, t.code);
    }
  }

  // What a tree has below the category `t`: its children if it is in the tree.
  lemma {:induction false} KidsInTree(t: Tree, u: Tree)
    requires DistinctCodes(WalkChildren(u.children, u.code)) && !HasCode(WalkChildren(u.children, u.code), u.code)
    ensures if t == u || InForest(t, u.children) then
              && (t.code == u.code || HasCode(WalkChildren(u.children, u.code), t.code))
              && Kids(WalkChildren(u.children, u.code), t.code) == CodesOf(t.children)
            else
              t.code != u.code && !HasCode(WalkChildren(u.children, u.code), t.code) ==>
                Kids(WalkChildren(u.children, u.code), t.code) == []
    decreases u
  {
    if t == u {
      KidsOfParent(u.children, u.code);
    } else if InForest(t, u.children) {
      InForestIsWalked(t, u.children, u.code);
      KidsAreChildren(t, u.children, u.code);
    } else if t.code != u.code && !HasCode(WalkChildren(u.children, u.code), t.code) {
      KidsOfStranger(u.children, u.code, t.code);
    }
  }

  lemma {:induction false} KidsInForest(t: Tree, ts: seq<Tree>)
    requires DistinctCodes(WalkForest(ts))
    ensures InForest(t, ts) ==> HasCode(WalkForest(ts), t.code) && Kids(WalkForest(ts), t.code) == CodesOf(t.children)
    ensures !HasCode(WalkForest(ts), t.code) ==> Kids(WalkForest(ts), t.code) == []
    decreases ts
  {
    if ts != [] {
      var u := ts[0];
      KidsConcat(WalkTree(u, true, 0), WalkForest(ts[1..]), t.code);
      HasCodeConcat(WalkTree(u, true, 0), WalkForest(ts[1..]), t.code);
      KidsOfWalkTree(u, true, 0, t.code);
      DistinctParts(WalkTree(u, true, 0), WalkForest(ts[1..]), t.code);
      DistinctInTree(u, true, 0);
      KidsInTree(t, u);
      KidsInForest(t, ts[1..]);
    }
  }

  // ---------- Children in a snapshot ----------

  // A chain of siblings, from address `a` on, has the categories with these codes.
  predicate ChainHasCodes(entries: seq<Category>, visits: seq<Visit>, a: nat, codes: seq<nat>)
    decreases |codes|
  {
    if codes == [] then a == 0
    else
      && 1 <= a <= |visits| && a <= |entries| && visits[a - 1].code == codes[0]
      && ChainHasCodes(entries, visits, entries[a - 1].nextSibling, codes[1..])
  }

  lemma IsKidOf(visits: seq<Visit>, k: nat, j: nat)
    requires ValidWalk(visits) && k < |visits| && j < |visits|
    ensures ParentsOf(visits)[j] == k + 1 <==> !visits[j].isRoot && visits[j].parentCode == visits[k].code
  {
    if !visits[j].isRoot {
      ParentIsBefore(visits, j);
      var f := FindCode(visits, visits[j].parentCode);
      assert visits[f].code == visits[j].parentCode;
    }
  }

  lemma {:induction false} ChainsHaveKids(entries: seq<Category>, visits: seq<Visit>, k: nat, j: nat)
    requires ValidWalk(visits) && Linked(entries, ParentsOf(visits)) && k < |visits| && j <= |visits|
    ensures ChainHasCodes(entries, visits, NextChild(ParentsOf(visits), k + 1, j), Kids(visits[j..], visits[k].code))
    decreases |visits| - j
  {
    if j < |visits| {
      var parents, rest := ParentsOf(visits), Kids(visits[j + 1..], visits[k].code);
      ChainsHaveKids(entries, visits, k, j + 1);
      KidsFrom(visits, k, j);
      if parents[j] == k + 1 {
        assert LinkedAt(entries, parents, j);
        ChainGrows(entries, visits, j + 1, rest);
      }
    }
  }

  lemma KidsFrom(visits: seq<Visit>, k: nat, j: nat)
    requires ValidWalk(visits) && k < |visits| && j < |visits|
    ensures Kids(visits[j..], visits[k].code)
         == if ParentsOf(visits)[j] == k + 1 then [visits[j].code] + Kids(visits[j + 1..], visits[k].code)
            else Kids(visits[j + 1..], visits[k].code)
  {
    var rest, c := visits[j + 1..], visits[k].code;
    assert visits[j..] == [visits[j]] + rest;
    IsKidOf(visits, k, j);
    KidOfOne(visits[j], c);
    KidsConcat([visits[j]], rest, c);
    assert [] + Kids(rest, c) == Kids(rest, c);
  }

  lemma ChainGrows(entries: seq<Category>, visits: seq<Visit>, a: nat, rest: seq<nat>)
    requires 1 <= a <= |visits| && a <= |entries| && ChainHasCodes(entries, visits, entries[a - 1].nextSibling, rest)
    ensures ChainHasCodes(entries, visits, a, [visits[a - 1].code] + rest)
  {
    assert ([visits[a - 1].code] + rest)[1..] == rest;
  }

  lemma KidOfOne(v: Visit, c: nat)
    ensures Kids([v], c) == if !v.isRoot && v.parentCode == c then [v.code] else []
  {
    assert [v][..0] == [];
  }

  // ---------- Sums in a snapshot ----------

  function WeightsOf(visits: seq<Visit>, counter: Counter): (weights: seq<int>)
    ensures |weights| == |visits|
  {
    seq(|visits|, i requires 0 <= i < |visits| => counter.OfVisit(visits[i]))
  }

  // An entry has the counters of its category, and sums up those of the entries below it.
  lemma CountersOfEntry(entries: seq<Category>, visits: seq<Visit>, k: nat, counter: Counter)
    requires ValidWalk(visits) && IsSnapshot(entries, visits) && k < |visits|
    ensures Topped(ParentsOf(visits)) && entries[k].parent == ParentsOf(visits)[k]
    ensures counter.Shallow(entries[k]) == counter.OfVisit(visits[k])
    ensures counter.Deep(entries[k]) == Sum(ParentsOf(visits), WeightsOf(visits, counter), k + 1, |visits|)
  {
    ParentsTopped(visits);
    assert entries[k] == FinalEntry(visits, k);
    FinalFields(visits, k);
    assert WeightsOf(visits, Bytes) == BytesOf(visits) && WeightsOf(visits, Allocations) == AllocationsOf(visits);
  }

  // What the category with code `c` has below it.
  function DeepAt(visits: seq<Visit>, c: nat, counter: Counter): int
    requires Topped(ParentsOf(visits))
  {
    var k := FindCode(visits, c);
    if k == |visits| then 0 else Sum(ParentsOf(visits), WeightsOf(visits, counter), k + 1, |visits|)
  }

  function DeepOf(visits: seq<Visit>, codes: seq<nat>, counter: Counter): int
    requires Topped(ParentsOf(visits))
  {
    if codes == [] then 0 else DeepAt(visits, codes[0], counter) + DeepOf(visits, codes[1..], counter)
  }

  lemma {:induction false} DeepOfConcat(visits: seq<Visit>, a: seq<nat>, b: seq<nat>, counter: Counter)
    requires Topped(ParentsOf(visits))
    ensures DeepOf(visits, a + b, counter) == DeepOf(visits, a, counter) + DeepOf(visits, b, counter)
  {
    if a == [] {
      assert a + b == b;
    } else {
      assert (a + b)[1..] == a[1..] + b;
      DeepOfConcat(visits, a[1..], b, counter);
    }
  }

  lemma CodeIsFound(visits: seq<Visit>, k: nat)
    requires DistinctCodes(visits) && k < |visits|
    ensures FindCode(visits, visits[k].code) == k
  {
  }

  lemma {:induction false} ChildSumsAreDeep(visits: seq<Visit>, k: nat, m: nat, counter: Counter)
    requires ValidWalk(visits) && Topped(ParentsOf(visits)) && k < |visits| && m <= |visits|
    ensures ChildSums(ParentsOf(visits), WeightsOf(visits, counter), k + 1, |visits|, m)
         == DeepOf(visits, Kids(visits[..m], visits[k].code), counter)
    decreases m
  {
    if m > 0 {
      ChildSumsAreDeep(visits, k, m - 1, counter);
      ChildSumsNext(visits, k, m, counter);
      DeepOfNext(visits, k, m, counter);
    }
  }

  lemma ChildSumsNext(visits: seq<Visit>, k: nat, m: nat, counter: Counter)
    requires ValidWalk(visits) && Topped(ParentsOf(visits)) && 1 <= m <= |visits|
    ensures var parents, weights := ParentsOf(visits), WeightsOf(visits, counter);
            ChildSums(parents, weights, k + 1, |visits|, m)
            == ChildSums(parents, weights, k + 1, |visits|, m - 1)
               + if parents[m - 1] == k + 1 then DeepAt(visits, visits[m - 1].code, counter) else 0
  {
    CodeIsFound(visits, m - 1);
  }

  lemma DeepOfNext(visits: seq<Visit>, k: nat, m: nat, counter: Counter)
    requires ValidWalk(visits) && Topped(ParentsOf(visits)) && k < |visits| && 1 <= m <= |visits|
    ensures DeepOf(visits, Kids(visits[..m], visits[k].code), counter)
         == DeepOf(visits, Kids(visits[..m - 1], visits[k].code), counter)
            + if ParentsOf(visits)[m - 1] == k + 1 then DeepAt(visits, visits[m - 1].code, counter) else 0
  {
    KidsUpTo(visits, k, m);
    DeepOfConcat(visits, Kids(visits[..m - 1], visits[k].code), [visits[m - 1].code], counter);
    DeepOfOne(visits, visits[m - 1].code, counter);
  }

  lemma DeepOfOne(visits: seq<Visit>, c: nat, counter: Counter)
    requires Topped(ParentsOf(visits))
    ensures DeepOf(visits, [c], counter) == DeepAt(visits, c, counter)
  {
    assert [c][1..] == [];
  }

  lemma KidsUpTo(visits: seq<Visit>, k: nat, m: nat)
    requires ValidWalk(visits) && k < |visits| && 1 <= m <= |visits|
    ensures var kids := Kids(visits[..m - 1], visits[k].code);
            Kids(visits[..m], visits[k].code)
            == if ParentsOf(visits)[m - 1] == k + 1 then kids + [visits[m - 1].code] else kids
  {
    IsKidOf(visits, k, m - 1);
    assert visits[..m][..m - 1] == visits[..m - 1];
  }

  lemma DeepIsOwnAndKids(visits: seq<Visit>, k: nat, counter: Counter)
    requires ValidWalk(visits) && k < |visits|
    ensures Topped(ParentsOf(visits))
    ensures DeepAt(visits, visits[k].code, counter)
         == counter.OfVisit(visits[k]) + DeepOf(visits, Kids(visits, visits[k].code), counter)
  {
    ParentsTopped(visits);
    CodeIsFound(visits, k);
    SumByChildren(ParentsOf(visits), WeightsOf(visits, counter), k + 1, |visits|);
    ChildSumsAreDeep(visits, k, |visits|, counter);
    assert visits[..|visits|] == visits;
  }

  // ---------- The visit of a tree ----------

  lemma {:induction false} TreeIsVisited(t: Tree, ts: seq<Tree>, parentCode: nat)
    requires InForest(t, ts)
    ensures exists v <- WalkChildren(ts, parentCode) :: IsVisitOf(v, t)
    decreases ts
  {
    var first, rest := WalkTree(ts[0], false, parentCode), WalkChildren(ts[1..], parentCode);
    if t == ts[0] {
      assert first[0] in first + rest && IsVisitOf(first[0], t);
    } else if InForest(t, ts[0].children) {
      TreeIsVisited(t, ts[0].children, ts[0].code);
      var v :| v in WalkChildren(ts[0].children, ts[0].code) && IsVisitOf(v, t);
      assert v in first && v in first + rest;
    } else {
      TreeIsVisited(t, ts[1..], parentCode);
      var v :| v in rest && IsVisitOf(v, t);
      assert v in first + rest;
    }
  }

  predicate IsVisitOf(v: Visit, t: Tree) {
    v.code == t.code && v.name == t.name && v.liveBytes == t.liveBytes && v.liveAllocations == t.liveAllocations
  }

  lemma {:induction false} ForestIsVisited(t: Tree, ts: seq<Tree>)
    requires InForest(t, ts)
    ensures exists v <- WalkForest(ts) :: IsVisitOf(v, t)
    decreases ts
  {
    var first, rest := WalkTree(ts[0], true, 0), WalkForest(ts[1..]);
    if t == ts[0] {
      assert first[0] in first + rest && IsVisitOf(first[0], t);
    } else if InForest(t, ts[0].children) {
      TreeIsVisited(t, ts[0].children, ts[0].code);
      var v :| v in WalkChildren(ts[0].children, ts[0].code) && IsVisitOf(v, t);
      assert v in first && v in first + rest;
    } else {
      ForestIsVisited(t, ts[1..]);
      var v :| v in rest && IsVisitOf(v, t);
      assert v in first + rest;
    }
  }

  lemma {:induction false} TreeIsFound(t: Tree, ts: seq<Tree>)
    requires InForest(t, ts) && DistinctCodes(WalkForest(ts))
    ensures var k := FindCode(WalkForest(ts), t.code);
            k < |WalkForest(ts)| && IsVisitOf(WalkForest(ts)[k], t)
  {
    ForestIsVisited(t, ts);
    var visits := WalkForest(ts);
    var v :| v in visits && IsVisitOf(v, t);
    var k :| 0 <= k < |visits| && visits[k] == v;
    CodeIsFound(visits, k);
  }

  // ---------- The snapshot of a forest ----------

  lemma {:induction false} ChildInForest(t: Tree, ts: seq<Tree>, u: Tree)
    requires InForest(t, ts) && InForest(u, t.children)
    ensures InForest(u, ts)
    decreases ts
  {
    if t != ts[0] {
      if InForest(t, ts[0].children) {
        ChildInForest(t, ts[0].children, u);
      } else {
        ChildInForest(t, ts[1..], u);
      }
    }
  }

  lemma {:induction false} DeepIsTreeTotal(t: Tree, ts: seq<Tree>, counter: Counter)
    requires ValidWalk(WalkForest(ts)) && InForest(t, ts)
    ensures Topped(ParentsOf(WalkForest(ts))) && DeepAt(WalkForest(ts), t.code, counter) == TreeTotal(t, counter)
    decreases t
  {
    var visits := WalkForest(ts);
    ParentsTopped(visits);
    TreeIsFound(t, ts);
    DeepIsOwnAndKids(visits, FindCode(visits, t.code), counter);
    KidsInForest(t, ts);
    forall u | InForest(u, t.children) ensures InForest(u, ts) {
      ChildInForest(t, ts, u);
    }
    DeepIsTreesTotal(t.children, ts, counter);
  }

  lemma {:induction false} DeepIsTreesTotal(us: seq<Tree>, ts: seq<Tree>, counter: Counter)
    requires ValidWalk(WalkForest(ts)) && forall u :: InForest(u, us) ==> InForest(u, ts)
    ensures Topped(ParentsOf(WalkForest(ts)))
    ensures DeepOf(WalkForest(ts), CodesOf(us), counter) == TreesTotal(us, counter)
    decreases us
  {
    ParentsTopped(WalkForest(ts));
    if us != [] {
      assert InForest(us[0], us);
      DeepIsTreeTotal(us[0], ts, counter);
      DeepIsTreesTotal(us[1..], ts, counter);
    }
  }

  // In a finished snapshot of a whole forest, the entry of each category has a chain of
  // children that are those of the category, in their order,
  lemma {:induction false} SnapshotMirrorsForest(entries: seq<Category>, ts: seq<Tree>, t: Tree)
    requires ValidWalk(WalkForest(ts)) && IsSnapshot(entries, WalkForest(ts)) && InForest(t, ts)
    ensures var k := FindCode(WalkForest(ts), t.code);
            && k < |WalkForest(ts)| <= |entries|
            && entries[k].name == t.name
            && ChainHasCodes(entries, WalkForest(ts), entries[k].firstChild, CodesOf(t.children))
  {
    TreeIsFound(t, ts);
    KidsInForest(t, ts);
    ChainOfEntry(entries, WalkForest(ts), FindCode(WalkForest(ts), t.code));
  }

  lemma ChainOfEntry(entries: seq<Category>, visits: seq<Visit>, k: nat)
    requires ValidWalk(visits) && IsSnapshot(entries, visits) && k < |visits|
    ensures entries[k].name == visits[k].name
    ensures ChainHasCodes(entries, visits, entries[k].firstChild, Kids(visits, visits[k].code))
  {
    assert entries[k] == FinalEntry(visits, k);
    SnapshotIsLinked(entries, visits);
    ChainsHaveKids(entries, visits, k, 0);
    assert visits[0..] == visits;
  }

  // has the counters of the category, and counts these and those of all below it.
  lemma {:induction false} CountersMirrorForest(entries: seq<Category>, ts: seq<Tree>, t: Tree, counter: Counter)
    requires ValidWalk(WalkForest(ts)) && IsSnapshot(entries, WalkForest(ts)) && InForest(t, ts)
    ensures var k := FindCode(WalkForest(ts), t.code);
            && k < |WalkForest(ts)| <= |entries|
            && counter.Shallow(entries[k]) == counter.OfTree(t)
            && counter.Deep(entries[k]) == TreeTotal(t, counter)
  {
    TreeIsFound(t, ts);
    DeepIsTreeTotal(t, ts, counter);
    CountersOfEntry(entries, WalkForest(ts), FindCode(WalkForest(ts), t.code), counter);
  }

  // ---------- The roots ----------

  // The deep counters of the roots among the first `k` entries.
  function RootTotal(entries: seq<Category>, k: nat, counter: Counter): int
    requires k <= |entries|
  {
    if k == 0 then 0
    else RootTotal(entries, k - 1, counter) + if entries[k - 1].parent == 0 then counter.Deep(entries[k - 1]) else 0
  }

  function VisitsTotal(visits: seq<Visit>, counter: Counter): int {
    if visits == [] then 0 else VisitsTotal(visits[..|visits| - 1], counter) + counter.OfVisit(visits[|visits| - 1])
  }

  predicate DeepIsSum(e: Category, parents: seq<nat>, weights: seq<int>, k: nat, counter: Counter)
    requires Topped(parents) && |weights| == |parents| && k < |parents|
  {
    e.parent == parents[k] && counter.Deep(e) == Sum(parents, weights, k + 1, |parents|)
  }

  lemma {:induction false} RootTotalIsChildSums(entries: seq<Category>, parents: seq<nat>, weights: seq<int>, k: nat, counter: Counter)
    requires Topped(parents) && k <= |parents| == |weights| && |parents| <= |entries|
    requires forall i :: 0 <= i < |parents| ==> DeepIsSum(entries[i], parents, weights, i, counter)
    ensures RootTotal(entries, k, counter) == ChildSums(parents, weights, 0, |parents|, k)
  {
    if k > 0 {
      RootTotalIsChildSums(entries, parents, weights, k - 1, counter);
      assert DeepIsSum(entries[k - 1], parents, weights, k - 1, counter);
    }
  }

  lemma {:induction false} WeightsTotal(visits: seq<Visit>, counter: Counter)
    ensures Total(WeightsOf(visits, counter)) == VisitsTotal(visits, counter)
  {
    if visits != [] {
      var n := |visits| - 1;
      WeightsTotal(visits[..n], counter);
      assert WeightsOf(visits, counter)[..n] == WeightsOf(visits[..n], counter);
    }
  }

  // Whatever was written, the deep counters of the roots add up to all that was walked.
  lemma RootsAccountForAll(entries: seq<Category>, visits: seq<Visit>, counter: Counter)
    requires ValidWalk(visits) && IsSnapshot(entries, visits)
    ensures RootTotal(entries, |visits|, counter) == VisitsTotal(visits, counter)
  {
    ParentsTopped(visits);
    var parents, weights := ParentsOf(visits), WeightsOf(visits, counter);
    forall i | 0 <= i < |parents| ensures DeepIsSum(entries[i], parents, weights, i, counter) {
      CountersOfEntry(entries, visits, i, counter);
    }
    RootTotalIsChildSums(entries, parents, weights, |visits|, counter);
    RootsConserve(parents, weights);
    WeightsTotal(visits, counter);
  }

  lemma {:induction false} VisitsTotalConcat(a: seq<Visit>, b: seq<Visit>, counter: Counter)
    ensures VisitsTotal(a + b, counter) == VisitsTotal(a, counter) + VisitsTotal(b, counter)
  {
    if b == [] {
      assert a + b == a;
    } else {
      var n := |b| - 1;
      VisitsTotalConcat(a, b[..n], counter);
      assert (a + b)[..|a + b| - 1] == a + b[..n];
    }
  }

  lemma {:induction false} TreeIsCounted(t: Tree, isRoot: bool, parentCode: nat, counter: Counter)
    ensures VisitsTotal(WalkTree(t, isRoot, parentCode), counter) == TreeTotal(t, counter)
    decreases t
  {
    var root := Root(t, isRoot, parentCode);
    assert root[..0] == [];
    assert VisitsTotal(root, counter) == VisitsTotal([], counter) + counter.OfVisit(root[0]);
    VisitsTotalConcat(root, WalkChildren(t.children, t.code), counter);
    ChildrenAreCounted(t.children, t.code, counter);
  }

  lemma {:induction false} ChildrenAreCounted(ts: seq<Tree>, parentCode: nat, counter: Counter)
    ensures VisitsTotal(WalkChildren(ts, parentCode), counter) == TreesTotal(ts, counter)
    decreases ts
  {
    if ts != [] {
      TreeIsCounted(ts[0], false, parentCode, counter);
      ChildrenAreCounted(ts[1..], parentCode, counter);
      VisitsTotalConcat(WalkTree(ts[0], false, parentCode), WalkChildren(ts[1..], parentCode), counter);
    }
  }

  lemma {:induction false} ForestIsCounted(ts: seq<Tree>, counter: Counter)
    ensures VisitsTotal(WalkForest(ts), counter) == TreesTotal(ts, counter)
  {
    if ts != [] {
      TreeIsCounted(ts[0], true, 0, counter);
      ForestIsCounted(ts[1..], counter);
      VisitsTotalConcat(WalkTree(ts[0], true, 0), WalkForest(ts[1..]), counter);
    }
  }

  // In the snapshot of a whole forest, the roots have between them all bytes, and all
  // allocations, of the forest.
  lemma {:induction false} RootsConserveForest(entries: seq<Category>, ts: seq<Tree>, counter: Counter)
    requires ValidWalk(WalkForest(ts)) && IsSnapshot(entries, WalkForest(ts))
    ensures RootTotal(entries, |WalkForest(ts)|, counter) == TreesTotal(ts, counter)
  {
    RootsAccountForAll(entries, WalkForest(ts), counter);
    ForestIsCounted(ts, counter);
  }
}
