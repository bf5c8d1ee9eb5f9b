/** Forests of memory categories, flattened: node `a` (1, 2, ...) is the a-th category of
    a buffer, and `parents[a - 1]` is the node above it, or 0 when there is none. */
module CategoryTree {

  // Parents come before their children.
  predicate Topped(parents: seq<nat>) {
    forall a :: 0 <= a < |parents| ==> parents[a] <= a
  }

  // The node `j` is `a` or below it; everything is below 0.
  predicate Under(parents: seq<nat>, j: nat, a: nat)
    requires Topped(parents) && j <= |parents|
    decreases j
  {
    j == a || (j != 0 && Under(parents, parents[j - 1], a))
  }

  // The child of `a` on the way down to `j`.
  function ChildToward(parents: seq<nat>, j: nat, a: nat): (c: nat)
    requires Topped(parents) && j <= |parents| && j != a && Under(parents, j, a)
    ensures a < c <= j && parents[c - 1] == a
    decreases j
  {
    if parents[j - 1] == a then j else ChildToward(parents, parents[j - 1], a)
  }

  // The first child of `p` after node `k`, or 0.
  function NextChild(parents: seq<nat>, p: nat, k: nat): (c: nat)
    requires k <= |parents|
    ensures c != 0 ==> k < c <= |parents| && parents[c - 1] == p
    decreases |parents| - k
  {
    if k == |parents| then 0
    else if parents[k] == p then k + 1
    else NextChild(parents, p, k + 1)
  }

  // All children of `p` after node `k`, in order.
  function ChildrenAfter(parents: seq<nat>, p: nat, k: nat): seq<nat>
    requires k <= |parents|
    decreases |parents| - k
  {
    if k == |parents| then []
    else (if parents[k] == p then [k + 1] else []) + ChildrenAfter(parents, p, k + 1)
  }

  // The last child of `p`, or 0.
  function LastChild(parents: seq<nat>, p: nat): (c: nat)
    ensures c <= |parents|
    ensures c != 0 ==> parents[c - 1] == p
  {
    if parents == [] then 0
    else if parents[|parents| - 1] == p then |parents|
    else LastChild(parents[..|parents| - 1], p)
  }

  lemma {:induction false} NoChildBetween(parents: seq<nat>, p: nat, k: nat)
    requires k <= |parents|
    ensures var c := NextChild(parents, p, k);
            forall i :: k <= i < |parents| && (c == 0 || i + 1 < c) ==> parents[i] != p
    decreases |parents| - k
  {
    if k < |parents| && parents[k] != p {
      NoChildBetween(parents, p, k + 1);
    }
  }

  lemma {:induction false} NoChildAfterLast(parents: seq<nat>, p: nat)
    ensures forall i :: LastChild(parents, p) <= i < |parents| ==> parents[i] != p
  {
    if parents != [] && parents[|parents| - 1] != p {
      NoChildAfterLast(parents[..|parents| - 1], p);
    }
  }

  // There is no next child exactly from the last child on.
  lemma LastHasNoNext(parents: seq<nat>, p: nat, k: nat)
    requires k <= |parents|
    ensures NextChild(parents, p, k) == 0 <==> LastChild(parents, p) <= k
  {
    NoChildBetween(parents, p, k);
    NoChildAfterLast(parents, p);
  }

  lemma UnderIsLater(parents: seq<nat>, j: nat, a: nat)
    requires Topped(parents) && j <= |parents| && Under(parents, j, a)
    ensures a <= j
    decreases j
  {
    if j != a {
      UnderIsLater(parents, parents[j - 1], a);
    }
  }

  lemma {:induction false} UnderTop(parents: seq<nat>, j: nat)
    requires Topped(parents) && j <= |parents|
    ensures Under(parents, j, 0)
    decreases j
  {
    if j != 0 {
      UnderTop(parents, parents[j - 1]);
    }
  }

  // Below a child of `a` are exactly the nodes below `a` that are reached through it.
  lemma {:induction false} UnderChild(parents: seq<nat>, j: nat, a: nat, c: nat)
    requires Topped(parents) && j <= |parents| && a < c <= |parents| && parents[c - 1] == a
    ensures Under(parents, j, c) <==> (j != a && Under(parents, j, a) && ChildToward(parents, j, a) == c)
    decreases j
  {
    if j == c {
      assert Under(parents, a, a);
    } else if j != 0 {
      UnderChild(parents, parents[j - 1], a, c);
      if Under(parents, j, c) {
        UnderIsLater(parents, j, c);
      }
    }
  }

  // ---------- Sums ----------

  // The weights of the nodes below `a`, as far as node `m`.
  function Sum(parents: seq<nat>, weights: seq<int>, a: nat, m: nat): int
    requires Topped(parents) && |weights| == |parents| && m <= |parents|
    decreases m
  {
    if m == 0 then 0
    else Sum(parents, weights, a, m - 1) + if Under(parents, m, a) then weights[m - 1] else 0
  }

  // What the children of `a` up to node `k` have below them, as far as node `m`.
  function ChildSums(parents: seq<nat>, weights: seq<int>, a: nat, m: nat, k: nat): int
    requires Topped(parents) && |weights| == |parents| && m <= |parents| && k <= |parents|
    decreases k
  {
    if k == 0 then 0
    else ChildSums(parents, weights, a, m, k - 1) + if parents[k - 1] == a then Sum(parents, weights, k, m) else 0
  }

  function Own(weights: seq<int>, a: nat, m: nat): int
    requires m <= |weights|
  {
    if 1 <= a <= m then weights[a - 1] else 0
  }

  lemma {:induction false} ChildSumsStep(parents: seq<nat>, weights: seq<int>, a: nat, m: nat, k: nat)
    requires Topped(parents) && |weights| == |parents| && 1 <= m <= |parents| && k <= |parents|
    ensures ChildSums(parents, weights, a, m, k) == ChildSums(parents, weights, a, m - 1, k)
              + if m != a && Under(parents, m, a) && ChildToward(parents, m, a) <= k then weights[m - 1] else 0
    decreases k
  {
    if k > 0 {
      ChildSumsStep(parents, weights, a, m, k - 1);
      if parents[k - 1] == a {
        UnderChild(parents, m, a, k);
      }
    }
  }

  lemma {:induction false} ChildSumsZero(parents: seq<nat>, weights: seq<int>, a: nat, k: nat)
    requires Topped(parents) && |weights| == |parents| && k <= |parents|
    ensures ChildSums(parents, weights, a, 0, k) == 0
    decreases k
  {
    if k > 0 {
      ChildSumsZero(parents, weights, a, k - 1);
    }
  }

  // A node has below it itself and what its children have below them.
  lemma {:induction false} SumByChildren(parents: seq<nat>, weights: seq<int>, a: nat, m: nat)
    requires Topped(parents) && |weights| == |parents| && m <= |parents|
    ensures Sum(parents, weights, a, m) == Own(weights, a, m) + ChildSums(parents, weights, a, m, |parents|)
    decreases m
  {
    if m == 0 {
      ChildSumsZero(parents, weights, a, |parents|);
    } else {
      SumByChildren(parents, weights, a, m - 1);
      ChildSumsStep(parents, weights, a, m, |parents|);
    }
  }

  // Between one child and the next, nothing is added.
  lemma {:induction false} ChildSumsSkip(parents: seq<nat>, weights: seq<int>, a: nat, m: nat, k: nat, k': nat)
    requires Topped(parents) && |weights| == |parents| && m <= |parents| && k <= k' <= |parents|
    requires forall i :: k <= i < k' ==> parents[i] != a
    ensures ChildSums(parents, weights, a, m, k') == ChildSums(parents, weights, a, m, k)
    decreases k'
  {
    if k < k' {
      ChildSumsSkip(parents, weights, a, m, k, k' - 1);
    }
  }

  function Total(weights: seq<int>): int {
    if weights == [] then 0 else Total(weights[..|weights| - 1]) + weights[|weights| - 1]
  }

  lemma {:induction false} SumAll(parents: seq<nat>, weights: seq<int>, m: nat)
    requires Topped(parents) && |weights| == |parents| && m <= |parents|
    ensures Sum(parents, weights, 0, m) == Total(weights[..m])
    decreases m
  {
    if m > 0 {
      SumAll(parents, weights, m - 1);
      UnderTop(parents, m);
      assert weights[..m][..m - 1] == weights[..m - 1];
    }
  }

  // The roots together account for every node, once.
  lemma RootsConserve(parents: seq<nat>, weights: seq<int>)
    requires Topped(parents) && |weights| == |parents|
    ensures ChildSums(parents, weights, 0, |parents|, |parents|) == Total(weights)
  {
    SumByChildren(parents, weights, 0, |parents|);
    SumAll(parents, weights, |parents|);
    assert weights[..|parents|] == weights;
  }

  // ---------- One more node ----------

  lemma {:induction false} NextChildAppend(parents: seq<nat>, p: nat, k: nat, q: nat)
    requires k <= |parents|
    ensures NextChild(parents + [q], p, k)
         == if NextChild(parents, p, k) != 0 then NextChild(parents, p, k) else if q == p then |parents| + 1 else 0
    decreases |parents| - k
  {
    if k < |parents| {
      NextChildAppend(parents, p, k + 1, q);
    }
  }

  // The new node becomes the first child of its parent when it has no child yet ...
  lemma FirstChildAppend(parents: seq<nat>, p: nat, q: nat)
    ensures NextChild(parents + [q], p, 0)
         == if q == p && LastChild(parents, p) == 0 then |parents| + 1 else NextChild(parents, p, 0)
  {
    NextChildAppend(parents, p, 0, q);
    LastHasNoNext(parents, p, 0);
  }

  // ... and otherwise the next sibling of the last one.
  lemma NextSiblingAppend(parents: seq<nat>, k: nat, q: nat)
    requires k < |parents|
    ensures NextChild(parents + [q], parents[k], k + 1)
         == if q == parents[k] && k + 1 == LastChild(parents, q) then |parents| + 1 else NextChild(parents, parents[k], k + 1)
  {
    NextChildAppend(parents, parents[k], k + 1, q);
    LastHasNoNext(parents, parents[k], k + 1);
    NoChildAfterLast(parents, parents[k]);
  }

  lemma LastChildAppend(parents: seq<nat>, p: nat, q: nat)
    ensures LastChild(parents + [q], p) == if q == p then |parents| + 1 else LastChild(parents, p)
  {
    assert (parents + [q])[..|parents|] == parents;
  }

  lemma NoNextAfterEnd(parents: seq<nat>, p: nat)
    ensures NextChild(parents, p, |parents|) == 0
  {
  }
}
