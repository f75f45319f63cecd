/**
 * The second half of merge (BinomialHeap.cpp:123-157): one pass along the
 * spliced root list that links neighbouring trees of equal degree. The
 * predicates and lemmas here describe the list as the pass sees it: the
 * whole current root list R and the position p of the root under the
 * cursor; R[..p] have been passed, R[p + 1..] are still ahead.
 */
module BinomialLink {
  import opened BinomialShape

  /** R without its k-th member: the list after one tree has been linked under another. */
  function Remove(R: seq<int>, k: int): (r: seq<int>)
    requires 0 <= k < |R|
    ensures |r| == |R| - 1
    ensures forall i :: 0 <= i < k ==> r[i] == R[i]
    ensures forall i :: k <= i < |r| ==> r[i] == R[i + 1]
  {
    R[..k] + R[k + 1..]
  }

  lemma RemoveMembers(R: seq<int>, k: int)
    requires Distinct(R) && 0 <= k < |R|
    ensures Distinct(Remove(R, k))
    ensures forall z :: z in Remove(R, k) <==> z in R && z != R[k]
  {
    var r := Remove(R, k);
    forall z ensures z in r <==> z in R && z != R[k] {
      if z in r {
        var i :| 0 <= i < |r| && r[i] == z;
        if i < k {
          assert R[i] == z;
        } else {
          assert R[i + 1] == z;
        }
      }
      if z in R && z != R[k] {
        var i :| 0 <= i < |R| && R[i] == z;
        if i < k {
          assert r[i] == z;
        } else {
          assert r[i - 1] == z;
        }
      }
    }
  }

  /** Removing a member keeps a list in strictly increasing degree, over any arena with the same degrees. */
  lemma RemoveIncreasing(ns: seq<Node>, ns': seq<Node>, R: seq<int>, k: int)
    requires Increasing(ns, R) && 0 <= k < |R|
    requires |ns'| == |ns| && forall n :: 0 <= n < |ns| ==> ns'[n].degree == ns[n].degree
    ensures Increasing(ns', Remove(R, k))
  {
    var r := Remove(R, k);
    forall a, b | 0 <= a < b < |r| ensures ns'[r[a]].degree < ns'[r[b]].degree {
      var a', b' := if a < k then a else a + 1, if b < k then b else b + 1;
      assert r[a] == R[a'] && r[b] == R[b'];
    }
  }

  /** One `sibling` assignment keeps every value, buffer, degree and buffer link. */
  lemma SiblingKeepsKeys(ns: seq<Node>, bs: seq<Buffer>, n: int, s: int)
    requires 0 <= n < |ns| && Linked(ns, bs)
    ensures SameKeys(ns, SetSibling(ns, n, s)) && Linked(SetSibling(ns, n, s), bs)
    ensures forall m :: 0 <= m < |ns| ==> SetSibling(ns, n, s)[m].degree == ns[m].degree
  {
  }

  /**
   * Degrees along R as the pass finds them: the roots passed have strictly
   * increasing degrees, the root under the cursor is no smaller than the last
   * of them, and the roots from the cursor on form a merged list.
   */
  ghost predicate LinkOrder(ns: seq<Node>, R: seq<int>, p: int)
  {
    && InRange(ns, R) && 0 <= p < |R|
    && (forall i, j :: 0 <= i < j < p ==> ns[R[i]].degree < ns[R[j]].degree)
    && (p > 0 ==> ns[R[p - 1]].degree <= ns[R[p]].degree)
    && (forall i, j :: p <= i < j < |R| ==> ns[R[i]].degree <= ns[R[j]].degree)
    && (forall i, j :: p < i && i + 2 <= j < |R| ==> ns[R[i]].degree < ns[R[j]].degree)
    // a root whose degree equals the one passed before it is linked next
    && (p > 0 && ns[R[p - 1]].degree == ns[R[p]].degree ==>
          && p + 1 < |R| && ns[R[p + 1]].degree == ns[R[p]].degree
          && (p + 2 < |R| ==> ns[R[p]].degree < ns[R[p + 2]].degree))
  }

  /** The loop invariant of the linking pass. */
  ghost predicate LinkInv(ns: seq<Node>, kids: seq<seq<int>>, e: set<int>, R: seq<int>, p: int)
  {
    && Forest(ns, kids, R, e)
    && |R| > 0 && Chain(ns, R[0], R)
    && Distinct(R)
    && LinkOrder(ns, R, p)
  }

  /** The arenas agree on every node's value and buffer: only links have changed. */
  ghost predicate SameKeys(ns0: seq<Node>, ns: seq<Node>)
  {
    && |ns| == |ns0|
    && forall n :: 0 <= n < |ns0| ==> ns[n].value == ns0[n].value && ns[n].buffer == ns0[n].buffer
  }

  /** What the pass reads at the cursor: the successors of R[p] and their siblings. */
  ghost predicate Cursor(ns: seq<Node>, R: seq<int>, p: int)
  {
    && 0 <= p < |R| && InRange(ns, R)
    && ns[R[p]].sibling == At(R, p + 1)
    && (p + 1 < |R| ==> ns[R[p + 1]].sibling == At(R, p + 2))
  }

  /**
   * The state of the pass between two steps: the invariant at position p,
   * only links changed since ns0, the cursor `cur` on R[p], `prev` on the
   * root before it (NIL at the front) and `head` on the first root once the
   * cursor has moved past it.
   */
  ghost predicate PassInv(ns0: seq<Node>, ns: seq<Node>, kids: seq<seq<int>>, e: set<int>, R: seq<int>, p: int,
                          prev: int, cur: int, head: int)
  {
    && LinkInv(ns, kids, e, R, p) && Cursor(ns, R, p) && SameKeys(ns0, ns)
    && cur == R[p] && prev == (if p == 0 then NIL else R[p - 1]) && head == (if p == 0 then NIL else R[0])
  }

  /** The cursor facts follow from the invariant. */
  lemma LinkCursor(ns: seq<Node>, kids: seq<seq<int>>, e: set<int>, R: seq<int>, p: int)
    requires LinkInv(ns, kids, e, R, p)
    ensures Cursor(ns, R, p)
  {
  }

  /** The pass starts at the head of the spliced list. */
  lemma LinkStart(ns: seq<Node>, kids: seq<seq<int>>, e: set<int>, t: int, l: seq<int>)
    requires Forest(ns, kids, l, e) && Chain(ns, t, l) && Distinct(l) && Sorted2(ns, l) && l != []
    ensures t == l[0] && LinkInv(ns, kids, e, l, 0) && Cursor(ns, l, 0)
  {
  }

  /** The degree order survives moving the cursor past a root that is not linked. */
  lemma LinkOrderSkip(ns: seq<Node>, R: seq<int>, p: int)
    requires LinkOrder(ns, R, p) && p + 1 < |R|
    requires ns[R[p]].degree != ns[R[p + 1]].degree || (p + 2 < |R| && ns[R[p]].degree == ns[R[p + 2]].degree)
    ensures LinkOrder(ns, R, p + 1)
  {
    if p > 0 {
      // the equal-degree clause at p rules out equality with the root passed before
      assert ns[R[p - 1]].degree < ns[R[p]].degree;
    }
    forall i, j | 0 <= i < j < p + 1 ensures ns[R[i]].degree < ns[R[j]].degree {
      if j == p && i < p - 1 {
        assert ns[R[i]].degree < ns[R[p - 1]].degree;
      }
    }
    assert ns[R[p]].degree <= ns[R[p + 1]].degree;
    if ns[R[p]].degree == ns[R[p + 1]].degree && p + 3 < |R| {
      assert ns[R[p + 1]].degree < ns[R[p + 3]].degree;
    }
  }

  /** The pass moves past a root that is not linked (the first two branches of the loop). */
  lemma LinkSkip(ns: seq<Node>, kids: seq<seq<int>>, e: set<int>, R: seq<int>, p: int)
    requires LinkInv(ns, kids, e, R, p) && p + 1 < |R|
    requires ns[R[p]].degree != ns[R[p + 1]].degree || (p + 2 < |R| && ns[R[p]].degree == ns[R[p + 2]].degree)
    ensures LinkInv(ns, kids, e, R, p + 1) && Cursor(ns, R, p + 1)
  {
    LinkOrderSkip(ns, R, p);
    LinkCursor(ns, kids, e, R, p + 1);
  }

  /** When the cursor reaches the last root, R is a root list: degrees strictly increase. */
  lemma LinkFinish(ns: seq<Node>, kids: seq<seq<int>>, e: set<int>, R: seq<int>, p: int)
    requires LinkInv(ns, kids, e, R, p) && ns[R[p]].sibling == NIL
    ensures p + 1 == |R| && Increasing(ns, R)
  {
    assert ns[R[p]].sibling == Next(R, p);
    forall i, j | 0 <= i < j < |R| ensures ns[R[i]].degree < ns[R[j]].degree {
      if j == p && i < p - 1 {
        assert ns[R[i]].degree < ns[R[p - 1]].degree;
      }
    }
  }

  /** Outside the cursor, the list after the removal lists roots whose degree has not changed. */
  lemma RemoveDegrees(ns: seq<Node>, ns': seq<Node>, R: seq<int>, p: int, k: int, top: int)
    requires InRange(ns, R) && Distinct(R) && 0 <= p && p + 1 < |R| && (k == p || k == p + 1)
    requires top == (if k == p then R[p + 1] else R[p])
    requires |ns'| == |ns| && forall n :: 0 <= n < |ns| && n != top ==> ns'[n].degree == ns[n].degree
    ensures Remove(R, k)[p] == top
    ensures forall i :: 0 <= i < |R| - 1 && i != p ==> ns'[Remove(R, k)[i]].degree == ns[Remove(R, k)[i]].degree
  {
    var r := Remove(R, k);
    forall i | 0 <= i < |r| && i != p ensures r[i] != top {
      var j := if i < k then i else i + 1;
      var t := if k == p then p + 1 else p;
      assert r[i] == R[j] && top == R[t] && j != t;
    }
  }

  /** From the cursor on, the list after linking is still a merged list. */
  lemma LinkSuffix(ns: seq<Node>, ns': seq<Node>, R: seq<int>, p: int, k: int, top: int)
    requires InRange(ns, R) && 0 <= p && p + 1 < |R| && (k == p || k == p + 1)
    requires forall i, j :: p <= i < j < |R| ==> ns[R[i]].degree <= ns[R[j]].degree
    requires forall i, j :: p < i && i + 2 <= j < |R| ==> ns[R[i]].degree < ns[R[j]].degree
    requires ns[R[p]].degree == ns[R[p + 1]].degree
    requires !(p + 2 < |R| && ns[R[p + 2]].degree == ns[R[p]].degree)
    requires |ns'| == |ns| && Remove(R, k)[p] == top && ns'[top].degree == ns[R[p]].degree + 1
    requires forall i :: 0 <= i < |R| - 1 && i != p ==> ns'[Remove(R, k)[i]].degree == ns[Remove(R, k)[i]].degree
    ensures forall i, j :: p <= i < j < |R| - 1 ==> ns'[Remove(R, k)[i]].degree <= ns'[Remove(R, k)[j]].degree
    ensures forall i, j :: p < i && i + 2 <= j < |R| - 1 ==> ns'[Remove(R, k)[i]].degree < ns'[Remove(R, k)[j]].degree
  {
    var r := Remove(R, k);
    forall i, j | p <= i < j < |r| ensures ns'[r[i]].degree <= ns'[r[j]].degree {
      assert r[j] == R[j + 1];
      if i > p {
        assert r[i] == R[i + 1];
      } else {
        assert ns[R[p + 2]].degree <= ns[R[j + 1]].degree;
      }
    }
    forall i, j | p < i && i + 2 <= j < |r| ensures ns'[r[i]].degree < ns'[r[j]].degree {
      assert r[i] == R[i + 1] && r[j] == R[j + 1];
    }
  }

  /** Before the cursor, the list after linking is still strictly increasing, up to the grown root. */
  lemma LinkPrefix(ns: seq<Node>, ns': seq<Node>, R: seq<int>, p: int, k: int, top: int)
    requires InRange(ns, R) && 0 <= p && p + 1 < |R| && (k == p || k == p + 1)
    requires forall i, j :: 0 <= i < j < p ==> ns[R[i]].degree < ns[R[j]].degree
    requires p > 0 ==> ns[R[p - 1]].degree <= ns[R[p]].degree
    requires |ns'| == |ns| && Remove(R, k)[p] == top && ns'[top].degree == ns[R[p]].degree + 1
    requires forall i :: 0 <= i < |R| - 1 && i != p ==> ns'[Remove(R, k)[i]].degree == ns[Remove(R, k)[i]].degree
    ensures forall i, j :: 0 <= i < j < p ==> ns'[Remove(R, k)[i]].degree < ns'[Remove(R, k)[j]].degree
    ensures p > 0 ==> ns'[Remove(R, k)[p - 1]].degree < ns'[Remove(R, k)[p]].degree
  {
    var r := Remove(R, k);
    forall i | 0 <= i < p ensures r[i] == R[i] && ns'[r[i]].degree == ns[R[i]].degree {
    }
  }

  /**
   * Degrees after linking R[p] and R[p + 1]: the tree that stays a root,
   * `top`, grows by one degree and the other one, R[k], leaves the list.
   */
  lemma LinkOrderStep(ns: seq<Node>, ns': seq<Node>, R: seq<int>, p: int, k: int, top: int)
    requires LinkOrder(ns, R, p) && p + 1 < |R| && (k == p || k == p + 1) && Distinct(R)
    requires top == (if k == p then R[p + 1] else R[p])
    requires ns[R[p]].degree == ns[R[p + 1]].degree
    requires !(p + 2 < |R| && ns[R[p + 2]].degree == ns[R[p]].degree)
    requires |ns'| == |ns| && ns'[top].degree == ns[R[p]].degree + 1
    requires forall n :: 0 <= n < |ns| && n != top ==> ns'[n].degree == ns[n].degree
    ensures Remove(R, k)[p] == top
    ensures LinkOrder(ns', Remove(R, k), p)
  {
    RemoveDegrees(ns, ns', R, p, k, top);
    LinkPrefix(ns, ns', R, p, k, top);
    LinkSuffix(ns, ns', R, p, k, top);
  }

  /**
   * Removing R[k] from a sibling chain: the root before it must now point at
   * the root after it; every other root keeps its sibling.
   */
  lemma RemoveChain(ns: seq<Node>, ns': seq<Node>, R: seq<int>, k: int)
    requires |R| > 1 && 0 <= k < |R| && |ns'| == |ns| && Chain(ns, R[0], R)
    requires forall i :: 0 <= i < |R| && i != k && i != k - 1 ==> ns'[R[i]].sibling == ns[R[i]].sibling
    requires k > 0 ==> ns'[R[k - 1]].sibling == Next(R, k)
    ensures Chain(ns', Remove(R, k)[0], Remove(R, k))
  {
    var r := Remove(R, k);
    forall i | 0 <= i < |r| ensures ns'[r[i]].sibling == Next(r, i) {
      if i + 1 < k {
        assert r[i] == R[i] && r[i + 1] == R[i + 1];
      } else if i + 1 == k {
        assert r[i] == R[i];
      } else {
        assert r[i] == R[i + 1];
      }
    }
  }

  /** The forest after the third branch: R[p + 1] is now the last child of R[p]. */
  lemma UnderForest(ns: seq<Node>, kids: seq<seq<int>>, e: set<int>, R: seq<int>, p: int, ns2: seq<Node>)
    requires Forest(ns, kids, R, e) && Distinct(R) && 0 <= p && p + 1 < |R|
    requires ns[R[p]].degree == ns[R[p + 1]].degree && ns[R[p]].value <= ns[R[p + 1]].value
    requires 0 <= R[p] < |ns| && 0 <= R[p + 1] < |ns|
    requires ns2 == SetSibling(SetSibling(ns, R[p], ns[R[p + 1]].sibling), R[p + 1], NIL)
    ensures SiblingsOnly(ns, ns2, [R[p], R[p + 1]])
    ensures Chain(ns2, ns2[R[p]].child, kids[R[p]])
    ensures Forest(AfterMergeTree(ns2, kids[R[p]], R[p], R[p + 1]), kids[R[p] := kids[R[p]] + [R[p + 1]]], Remove(R, p + 1), e)
  {
    var x, y := R[p], R[p + 1];
    assert SiblingsOnly(ns, ns2, [x, y]);
    RootSiblingsKeepForest(ns, ns2, kids, R, e, [x, y]);
    RemoveMembers(R, p + 1);
    LinkKeepsForest(ns2, kids, R, Remove(R, p + 1), e, x, y);
    assert KidsOk(ns2, kids, e, x);
  }

  /** The root list after the third branch: R[p] points past R[p + 1]. */
  lemma UnderChain(ns: seq<Node>, kids: seq<seq<int>>, e: set<int>, R: seq<int>, p: int, ns2: seq<Node>)
    requires Forest(ns, kids, R, e) && Distinct(R) && 0 <= p && p + 1 < |R| && Chain(ns, R[0], R)
    requires ns2 == SetSibling(SetSibling(ns, R[p], ns[R[p + 1]].sibling), R[p + 1], NIL)
    ensures InRange(ns2, kids[R[p]])
    ensures Chain(AfterMergeTree(ns2, kids[R[p]], R[p], R[p + 1]), Remove(R, p + 1)[0], Remove(R, p + 1))
  {
    var x, y := R[p], R[p + 1];
    assert KidsOk(ns, kids, e, x);
    var k := kids[x];
    if k != [] {
      assert ns[k[|k| - 1]].parent == x;
    }
    RemoveChain(ns, AfterMergeTree(ns2, k, x, y), R, p + 1);
  }

  /** The forest after the fourth branch: R[p] is now the last child of R[p + 1]. */
  lemma OverForest(ns: seq<Node>, kids: seq<seq<int>>, e: set<int>, R: seq<int>, p: int, ns2: seq<Node>)
    requires Forest(ns, kids, R, e) && Distinct(R) && 0 <= p && p + 1 < |R|
    requires ns[R[p]].degree == ns[R[p + 1]].degree && ns[R[p]].value > ns[R[p + 1]].value
    requires 0 <= R[p] < |ns| && 0 <= R[p + 1] < |ns| && (p > 0 ==> 0 <= R[p - 1] < |ns|)
    requires ns2 == SetSibling(if p > 0 then SetSibling(ns, R[p - 1], R[p + 1]) else ns, R[p], NIL)
    ensures SiblingsOnly(ns, ns2, if p > 0 then [R[p - 1], R[p]] else [R[p]])
    ensures Chain(ns2, ns2[R[p + 1]].child, kids[R[p + 1]])
    ensures Forest(AfterMergeTree(ns2, kids[R[p + 1]], R[p + 1], R[p]), kids[R[p + 1] := kids[R[p + 1]] + [R[p]]], Remove(R, p), e)
  {
    var x, y := R[p], R[p + 1];
    var s := if p > 0 then [R[p - 1], x] else [x];
    assert SiblingsOnly(ns, ns2, s);
    RootSiblingsKeepForest(ns, ns2, kids, R, e, s);
    RemoveMembers(R, p);
    LinkKeepsForest(ns2, kids, R, Remove(R, p), e, y, x);
    assert KidsOk(ns2, kids, e, y);
  }

  /** The root list after the fourth branch: the previous root points at R[p + 1]. */
  lemma OverChain(ns: seq<Node>, kids: seq<seq<int>>, e: set<int>, R: seq<int>, p: int, ns2: seq<Node>)
    requires Forest(ns, kids, R, e) && Distinct(R) && 0 <= p && p + 1 < |R| && Chain(ns, R[0], R)
    requires ns2 == SetSibling(if p > 0 then SetSibling(ns, R[p - 1], R[p + 1]) else ns, R[p], NIL)
    ensures InRange(ns2, kids[R[p + 1]])
    ensures Chain(AfterMergeTree(ns2, kids[R[p + 1]], R[p + 1], R[p]), Remove(R, p)[0], Remove(R, p))
  {
    var x, y := R[p], R[p + 1];
    assert KidsOk(ns, kids, e, y);
    var k := kids[y];
    if k != [] {
      assert ns[k[|k| - 1]].parent == y;
    }
    RemoveChain(ns, AfterMergeTree(ns2, k, y, x), R, p);
  }

  /** Before mergeTree in the third branch, the child list of R[p] still hangs from its `child`. */
  lemma UnderPrep(ns: seq<Node>, kids: seq<seq<int>>, e: set<int>, R: seq<int>, p: int, ns2: seq<Node>)
    requires Forest(ns, kids, R, e) && Distinct(R) && 0 <= p && p + 1 < |R|
    requires 0 <= R[p] < |ns| && 0 <= R[p + 1] < |ns|
    requires ns2 == SetSibling(SetSibling(ns, R[p], ns[R[p + 1]].sibling), R[p + 1], NIL)
    ensures Chain(ns2, ns2[R[p]].child, kids[R[p]])
  {
    assert SiblingsOnly(ns, ns2, [R[p], R[p + 1]]);
    RootSiblingsKeepForest(ns, ns2, kids, R, e, [R[p], R[p + 1]]);
    assert KidsOk(ns2, kids, e, R[p]);
  }

  /** Before mergeTree in the fourth branch, the child list of R[p + 1] still hangs from its `child`. */
  lemma OverPrep(ns: seq<Node>, kids: seq<seq<int>>, e: set<int>, R: seq<int>, p: int, ns2: seq<Node>)
    requires Forest(ns, kids, R, e) && Distinct(R) && 0 <= p && p + 1 < |R|
    requires 0 <= R[p] < |ns| && (p > 0 ==> 0 <= R[p - 1] < |ns|)
    requires ns2 == SetSibling(if p > 0 then SetSibling(ns, R[p - 1], R[p + 1]) else ns, R[p], NIL)
    ensures Chain(ns2, ns2[R[p + 1]].child, kids[R[p + 1]])
  {
    var s := if p > 0 then [R[p - 1], R[p]] else [R[p]];
    assert SiblingsOnly(ns, ns2, s);
    RootSiblingsKeepForest(ns, ns2, kids, R, e, s);
    assert KidsOk(ns2, kids, e, R[p + 1]);
  }

  /**
   * The third branch of the loop: R[p + 1] has the degree of R[p] and a value
   * no smaller, so it leaves the root list and becomes the last child of R[p].
   * `ns2` is the arena after the two sibling assignments that precede mergeTree.
   */
  lemma LinkUnder(ns: seq<Node>, kids: seq<seq<int>>, e: set<int>, R: seq<int>, p: int, ns2: seq<Node>,
                  ns': seq<Node>, kids': seq<seq<int>>)
    requires LinkInv(ns, kids, e, R, p) && p + 1 < |R|
    requires ns[R[p]].degree == ns[R[p + 1]].degree
    requires !(p + 2 < |R| && ns[R[p + 2]].degree == ns[R[p]].degree)
    requires ns[R[p]].value <= ns[R[p + 1]].value
    requires ns2 == SetSibling(SetSibling(ns, R[p], ns[R[p + 1]].sibling), R[p + 1], NIL)
    requires Chain(ns2, ns2[R[p]].child, kids[R[p]])
    requires kids' == kids[R[p] := kids[R[p]] + [R[p + 1]]]
    requires ns' == AfterMergeTree(ns2, kids[R[p]], R[p], R[p + 1])
    ensures LinkInv(ns', kids', e, Remove(R, p + 1), p) && Cursor(ns', Remove(R, p + 1), p)
    ensures SameKeys(ns, ns')
  {
    var x, y := R[p], R[p + 1];
    UnderForest(ns, kids, e, R, p, ns2);
    UnderChain(ns, kids, e, R, p, ns2);
    RemoveMembers(R, p + 1);
    LinkOrderStep(ns, ns', R, p, p + 1, x);
    LinkCursor(ns', kids', e, Remove(R, p + 1), p);
  }

  /**
   * The fourth branch of the loop: R[p] has the degree of R[p + 1] and a
   * larger value, so it leaves the root list and becomes the last child of
   * R[p + 1], which the previous root (if any) now points at.
   */
  lemma LinkOver(ns: seq<Node>, kids: seq<seq<int>>, e: set<int>, R: seq<int>, p: int, ns2: seq<Node>,
                 ns': seq<Node>, kids': seq<seq<int>>)
    requires LinkInv(ns, kids, e, R, p) && p + 1 < |R|
    requires ns[R[p]].degree == ns[R[p + 1]].degree
    requires !(p + 2 < |R| && ns[R[p + 2]].degree == ns[R[p]].degree)
    requires ns[R[p]].value > ns[R[p + 1]].value
    requires ns2 == SetSibling(if p > 0 then SetSibling(ns, R[p - 1], R[p + 1]) else ns, R[p], NIL)
    requires Chain(ns2, ns2[R[p + 1]].child, kids[R[p + 1]])
    requires kids' == kids[R[p + 1] := kids[R[p + 1]] + [R[p]]]
    requires ns' == AfterMergeTree(ns2, kids[R[p + 1]], R[p + 1], R[p])
    ensures LinkInv(ns', kids', e, Remove(R, p), p) && Cursor(ns', Remove(R, p), p)
    ensures SameKeys(ns, ns')
  {
    var x, y := R[p], R[p + 1];
    OverForest(ns, kids, e, R, p, ns2);
    OverChain(ns, kids, e, R, p, ns2);
    RemoveMembers(R, p);
    LinkOrderStep(ns, ns', R, p, p, y);
    LinkCursor(ns', kids', e, Remove(R, p), p);
  }
}
