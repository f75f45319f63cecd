/**
 * The trees of a Fibonacci heap. Every node m of the elements e owns a child
 * ring kids[m] (ghost) that hangs from its `child`; the elements that are in
 * no child ring are the tops, the members of the root ring. A top may keep a
 * stale `parent`: the list constructor leaves the parent of the last member
 * of a list as it was, so a top is recognised by not being listed under its
 * parent, not by a nullptr parent.
 */
module FibonacciForest {
  import opened FibonacciRing

  /** x hangs under m: an element with parent m, lower degree and no smaller key. */
  ghost predicate KidOk(ns: seq<Node>, e: set<int>, m: int, x: int)
    requires 0 <= m < |ns|
  {
    x in e && 0 <= x < |ns| && ns[x].parent == m && ns[x].degree < ns[m].degree && ns[m].key <= ns[x].key
  }

  /** The child ring of m is kids[m], starting at `child`, and `degree` counts it. */
  ghost predicate KidsOk(ns: seq<Node>, kids: seq<seq<int>>, e: set<int>, m: int)
    requires 0 <= m < |ns| == |kids|
  {
    && (kids[m] == [] <==> ns[m].child == NIL)
    && (kids[m] != [] ==> Ring(ns, kids[m]) && ns[m].child == kids[m][0])
    && ns[m].degree == |kids[m]|
    && forall j :: 0 <= j < |kids[m]| ==> KidOk(ns, e, m, kids[m][j])
  }

  /** n is listed in the child ring of its parent, an element. */
  ghost predicate IsKid(ns: seq<Node>, kids: seq<seq<int>>, e: set<int>, n: int)
    requires 0 <= n < |ns| == |kids|
  {
    0 <= ns[n].parent < |ns| && ns[n].parent in e && n in kids[ns[n].parent]
  }

  /** n is a top exactly when it is in no child ring. */
  ghost predicate Placed(ns: seq<Node>, kids: seq<seq<int>>, tops: set<int>, e: set<int>, n: int)
    requires 0 <= n < |ns| == |kids|
  {
    n in tops <==> !IsKid(ns, kids, e, n)
  }

  /** Heap-ordered trees over the elements e whose tops are tops. */
  ghost predicate Forest(ns: seq<Node>, kids: seq<seq<int>>, tops: set<int>, e: set<int>)
  {
    && |kids| == |ns|
    && tops <= e
    && (forall n :: n in e ==> 0 <= n < |ns|)
    && (forall n {:trigger KidsOk(ns, kids, e, n)} :: n in e ==> KidsOk(ns, kids, e, n))
    && (forall n {:trigger Placed(ns, kids, tops, e, n)} :: n in e ==> Placed(ns, kids, tops, e, n))
  }

  /** x has a key no larger than any element of e. */
  ghost predicate Least(ns: seq<Node>, x: int, e: set<int>)
  {
    0 <= x < |ns| && forall n :: n in e && 0 <= n < |ns| ==> ns[x].key <= ns[n].key
  }

  /** A top that changes keeps its key, child, degree and deletion flag and keeps or clears its parent. */
  predicate Loose(x: Node, y: Node)
  {
    && y.key == x.key && y.child == x.child && y.degree == x.degree && y.deleted == x.deleted
    && (y.parent == x.parent || y.parent == NIL)
  }

  /** The record apart from its mark. */
  function Unmarked(x: Node): Node
  {
    x.(marked := false)
  }

  /**
   * ns differs from ns0 on the elements e only at tops, there only as Loose
   * allows, and elsewhere at most in marks.
   */
  ghost predicate TopsOnly(ns0: seq<Node>, ns: seq<Node>, tops: set<int>, e: set<int>)
  {
    && |ns| == |ns0|
    && forall n :: n in e && 0 <= n < |ns0| ==>
         if n in tops then Loose(ns0[n], ns[n]) else Unmarked(ns[n]) == Unmarked(ns0[n])
  }

  /** A kid is not a top. */
  lemma KidNotTop(ns: seq<Node>, kids: seq<seq<int>>, tops: set<int>, e: set<int>, m: int, j: int)
    requires Forest(ns, kids, tops, e) && m in e && 0 <= j < |kids[m]|
    ensures kids[m][j] in e && kids[m][j] !in tops && ns[kids[m][j]].parent == m
  {
    assert KidsOk(ns, kids, e, m) && KidOk(ns, e, m, kids[m][j]);
    assert Placed(ns, kids, tops, e, kids[m][j]);
  }

  /** The children of an element are elements and none is a top. */
  lemma KidsNotTops(ns: seq<Node>, kids: seq<seq<int>>, tops: set<int>, e: set<int>, m: int)
    requires Forest(ns, kids, tops, e) && m in e
    ensures Members(kids[m]) <= e && Members(kids[m]) !! tops && m !in Members(kids[m])
  {
    forall x | x in Members(kids[m]) ensures x in e && x !in tops && x != m {
      var j :| 0 <= j < |kids[m]| && kids[m][j] == x;
      KidNotTop(ns, kids, tops, e, m, j);
      assert KidsOk(ns, kids, e, m) && KidOk(ns, e, m, x);
    }
  }

  /** Relinking and clearing parents at tops keeps the forest. */
  lemma ForestFrame(ns0: seq<Node>, ns: seq<Node>, kids: seq<seq<int>>, tops: set<int>, e: set<int>)
    requires Forest(ns0, kids, tops, e) && TopsOnly(ns0, ns, tops, e)
    ensures Forest(ns, kids, tops, e)
  {
    forall m | m in e ensures KidsOk(ns, kids, e, m) {
      assert KidsOk(ns0, kids, e, m);
      forall j | 0 <= j < |kids[m]| ensures Unmarked(ns[kids[m][j]]) == Unmarked(ns0[kids[m][j]]) {
        KidNotTop(ns0, kids, tops, e, m, j);
      }
      assert ns[m].child == ns0[m].child && ns[m].degree == ns0[m].degree && ns[m].key == ns0[m].key;
      if kids[m] != [] {
        RingFrame(ns0, ns, kids[m]);
      }
      forall j | 0 <= j < |kids[m]| ensures KidOk(ns, e, m, kids[m][j]) {
        assert KidOk(ns0, e, m, kids[m][j]);
      }
    }
    forall n | n in e ensures Placed(ns, kids, tops, e, n) {
      assert Placed(ns0, kids, tops, e, n);
    }
  }

  /** Relinking a set of nodes that holds no element other than tops touches tops only. */
  lemma RelinkedTops(ns0: seq<Node>, ns: seq<Node>, s: set<int>, tops: set<int>, e: set<int>)
    requires Relinked(ns0, ns, s) && forall x :: x in s && x in e ==> x in tops
    ensures TopsOnly(ns0, ns, tops, e)
  {
  }

  /** A subset is no larger than its superset. */
  lemma SubsetCard(a: set<int>, b: set<int>)
    requires a <= b
    ensures |a| <= |b|
  {
    assert b == a + (b - a);
  }

  /** A node has fewer children than e has elements. */
  lemma DegreeBound(ns: seq<Node>, kids: seq<seq<int>>, tops: set<int>, e: set<int>, m: int)
    requires Forest(ns, kids, tops, e) && m in e
    ensures 0 <= ns[m].degree < |e|
  {
    assert KidsOk(ns, kids, e, m);
    if kids[m] != [] {
      DistinctCard(kids[m]);
      assert Members(kids[m]) <= e - {m} by {
        forall x | x in Members(kids[m]) ensures x in e - {m} {
          var j :| 0 <= j < |kids[m]| && kids[m][j] == x;
          assert KidOk(ns, e, m, x);
        }
      }
      SubsetCard(Members(kids[m]), e - {m});
    }
  }

  /** Every element lies below a top whose key is no larger. */
  lemma {:induction false} TopBelow(ns: seq<Node>, kids: seq<seq<int>>, tops: set<int>, e: set<int>, n: int)
    requires Forest(ns, kids, tops, e) && n in e
    ensures exists t :: t in tops && ns[t].key <= ns[n].key
    decreases |e| - ns[n].degree
  {
    assert Placed(ns, kids, tops, e, n);
    if n !in tops {
      var p := ns[n].parent;
      assert KidsOk(ns, kids, e, p);
      var j :| 0 <= j < |kids[p]| && kids[p][j] == n;
      assert KidOk(ns, e, p, n);
      DegreeBound(ns, kids, tops, e, p);
      TopBelow(ns, kids, tops, e, p);
    }
  }

  /** A top whose key is least among the tops is least among all elements. */
  lemma LeastTop(ns: seq<Node>, kids: seq<seq<int>>, tops: set<int>, e: set<int>, x: int)
    requires Forest(ns, kids, tops, e) && Least(ns, x, tops)
    ensures Least(ns, x, e)
  {
    forall n | n in e ensures ns[x].key <= ns[n].key {
      TopBelow(ns, kids, tops, e, n);
    }
  }

  /** A forest without tops has no elements. */
  lemma NoTops(ns: seq<Node>, kids: seq<seq<int>>, e: set<int>)
    requires Forest(ns, kids, {}, e)
    ensures e == {}
  {
    forall n | n in e ensures false {
      TopBelow(ns, kids, {}, e, n);
    }
  }
  /** Without the top x, the children of x become tops (extractMin). */
  lemma DropTop(ns: seq<Node>, kids: seq<seq<int>>, tops: set<int>, e: set<int>, x: int)
    requires Forest(ns, kids, tops, e) && x in tops
    ensures Forest(ns, kids, tops - {x} + Members(kids[x]), e - {x})
  {
    var e', M := e - {x}, Members(kids[x]);
    var t' := tops - {x} + M;
    assert x in e && KidsOk(ns, kids, e, x);
    forall z | z in M ensures z in e' && ns[z].parent == x {
      var j :| 0 <= j < |kids[x]| && kids[x][j] == z;
      KidNotTop(ns, kids, tops, e, x, j);
    }
    forall m | m in e' ensures KidsOk(ns, kids, e', m) {
      assert KidsOk(ns, kids, e, m);
      forall j | 0 <= j < |kids[m]| ensures KidOk(ns, e', m, kids[m][j]) {
        KidNotTop(ns, kids, tops, e, m, j);
        assert KidOk(ns, e, m, kids[m][j]);
      }
    }
    forall n | n in e' ensures Placed(ns, kids, t', e', n) {
      assert Placed(ns, kids, tops, e, n);
    }
  }

  /** Two forests over disjoint elements form one forest. */
  lemma ForestUnion(ns: seq<Node>, kids: seq<seq<int>>, t1: set<int>, e1: set<int>, t2: set<int>, e2: set<int>)
    requires Forest(ns, kids, t1, e1) && Forest(ns, kids, t2, e2) && e1 !! e2
    ensures Forest(ns, kids, t1 + t2, e1 + e2)
  {
    var e := e1 + e2;
    forall m | m in e ensures KidsOk(ns, kids, e, m) {
      if m in e1 {
        assert KidsOk(ns, kids, e1, m);
        forall j | 0 <= j < |kids[m]| ensures KidOk(ns, e, m, kids[m][j]) {
          assert KidOk(ns, e1, m, kids[m][j]);
        }
      } else {
        assert KidsOk(ns, kids, e2, m);
        forall j | 0 <= j < |kids[m]| ensures KidOk(ns, e, m, kids[m][j]) {
          assert KidOk(ns, e2, m, kids[m][j]);
        }
      }
    }
    forall n | n in e ensures Placed(ns, kids, t1 + t2, e, n) {
      var p := ns[n].parent;
      if n in e1 {
        assert Placed(ns, kids, t1, e1, n);
        if 0 <= p < |ns| && p in e2 && n in kids[p] {
          var j :| 0 <= j < |kids[p]| && kids[p][j] == n;
          KidNotTop(ns, kids, t2, e2, p, j);
        }
      } else {
        assert Placed(ns, kids, t2, e2, n);
        if 0 <= p < |ns| && p in e1 && n in kids[p] {
          var j :| 0 <= j < |kids[p]| && kids[p][j] == n;
          KidNotTop(ns, kids, t1, e1, p, j);
        }
      }
    }
  }

  /** A childless node forms a forest of one top. */
  lemma SingleTop(ns: seq<Node>, kids: seq<seq<int>>, x: int)
    requires 0 <= x < |ns| == |kids| && kids[x] == [] && ns[x].child == NIL && ns[x].degree == 0
    ensures Forest(ns, kids, {x}, {x})
  {
    assert KidsOk(ns, kids, {x}, x);
    assert Placed(ns, kids, {x}, {x}, x);
  }

  /** A forest is kept when the arena grows by a node with no children. */
  lemma ForestGrow(ns: seq<Node>, kids: seq<seq<int>>, tops: set<int>, e: set<int>, x: Node)
    requires Forest(ns, kids, tops, e)
    ensures Forest(ns + [x], kids + [[]], tops, e)
  {
    var ns', kids' := ns + [x], kids + [[]];
    forall m | m in e ensures KidsOk(ns', kids', e, m) {
      assert KidsOk(ns, kids, e, m);
      if kids[m] != [] {
        forall i | 0 <= i < |kids[m]| ensures RingAt(ns', kids[m], i) {
          assert RingAt(ns, kids[m], i);
        }
      }
      forall j | 0 <= j < |kids[m]| ensures KidOk(ns', e, m, kids[m][j]) {
        assert KidOk(ns, e, m, kids[m][j]);
      }
    }
    forall n | n in e ensures Placed(ns', kids', tops, e, n) {
      assert Placed(ns, kids, tops, e, n);
    }
  }
  /**
   * ns' and the ring k are what linking leaves when the top x adopts the top
   * y: x counts one more child and points at y, y names x its parent, the
   * child ring of x with y added is k from y, and besides the links of y and
   * of the old children of x nothing else changes.
   */
  ghost predicate Adopted(ns: seq<Node>, ns': seq<Node>, kids: seq<seq<int>>, x: int, y: int, k: seq<int>)
    requires 0 <= x < |ns| == |kids| && 0 <= y < |ns|
  {
    && |ns'| == |ns|
    && ns'[x] == ns[x].(degree := ns[x].degree + 1, child := y)
    && Bare(ns'[y]) == Bare(ns[y].(parent := x))
    && (forall n :: 0 <= n < |ns| && n != x && n != y ==>
          if n in Members(kids[x]) then Bare(ns'[n]) == Bare(ns[n]) else ns'[n] == ns[n])
    && Ring(ns', k) && k[0] == y && Members(k) == Members(kids[x]) + {y} && |k| == |kids[x]| + 1
  }

  /** Linking keeps every pointer inside the arena. */
  lemma AdoptedArena(ns: seq<Node>, ns': seq<Node>, kids: seq<seq<int>>, x: int, y: int, k: seq<int>)
    requires Arena(ns) && 0 <= x < |ns| == |kids| && 0 <= y < |ns| && Adopted(ns, ns', kids, x, y, k)
    ensures Arena(ns')
  {
    forall n | 0 <= n < |ns'| ensures Pointers(ns', ns'[n]) {
      assert Pointers(ns, ns[n]);
      if n in Members(k) {
        var i :| 0 <= i < |k| && k[i] == n;
        assert RingAt(ns', k, i);
      }
    }
  }

  /** After linking, x keeps a well-formed child ring. */
  lemma AdoptParent(ns: seq<Node>, kids: seq<seq<int>>, tops: set<int>, e: set<int>, x: int, y: int, ns': seq<Node>, k: seq<int>)
    requires Forest(ns, kids, tops, e) && x in tops && y in tops && x != y
    requires ns[x].key <= ns[y].key && ns[y].degree == ns[x].degree
    requires Adopted(ns, ns', kids, x, y, k)
    ensures KidsOk(ns', kids[x := k], e, x)
  {
    assert KidsOk(ns, kids, e, x);
    forall j | 0 <= j < |k| ensures KidOk(ns', e, x, k[j]) {
      var z := k[j];
      assert z in Members(k);
      if z != y {
        var i :| 0 <= i < |kids[x]| && kids[x][i] == z;
        KidNotTop(ns, kids, tops, e, x, i);
        assert KidOk(ns, e, x, z);
      }
    }
  }

  /** After linking, every other element keeps its child ring. */
  lemma AdoptOthers(ns: seq<Node>, kids: seq<seq<int>>, tops: set<int>, e: set<int>, x: int, y: int, ns': seq<Node>, k: seq<int>, m: int)
    requires Forest(ns, kids, tops, e) && x in tops && y in tops && x != y
    requires Adopted(ns, ns', kids, x, y, k) && m in e && m != x
    ensures KidsOk(ns', kids[x := k], e, m)
  {
    assert KidsOk(ns, kids, e, m);
    assert ns'[m].child == ns[m].child && ns'[m].degree == ns[m].degree && ns'[m].key == ns[m].key;
    forall j | 0 <= j < |kids[m]| ensures ns'[kids[m][j]] == ns[kids[m][j]] {
      var z := kids[m][j];
      KidNotTop(ns, kids, tops, e, m, j);
      if z in Members(kids[x]) {
        var i :| 0 <= i < |kids[x]| && kids[x][i] == z;
        KidNotTop(ns, kids, tops, e, x, i);
      }
    }
    if kids[m] != [] {
      RingFrame(ns, ns', kids[m]);
    }
    forall j | 0 <= j < |kids[m]| ensures KidOk(ns', e, m, kids[m][j]) {
      assert KidOk(ns, e, m, kids[m][j]);
    }
  }

  /** After linking, y is the one element that stops being a top. */
  lemma AdoptPlaced(ns: seq<Node>, kids: seq<seq<int>>, tops: set<int>, e: set<int>, x: int, y: int, ns': seq<Node>, k: seq<int>, n: int)
    requires Forest(ns, kids, tops, e) && x in tops && y in tops && x != y
    requires Adopted(ns, ns', kids, x, y, k) && n in e
    ensures Placed(ns', kids[x := k], tops - {y}, e, n)
  {
    assert Placed(ns, kids, tops, e, n);
    if n != y {
      assert ns'[n].parent == ns[n].parent;
      assert (n in k <==> n in Members(k)) && (n in kids[x] <==> n in Members(kids[x]));
    } else {
      assert y in Members(k);
    }
  }

  /** Linking two tops keeps the forest, with one top fewer. */
  lemma AdoptKeepsForest(ns: seq<Node>, kids: seq<seq<int>>, tops: set<int>, e: set<int>, x: int, y: int, ns': seq<Node>, k: seq<int>)
    requires Forest(ns, kids, tops, e) && x in tops && y in tops && x != y
    requires ns[x].key <= ns[y].key && ns[y].degree == ns[x].degree
    requires Adopted(ns, ns', kids, x, y, k)
    ensures Forest(ns', kids[x := k], tops - {y}, e)
  {
    AdoptParent(ns, kids, tops, e, x, y, ns', k);
    forall m | m in e && m != x ensures KidsOk(ns', kids[x := k], e, m) {
      AdoptOthers(ns, kids, tops, e, x, y, ns', k, m);
    }
    forall n | n in e ensures Placed(ns', kids[x := k], tops - {y}, e, n) {
      AdoptPlaced(ns, kids, tops, e, x, y, ns', k, n);
    }
  }
  /** Lowering the key of an element keeps the forest when it stays no smaller than its parent's, if it has one. */
  lemma NewKey(ns: seq<Node>, kids: seq<seq<int>>, tops: set<int>, e: set<int>, x: int, k: int)
    requires Forest(ns, kids, tops, e) && x in e && k <= ns[x].key
    requires x !in tops ==> 0 <= ns[x].parent < |ns| && ns[ns[x].parent].key <= k
    ensures Forest(ns[x := ns[x].(key := k)], kids, tops, e)
  {
    var ns' := ns[x := ns[x].(key := k)];
    assert Placed(ns, kids, tops, e, x);
    forall m | m in e ensures KidsOk(ns', kids, e, m) {
      assert KidsOk(ns, kids, e, m);
      if kids[m] != [] {
        RingFrame(ns, ns', kids[m]);
      }
      forall j | 0 <= j < |kids[m]| ensures KidOk(ns', e, m, kids[m][j]) {
        assert KidOk(ns, e, m, kids[m][j]);
        if kids[m][j] == x {
          KidNotTop(ns, kids, tops, e, m, j);
        }
      }
    }
    forall n | n in e ensures Placed(ns', kids, tops, e, n) {
      assert Placed(ns, kids, tops, e, n);
    }
  }

  /**
   * Cutting x when it is the only child of its parent p: p loses its child
   * ring and one degree, and x becomes a top with p as a stale parent.
   */
  lemma CutOnlyChild(ns: seq<Node>, kids: seq<seq<int>>, tops: set<int>, e: set<int>, x: int)
    requires Forest(ns, kids, tops, e) && x in e && x !in tops
    requires 0 <= ns[x].parent < |ns| && kids[ns[x].parent] == [x]
    ensures ns[x].parent in e && ns[ns[x].parent].degree == 1
    ensures
      var p := ns[x].parent;
      Forest(ns[p := ns[p].(child := NIL, degree := 0)], kids[p := []], tops + {x}, e)
  {
    assert Placed(ns, kids, tops, e, x);
    var p := ns[x].parent;
    var ns', kids', tops' := ns[p := ns[p].(child := NIL, degree := 0)], kids[p := []], tops + {x};
    assert KidsOk(ns, kids, e, p);
    forall m | m in e ensures KidsOk(ns', kids', e, m) {
      assert KidsOk(ns, kids, e, m);
      if m != p {
        forall j | 0 <= j < |kids[m]| ensures KidOk(ns', e, m, kids[m][j]) {
          assert KidOk(ns, e, m, kids[m][j]);
        }
        if kids[m] != [] {
          RingFrame(ns, ns', kids[m]);
        }
      }
    }
    forall n | n in e ensures Placed(ns', kids', tops', e, n) {
      assert Placed(ns, kids, tops, e, n);
      if n != x && ns[n].parent == p {
        assert n !in kids[p];
      }
    }
  }
}
