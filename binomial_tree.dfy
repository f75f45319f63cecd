/**
 * Taking one tree out of a binomial forest, as extractMin does: the tree of
 * a root x is removed from the heap and x's children, with their `parent`
 * cleared, form a forest of their own.
 */
module BinomialTree {
  import opened BinomialShape
  import opened BinomialLink

  /** Climbing to the parent goes to an element of larger degree, and degrees are bounded. */
  lemma ParentAbove(ns: seq<Node>, kids: seq<seq<int>>, r: seq<int>, e: set<int>, n: int)
    requires Shape(ns, kids, r, e) && n in e && ns[n].parent != NIL
    ensures ns[n].parent in e && n in kids[ns[n].parent]
    ensures ns[n].degree < ns[ns[n].parent].degree <= |ns|
  {
    assert Placed(ns, kids, r, e, n);
    var p := ns[n].parent;
    assert KidsOk(ns, kids, e, p);
    KidsBound(ns, kids, e, p);
    var j :| 0 <= j < |kids[p]| && kids[p][j] == n;
  }

  /** The root of the tree that holds n. */
  ghost function RootOf(ns: seq<Node>, kids: seq<seq<int>>, r: seq<int>, e: set<int>, n: int): (x: int)
    requires Forest(ns, kids, r, e) && n in e
    ensures x in r && x in e && ns[x].parent == NIL
    decreases |ns| - ns[n].degree
  {
    assert Placed(ns, kids, r, e, n);
    if ns[n].parent == NIL then n
    else
      ParentAbove(ns, kids, r, e, n);
      RootOf(ns, kids, r, e, ns[n].parent)
  }

  /** The elements of the tree rooted at x. */
  ghost function Tree(ns: seq<Node>, kids: seq<seq<int>>, r: seq<int>, e: set<int>, x: int): (t: set<int>)
    requires Forest(ns, kids, r, e)
    ensures t <= e
  {
    set n | n in e && RootOf(ns, kids, r, e, n) == x
  }

  /** A child lies in the tree of its parent. */
  lemma KidSameRoot(ns: seq<Node>, kids: seq<seq<int>>, r: seq<int>, e: set<int>, m: int, j: int)
    requires Forest(ns, kids, r, e) && m in e && 0 <= j < |kids[m]|
    ensures kids[m][j] in e && ns[kids[m][j]].parent == m
    ensures RootOf(ns, kids, r, e, kids[m][j]) == RootOf(ns, kids, r, e, m)
  {
    assert KidsOk(ns, kids, e, m);
  }

  /** A forest over e depends on the records of e only. */
  lemma ForestFrame(ns: seq<Node>, ns': seq<Node>, kids: seq<seq<int>>, r: seq<int>, e: set<int>)
    requires Forest(ns, kids, r, e) && |ns'| == |ns|
    requires forall n :: n in e ==> ns'[n] == ns[n]
    ensures Forest(ns', kids, r, e)
  {
    forall m | m in e ensures KidsOk(ns', kids, e, m) && Placed(ns', kids, r, e, m) {
      assert KidsOk(ns, kids, e, m) && Placed(ns, kids, r, e, m);
      assert Chain(ns', ns'[m].child, kids[m]);
    }
  }

  /** A heap over e depends on the records of e only. */
  lemma HeapFrame(ns: seq<Node>, ns': seq<Node>, kids: seq<seq<int>>, bs: seq<Buffer>, h: int, m: int, r: seq<int>, e: set<int>)
    requires HeapOk(ns, kids, bs, h, m, r, e) && |ns'| == |ns|
    requires forall n :: n in e ==> ns'[n] == ns[n]
    ensures HeapOk(ns', kids, bs, h, m, r, e)
  {
    ForestFrame(ns, ns', kids, r, e);
    assert forall k :: 0 <= k < |r| ==> r[k] in e;
  }

  /** No element outside the tree of a root x is a child of x. */
  lemma OutsideTree(ns: seq<Node>, kids: seq<seq<int>>, r: seq<int>, e: set<int>, x: int)
    requires Forest(ns, kids, r, e) && x in r
    ensures forall n :: n in e - Tree(ns, kids, r, e, x) ==> n !in kids[x]
  {
    assert x in e && KidsOk(ns, kids, e, x);
    forall n | n in e - Tree(ns, kids, r, e, x) ensures n !in kids[x] {
      if n in kids[x] {
        var j :| 0 <= j < |kids[x]| && kids[x][j] == n;
        KidSameRoot(ns, kids, r, e, x, j);
      }
    }
  }

  /** The members of s with their `parent` cleared, as the list constructor leaves them. */
  function Orphaned(ns: seq<Node>, s: seq<int>): (ns': seq<Node>)
    ensures |ns'| == |ns|
    ensures forall n {:trigger ns'[n]} :: 0 <= n < |ns| ==> ns'[n] == if n in s then ns[n].(parent := NIL) else ns[n]
  {
    seq(|ns|, n requires 0 <= n < |ns| => if n in s then ns[n].(parent := NIL) else ns[n])
  }

  /**
   * A list of trees as the list constructor takes it: the sibling chain from
   * node, in increasing degree, that is a forest over e with linked buffers
   * once the parents of its members are cleared.
   */
  ghost predicate TreeList(ns: seq<Node>, kids: seq<seq<int>>, bs: seq<Buffer>, node: int, r: seq<int>, e: set<int>)
  {
    && Chain(ns, node, r) && Increasing(ns, r)
    && Forest(Orphaned(ns, r), kids, r, e) && Buffered(ns, bs, e)
    && (r == [] ==> e == {})
  }

  /** Clearing one more parent. */
  lemma OrphanedStep(ns: seq<Node>, s: seq<int>, x: int)
    requires 0 <= x < |ns|
    ensures Orphaned(ns, s + [x]) == Orphaned(ns, s)[x := ns[x].(parent := NIL)]
  {
    var a, b := Orphaned(ns, s + [x]), Orphaned(ns, s)[x := ns[x].(parent := NIL)];
    forall n | 0 <= n < |ns| ensures a[n] == b[n] {
      assert n in s + [x] <==> n in s || n == x;
    }
  }

  /** Clearing parents keeps every value and buffer. */
  lemma OrphanedKeys(ns: seq<Node>, s: seq<int>)
    ensures SameKeys(ns, Orphaned(ns, s))
  {
  }

  /** Clearing parents keeps every sibling chain and degree. */
  lemma OrphanedChain(ns: seq<Node>, node: int, r: seq<int>)
    requires Chain(ns, node, r) && Increasing(ns, r)
    ensures Chain(Orphaned(ns, r), node, r) && Increasing(Orphaned(ns, r), r)
  {
  }

  /** Clearing parents keeps every buffer link. */
  lemma OrphanedLinks(ns: seq<Node>, bs: seq<Buffer>, r: seq<int>, e: set<int>)
    requires Linked(ns, bs) && (forall m :: m in e ==> 0 <= m < |ns|) && Buffered(ns, bs, e)
    ensures Linked(Orphaned(ns, r), bs) && Buffered(Orphaned(ns, r), bs, e)
  {
  }

  /** Without the tree of r[i], the other trees of the forest remain. */
  lemma RestForest(ns: seq<Node>, kids: seq<seq<int>>, r: seq<int>, e: set<int>, i: int)
    requires Forest(ns, kids, r, e) && Distinct(r) && 0 <= i < |r|
    ensures Forest(ns, kids, Remove(r, i), e - Tree(ns, kids, r, e, r[i]))
  {
    var x, t := r[i], Tree(ns, kids, r, e, r[i]);
    var r', e' := Remove(r, i), e - t;
    RemoveMembers(r, i);
    forall k | 0 <= k < |r'| ensures r'[k] in e' && ns[r'[k]].parent == NIL {
      var j :| 0 <= j < |r| && j != i && r[j] == r'[k];
      assert r[j] != x;
    }
    forall m | m in e' ensures KidsOk(ns, kids, e', m) {
      assert KidsOk(ns, kids, e, m);
      forall j | 0 <= j < |kids[m]| ensures kids[m][j] in e' {
        KidSameRoot(ns, kids, r, e, m, j);
      }
    }
    forall m | m in e' ensures Placed(ns, kids, r', e', m) {
      assert Placed(ns, kids, r, e, m);
      if ns[m].parent == NIL {
        assert m != x;
      } else {
        ParentAbove(ns, kids, r, e, m);
      }
    }
  }

  /** Below a root x, every child list keeps its members in the tree and its links. */
  lemma ChildKids(ns: seq<Node>, kids: seq<seq<int>>, r: seq<int>, e: set<int>, x: int, m: int)
    requires Forest(ns, kids, r, e) && x in r && m in Tree(ns, kids, r, e, x) - {x}
    ensures KidsOk(Orphaned(ns, kids[x]), kids, Tree(ns, kids, r, e, x) - {x}, m)
  {
    var ns', e' := Orphaned(ns, kids[x]), Tree(ns, kids, r, e, x) - {x};
    assert x in e && ns[x].parent == NIL;
    assert KidsOk(ns, kids, e, x) && KidsOk(ns, kids, e, m);
    RootsAreNotKids(ns, kids, r, e, x);
    forall j | 0 <= j < |kids[m]| ensures kids[m][j] in e' && ns'[kids[m][j]].parent == m {
      KidSameRoot(ns, kids, r, e, m, j);
      assert kids[m][j] !in kids[x];
    }
    assert Chain(ns', ns'[m].child, kids[m]);
  }

  /** Below a root x, every element other than x hangs from x's children. */
  lemma ChildPlaced(ns: seq<Node>, kids: seq<seq<int>>, r: seq<int>, e: set<int>, x: int, m: int)
    requires Forest(ns, kids, r, e) && x in r && m in Tree(ns, kids, r, e, x) - {x}
    ensures Placed(Orphaned(ns, kids[x]), kids, kids[x], Tree(ns, kids, r, e, x) - {x}, m)
  {
    if m !in kids[x] {
      assert Placed(ns, kids, r, e, m);
      assert ns[m].parent != NIL;
      ParentAbove(ns, kids, r, e, m);
    }
  }

  /** The children of a root, their parents cleared, form a forest of the rest of its tree. */
  lemma ChildForest(ns: seq<Node>, kids: seq<seq<int>>, r: seq<int>, e: set<int>, x: int)
    requires Forest(ns, kids, r, e) && x in r
    ensures x in Tree(ns, kids, r, e, x)
    ensures Forest(Orphaned(ns, kids[x]), kids, kids[x], Tree(ns, kids, r, e, x) - {x})
  {
    var t := Tree(ns, kids, r, e, x);
    var ns', e' := Orphaned(ns, kids[x]), t - {x};
    assert x in e && ns[x].parent == NIL;
    forall k | 0 <= k < |kids[x]| ensures kids[x][k] in e' && ns'[kids[x][k]].parent == NIL {
      RootsAreNotKids(ns, kids, r, e, x);
      KidSameRoot(ns, kids, r, e, x, k);
    }
    forall m | m in e' ensures KidsOk(ns', kids, e', m) && Placed(ns', kids, kids[x], e', m) {
      ChildKids(ns, kids, r, e, x, m);
      ChildPlaced(ns, kids, r, e, x, m);
    }
  }

  /** The children of a node hang from its `child` with degrees 0, 1, 2, ... (a root list). */
  lemma ChildList(ns: seq<Node>, kids: seq<seq<int>>, e: set<int>, x: int)
    requires 0 <= x < |ns| == |kids| && KidsOk(ns, kids, e, x)
    ensures Chain(Orphaned(ns, kids[x]), ns[x].child, kids[x])
    ensures Increasing(Orphaned(ns, kids[x]), kids[x])
  {
  }
}
