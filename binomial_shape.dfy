/**
 * The shape of a binomial heap stored in an arena: `shared_ptr<Node>` links
 * become indices into a sequence of node records, `nullptr` becomes NIL.
 * This module holds the records and the pure predicates and lemmas about
 * them; the class that updates them in place is in module Binomial.
 */
module BinomialShape {

  /** The index that stands for `nullptr`. */
  const NIL: int := -1

  /** BinomialHeap::Node (BinomialHeap.cpp:256-271). */
  datatype Node = Node(value: int, degree: nat, parent: int, child: int, sibling: int, buffer: int)

  /** BinomialHeap::Buffer (BinomialHeap.cpp:272-283): the object a handle points at. */
  datatype Buffer = Buffer(node: int, deleted: bool)

  /** The element after position i of a sibling chain, NIL after the last. */
  function Next(s: seq<int>, i: int): int
    requires 0 <= i < |s|
  {
    if i + 1 < |s| then s[i + 1] else NIL
  }

  ghost predicate InRange(ns: seq<Node>, s: seq<int>)
  {
    forall i :: 0 <= i < |s| ==> 0 <= s[i] < |ns|
  }

  /** `s` is the list reached from `first` by following `sibling` up to nullptr. */
  ghost predicate Chain(ns: seq<Node>, first: int, s: seq<int>)
  {
    && InRange(ns, s)
    && first == (if s == [] then NIL else s[0])
    && forall i :: 0 <= i < |s| ==> ns[s[i]].sibling == Next(s, i)
  }

  ghost predicate Distinct(s: seq<int>)
  {
    forall i, j :: 0 <= i < j < |s| ==> s[i] != s[j]
  }

  /** Degrees strictly increase along `s` (the root-list invariant). */
  ghost predicate Increasing(ns: seq<Node>, s: seq<int>)
  {
    InRange(ns, s) && forall i, j :: 0 <= i < j < |s| ==> ns[s[i]].degree < ns[s[j]].degree
  }

  /**
   * Node n's child list is kids[n]: it hangs from `child`, every member has
   * `parent == n`, the j-th child has degree j, and `degree` counts the children.
   */
  ghost predicate KidsOk(ns: seq<Node>, kids: seq<seq<int>>, e: set<int>, n: int)
    requires 0 <= n < |ns| == |kids|
  {
    && Chain(ns, ns[n].child, kids[n])
    && ns[n].degree == |kids[n]|
    && forall j :: 0 <= j < |kids[n]| ==>
         kids[n][j] in e && ns[kids[n][j]].parent == n && ns[kids[n][j]].degree == j
  }

  /** Node n hangs where its `parent` says: in the root list or in its parent's child list. */
  ghost predicate Placed(ns: seq<Node>, kids: seq<seq<int>>, r: seq<int>, e: set<int>, n: int)
    requires 0 <= n < |ns| == |kids|
    requires forall m :: m in e ==> 0 <= m < |ns|
  {
    if ns[n].parent == NIL then n in r
    else ns[n].parent in e && n in kids[ns[n].parent]
  }

  /** The elements e form binomial trees whose roots are listed in r. */
  ghost predicate Shape(ns: seq<Node>, kids: seq<seq<int>>, r: seq<int>, e: set<int>)
  {
    && |kids| == |ns|
    && (forall m :: m in e ==> 0 <= m < |ns|)
    && (forall i :: 0 <= i < |r| ==> r[i] in e && ns[r[i]].parent == NIL)
    && (forall n {:trigger KidsOk(ns, kids, e, n)} :: n in e ==> KidsOk(ns, kids, e, n))
    && (forall n {:trigger Placed(ns, kids, r, e, n)} :: n in e ==> Placed(ns, kids, r, e, n))
  }

  /** Heap order: no element of e has a value below its parent's. */
  ghost predicate Ordered(ns: seq<Node>, e: set<int>)
  {
    forall n {:trigger n in e} :: n in e && 0 <= n < |ns| && ns[n].parent != NIL ==>
      0 <= ns[n].parent < |ns| && ns[ns[n].parent].value <= ns[n].value
  }

  /** Heap-ordered binomial trees over e with the roots r. */
  ghost predicate Forest(ns: seq<Node>, kids: seq<seq<int>>, r: seq<int>, e: set<int>)
  {
    Shape(ns, kids, r, e) && Ordered(ns, e)
  }

  /** The root list r hangs from head, degrees increase along it, and minimum is one of its roots. */
  ghost predicate ListOk(ns: seq<Node>, head: int, minimum: int, r: seq<int>)
  {
    && Chain(ns, head, r)
    && Increasing(ns, r)
    && (r == [] <==> minimum == NIL)
    && (r != [] ==> minimum in r)
  }

  /**
   * A binomial heap with root list r over the elements e: heap-ordered
   * binomial trees, each element owning a live buffer, the roots in
   * increasing degree from head, minimum on one of them.
   */
  ghost predicate HeapOk(ns: seq<Node>, kids: seq<seq<int>>, bs: seq<Buffer>, head: int, minimum: int, r: seq<int>, e: set<int>)
  {
    && Forest(ns, kids, r, e)
    && Buffered(ns, bs, e)
    && ListOk(ns, head, minimum, r)
    && (r == [] ==> e == {})
  }

  /** The two arenas differ at most in values and buffers. */
  ghost predicate SameLinks(ns0: seq<Node>, ns1: seq<Node>)
  {
    && |ns0| == |ns1|
    && forall n :: 0 <= n < |ns0| ==>
         ns1[n].parent == ns0[n].parent && ns1[n].child == ns0[n].child &&
         ns1[n].sibling == ns0[n].sibling && ns1[n].degree == ns0[n].degree
  }

  /** Moving values and buffers around leaves the shape alone. */
  lemma SameLinksKeepShape(ns0: seq<Node>, ns1: seq<Node>, kids: seq<seq<int>>, r: seq<int>, e: set<int>)
    requires Shape(ns0, kids, r, e) && SameLinks(ns0, ns1)
    ensures Shape(ns1, kids, r, e)
  {
    forall m | m in e ensures KidsOk(ns1, kids, e, m) && Placed(ns1, kids, r, e, m) {
      assert KidsOk(ns0, kids, e, m) && Placed(ns0, kids, r, e, m);
      assert Chain(ns1, ns1[m].child, kids[m]);
    }
  }

  /** Moving values and buffers around leaves the root list alone. */
  lemma SameLinksKeepList(ns0: seq<Node>, ns1: seq<Node>, head: int, minimum: int, r: seq<int>)
    requires ListOk(ns0, head, minimum, r) && SameLinks(ns0, ns1)
    ensures ListOk(ns1, head, minimum, r)
  {
  }

  /** Every element of e owns a live buffer that points back at it. */
  ghost predicate Buffered(ns: seq<Node>, bs: seq<Buffer>, e: set<int>)
    requires forall m :: m in e ==> 0 <= m < |ns|
  {
    forall n :: n in e ==>
      0 <= ns[n].buffer < |bs| && bs[ns[n].buffer].node == n && !bs[ns[n].buffer].deleted
  }

  /**
   * Arena consistency, whatever heap a node belongs to: a live buffer and its
   * node point at each other, a deleted buffer points at nothing.
   */
  ghost predicate Linked(ns: seq<Node>, bs: seq<Buffer>)
  {
    && (forall b :: 0 <= b < |bs| ==>
          if bs[b].deleted then bs[b].node == NIL
          else 0 <= bs[b].node < |ns| && ns[bs[b].node].buffer == b)
    && (forall n :: 0 <= n < |ns| ==>
          ns[n].buffer == NIL || (0 <= ns[n].buffer < |bs| && bs[ns[n].buffer].node == n))
  }

  /** The live handles of the elements e, each mapped to the value it reads. */
  ghost function HandleMap(ns: seq<Node>, bs: seq<Buffer>, e: set<int>): map<int, int>
  {
    map b | 0 <= b < |bs| && !bs[b].deleted && bs[b].node in e && 0 <= bs[b].node < |ns| :: ns[bs[b].node].value
  }

  /** The two arenas agree on everything but `sibling` and on all siblings outside `s`. */
  ghost predicate SiblingsOnly(ns0: seq<Node>, ns1: seq<Node>, s: seq<int>)
  {
    && |ns0| == |ns1|
    && forall n :: 0 <= n < |ns0| ==>
         ns1[n] == ns0[n].(sibling := ns1[n].sibling) && (n !in s ==> ns1[n].sibling == ns0[n].sibling)
  }

  /** Node n with a different `sibling` (one pointer assignment). */
  function SetSibling(ns: seq<Node>, n: int, s: int): (r: seq<Node>)
    requires 0 <= n < |ns|
    ensures |r| == |ns| && r[n].sibling == s
  {
    ns[n := ns[n].(sibling := s)]
  }

  /**
   * The effect of mergeTree(a, b) (BinomialHeap.cpp:305-317) on the arena:
   * a.degree grows by one, b.parent becomes a, and b is appended to a's
   * child list `k`, at a.child when the list is empty and after its last
   * member otherwise. Nothing else changes.
   */
  function AfterMergeTree(ns: seq<Node>, k: seq<int>, a: int, b: int): (r: seq<Node>)
    requires 0 <= a < |ns| && 0 <= b < |ns| && a != b && InRange(ns, k)
    ensures |r| == |ns|
    ensures forall n :: 0 <= n < |ns| ==> r[n].value == ns[n].value && r[n].buffer == ns[n].buffer
    ensures r[a].degree == ns[a].degree + 1
    ensures forall n :: 0 <= n < |ns| && n != a ==> r[n].degree == ns[n].degree
    ensures r[b].parent == a
    ensures forall n :: 0 <= n < |ns| && n != b ==> r[n].parent == ns[n].parent
    ensures r[a].child == (if k == [] then b else ns[a].child)
    ensures forall n :: 0 <= n < |ns| && n != a ==> r[n].child == ns[n].child
    ensures k != [] ==> r[k[|k| - 1]].sibling == b
    ensures forall n :: 0 <= n < |ns| && (k == [] || n != k[|k| - 1]) ==> r[n].sibling == ns[n].sibling
  {
    var ns1 := ns[a := ns[a].(degree := ns[a].degree + 1)];
    var ns2 := ns1[b := ns1[b].(parent := a)];
    if k == [] then ns2[a := ns2[a].(child := b)]
    else ns2[k[|k| - 1] := ns2[k[|k| - 1]].(sibling := b)]
  }

  /** Reassigning the `sibling` of roots leaves every tree as it was. */
  lemma RootSiblingsKeepForest(ns: seq<Node>, ns': seq<Node>, kids: seq<seq<int>>, r: seq<int>, e: set<int>, s: seq<int>)
    requires Forest(ns, kids, r, e) && SiblingsOnly(ns, ns', s)
    requires forall i :: 0 <= i < |s| ==> s[i] in e && ns[s[i]].parent == NIL
    ensures Forest(ns', kids, r, e)
  {
    forall m | m in e ensures KidsOk(ns', kids, e, m) {
      assert KidsOk(ns, kids, e, m);
      forall j | 0 <= j < |kids[m]| ensures kids[m][j] !in s {
        assert ns[kids[m][j]].parent == m;
      }
    }
    forall m | m in e ensures Placed(ns', kids, r, e, m) {
      assert Placed(ns, kids, r, e, m);
    }
  }

  /** One `sibling` assignment on a root. */
  lemma RootSiblingKeepsForest(ns: seq<Node>, kids: seq<seq<int>>, r: seq<int>, e: set<int>, n: int, s: int)
    requires Forest(ns, kids, r, e) && n in e && ns[n].parent == NIL
    ensures Forest(SetSibling(ns, n, s), kids, r, e)
  {
    RootSiblingsKeepForest(ns, SetSibling(ns, n, s), kids, r, e, [n]);
  }

  /** Only the set of roots matters, not the order in which they are listed. */
  lemma SameRootsKeepForest(ns: seq<Node>, kids: seq<seq<int>>, r: seq<int>, r': seq<int>, e: set<int>)
    requires Forest(ns, kids, r, e)
    requires forall x :: x in r <==> x in r'
    ensures Forest(ns, kids, r', e)
  {
    forall i | 0 <= i < |r'| ensures r'[i] in e && ns[r'[i]].parent == NIL {
      assert r'[i] in r;
    }
    forall m | m in e ensures Placed(ns, kids, r', e, m) {
      assert Placed(ns, kids, r, e, m);
    }
  }

  /** Two forests over disjoint elements form one forest with both root lists. */
  lemma ForestUnion(ns: seq<Node>, kids: seq<seq<int>>, r1: seq<int>, e1: set<int>, r2: seq<int>, e2: set<int>)
    requires Forest(ns, kids, r1, e1) && Forest(ns, kids, r2, e2)
    ensures Forest(ns, kids, r1 + r2, e1 + e2)
  {
    var r, e := r1 + r2, e1 + e2;
    forall i | 0 <= i < |r| ensures r[i] in e && ns[r[i]].parent == NIL {
      if i >= |r1| {
        assert r[i] == r2[i - |r1|];
      }
    }
    forall m | m in e ensures KidsOk(ns, kids, e, m) && Placed(ns, kids, r, e, m) {
      if m in e1 {
        assert KidsOk(ns, kids, e1, m) && Placed(ns, kids, r1, e1, m);
      } else {
        assert KidsOk(ns, kids, e2, m) && Placed(ns, kids, r2, e2, m);
      }
    }
  }

  /** Neither root of a forest is anybody's child. */
  lemma RootsAreNotKids(ns: seq<Node>, kids: seq<seq<int>>, r: seq<int>, e: set<int>, x: int)
    requires Forest(ns, kids, r, e) && x in e && ns[x].parent == NIL
    ensures forall m, j :: m in e && 0 <= j < |kids[m]| ==> kids[m][j] != x
  {
    forall m, j | m in e && 0 <= j < |kids[m]| ensures kids[m][j] != x {
      assert KidsOk(ns, kids, e, m);
    }
  }

  /** After linking, x's child list is its old one followed by y. */
  lemma LinkKidsOfTop(ns: seq<Node>, kids: seq<seq<int>>, e: set<int>, x: int, y: int, ns': seq<Node>)
    requires |ns| == |kids| && 0 <= x < |ns| && 0 <= y < |ns| && x != y && y in e
    requires KidsOk(ns, kids, e, x)
    requires ns[x].degree == ns[y].degree && ns[y].sibling == NIL
    requires forall j :: 0 <= j < |kids[x]| ==> kids[x][j] != x && kids[x][j] != y
    requires ns' == AfterMergeTree(ns, kids[x], x, y)
    ensures KidsOk(ns', kids[x := kids[x] + [y]], e, x)
  {
    var k := kids[x];
    var k' := k + [y];
    var kids' := kids[x := k'];
    forall j | 0 <= j < |k'|
      ensures k'[j] in e && ns'[k'[j]].parent == x && ns'[k'[j]].degree == j
      ensures ns'[k'[j]].sibling == Next(k', j)
    {
      if j < |k| {
        assert k'[j] == k[j];
        assert ns[k[j]].sibling == Next(k, j);
      }
    }
    assert Chain(ns', ns'[x].child, k');
  }

  /** Linking leaves every other node's child list as it was. */
  lemma LinkKidsOfOther(ns: seq<Node>, kids: seq<seq<int>>, e: set<int>, x: int, y: int, m: int, ns': seq<Node>)
    requires |ns| == |kids| && 0 <= x < |ns| && 0 <= y < |ns| && x != y && 0 <= m < |ns| && m != x
    requires KidsOk(ns, kids, e, m) && InRange(ns, kids[x])
    requires forall j :: 0 <= j < |kids[m]| ==> kids[m][j] != x && kids[m][j] != y
    requires forall j :: 0 <= j < |kids[x]| ==> ns[kids[x][j]].parent == x
    requires ns' == AfterMergeTree(ns, kids[x], x, y)
    ensures KidsOk(ns', kids[x := kids[x] + [y]], e, m)
  {
    var k := kids[x];
    forall j | 0 <= j < |kids[m]| ensures ns'[kids[m][j]].sibling == ns[kids[m][j]].sibling {
      assert ns[kids[m][j]].parent == m;
    }
    assert Chain(ns', ns'[m].child, kids[m]);
  }

  /**
   * Linking two roots of equal degree, the one with the smaller or equal
   * value on top, keeps the forest: y leaves the root list and becomes the
   * last child of x.
   */
  lemma LinkKeepsForest(ns: seq<Node>, kids: seq<seq<int>>, r: seq<int>, r': seq<int>, e: set<int>, x: int, y: int)
    requires Forest(ns, kids, r, e)
    requires x in r && y in r && x != y
    requires ns[x].degree == ns[y].degree && ns[x].value <= ns[y].value
    requires ns[y].sibling == NIL
    requires forall z :: z in r' <==> z in r && z != y
    ensures InRange(ns, kids[x])
    ensures Forest(AfterMergeTree(ns, kids[x], x, y), kids[x := kids[x] + [y]], r', e)
  {
    assert KidsOk(ns, kids, e, x);
    var ns' := AfterMergeTree(ns, kids[x], x, y);
    var kids' := kids[x := kids[x] + [y]];
    RootsAreNotKids(ns, kids, r, e, x);
    RootsAreNotKids(ns, kids, r, e, y);
    LinkKidsOfTop(ns, kids, e, x, y, ns');
    forall m | m in e && m != x ensures KidsOk(ns', kids', e, m) {
      assert KidsOk(ns, kids, e, m);
      LinkKidsOfOther(ns, kids, e, x, y, m, ns');
    }
    forall m | m in e ensures Placed(ns', kids', r', e, m) {
      assert Placed(ns, kids, r, e, m);
      if m != y && ns[m].parent != NIL {
        assert m in kids'[ns[m].parent];
      }
    }
    forall i | 0 <= i < |r'| ensures r'[i] in e && ns'[r'[i]].parent == NIL {
      assert r'[i] in r;
    }
  }

  /** Degrees never fall along `s` and no degree occurs three times in a row (a merged root list). */
  ghost predicate Sorted2(ns: seq<Node>, s: seq<int>)
  {
    && InRange(ns, s)
    && (forall i, j :: 0 <= i < j < |s| ==> ns[s[i]].degree <= ns[s[j]].degree)
    && (forall i, j :: 0 <= i && i + 2 <= j < |s| ==> ns[s[i]].degree < ns[s[j]].degree)
  }

  lemma Sorted2SameDegrees(ns0: seq<Node>, ns1: seq<Node>, s: seq<int>)
    requires Sorted2(ns0, s) && |ns0| == |ns1|
    requires forall n :: 0 <= n < |ns0| ==> ns1[n].degree == ns0[n].degree
    ensures Sorted2(ns1, s)
  {
  }

  /** x is the first member of s with the least value (a scan that replaces only on `>`). */
  ghost predicate LeastFirst(ns: seq<Node>, s: seq<int>, x: int)
  {
    && InRange(ns, s) && 0 <= x < |ns| && x in s
    && (forall i :: 0 <= i < |s| ==> ns[x].value <= ns[s[i]].value)
    && (forall i, j :: 0 <= i < j < |s| && s[j] == x ==> ns[s[i]].value > ns[x].value)
  }

  /**
   * A scan for the least value along s has looked at s[..i] and holds s[k] in
   * m, the first of them with the least value (NIL when s is empty).
   */
  ghost predicate Scanned(ns: seq<Node>, s: seq<int>, i: int, k: int, m: int)
  {
    && InRange(ns, s) && 0 <= i <= |s|
    && (if s == [] then m == NIL else
          && 0 <= k < |s| && k <= i && m == s[k]
          && (forall j :: 0 <= j < k ==> ns[s[j]].value > ns[m].value))
    && (forall j :: 0 <= j < i ==> ns[m].value <= ns[s[j]].value)
  }

  /** One comparison of the scan: s[i] replaces m only when its value is smaller. */
  lemma ScanStep(ns: seq<Node>, s: seq<int>, i: int, k: int, m: int)
    requires Scanned(ns, s, i, k, m) && i < |s|
    ensures ns[m].value > ns[s[i]].value ==> Scanned(ns, s, i + 1, i, s[i])
    ensures ns[m].value <= ns[s[i]].value ==> Scanned(ns, s, i + 1, k, m)
  {
  }

  /** At the end of the list the scan has found the first member of least value. */
  lemma ScanDone(ns: seq<Node>, s: seq<int>, k: int, m: int)
    requires Scanned(ns, s, |s|, k, m) && Distinct(s) && s != []
    ensures LeastFirst(ns, s, m)
  {
    forall a, j | 0 <= a < j < |s| && s[j] == m ensures ns[s[a]].value > ns[m].value {
      assert j == k;
    }
  }

  /** A list of distinct indices below n has at most n members. */
  lemma {:induction false} DistinctBound(s: seq<int>, n: nat)
    requires Distinct(s) && forall i :: 0 <= i < |s| ==> 0 <= s[i] < n
    ensures |s| <= n
    decreases |s|
  {
    if s != [] {
      var x, t := s[0], s[1..];
      var t' := seq(|t|, i requires 0 <= i < |t| => if t[i] == n - 1 then x else t[i]);
      assert forall i :: 0 <= i < |t'| ==> 0 <= t'[i] < n - 1 by {
        forall i | 0 <= i < |t'| ensures 0 <= t'[i] < n - 1 {
          assert t[i] == s[i + 1] && t[i] != x;
        }
      }
      assert Distinct(t') by {
        forall i, j | 0 <= i < j < |t'| ensures t'[i] != t'[j] {
          assert t[i] == s[i + 1] && t[j] == s[j + 1];
        }
      }
      DistinctBound(t', n - 1);
    }
  }

  /** A node has no more children than the arena has nodes. */
  lemma KidsBound(ns: seq<Node>, kids: seq<seq<int>>, e: set<int>, n: int)
    requires 0 <= n < |ns| == |kids| && KidsOk(ns, kids, e, n)
    ensures ns[n].degree <= |ns|
  {
    assert Distinct(kids[n]) by {
      forall i, j | 0 <= i < j < |kids[n]| ensures kids[n][i] != kids[n][j] {
        assert ns[kids[n][i]].degree == i && ns[kids[n][j]].degree == j;
      }
    }
    DistinctBound(kids[n], |ns|);
  }

  /** Every element of a heap-ordered forest lies below a root whose value is no larger. */
  lemma {:induction false} RootBelow(ns: seq<Node>, kids: seq<seq<int>>, r: seq<int>, e: set<int>, n: int)
    requires Forest(ns, kids, r, e) && n in e
    ensures exists i :: 0 <= i < |r| && ns[r[i]].value <= ns[n].value
    decreases |ns| - ns[n].degree
  {
    assert Placed(ns, kids, r, e, n);
    var p := ns[n].parent;
    if p == NIL {
      var i :| 0 <= i < |r| && r[i] == n;
    } else {
      assert KidsOk(ns, kids, e, p);
      KidsBound(ns, kids, e, p);
      var j :| 0 <= j < |kids[p]| && kids[p][j] == n;
      RootBelow(ns, kids, r, e, p);
    }
  }

  /** A root whose value is least among the roots is least among all elements. */
  lemma LeastRootIsLeast(ns: seq<Node>, kids: seq<seq<int>>, r: seq<int>, e: set<int>, x: int)
    requires Forest(ns, kids, r, e) && 0 <= x < |ns|
    requires forall i :: 0 <= i < |r| ==> ns[x].value <= ns[r[i]].value
    ensures forall n :: n in e ==> ns[x].value <= ns[n].value
  {
    forall n | n in e ensures ns[x].value <= ns[n].value {
      RootBelow(ns, kids, r, e, n);
    }
  }

  /** The member at position i of s, NIL past the end (a list cursor). */
  function At(s: seq<int>, i: nat): int
  {
    if i < |s| then s[i] else NIL
  }

  /** One step along a chain: the sibling of its i-th member is the next member, or NIL after the last. */
  lemma ChainStep(ns: seq<Node>, first: int, s: seq<int>, i: int)
    requires Chain(ns, first, s) && 0 <= i < |s|
    ensures 0 <= s[i] < |ns| && ns[s[i]].sibling == At(s, i + 1)
  {
    assert ns[s[i]].sibling == Next(s, i);
  }

  /** Two disjoint root lists, each hanging from its first member with strictly increasing degrees. */
  ghost predicate SpliceInput(ns: seq<Node>, r1: seq<int>, r2: seq<int>)
  {
    && r1 != [] && r2 != []
    && Chain(ns, r1[0], r1) && Chain(ns, r2[0], r2)
    && Increasing(ns, r1) && Increasing(ns, r2)
    && (forall i, j :: 0 <= i < |r1| && 0 <= j < |r2| ==> r1[i] != r2[j])
  }

  /** P is linked in order in ns, and only siblings of P differ from ns0. */
  ghost predicate SpliceLinked(ns0: seq<Node>, ns: seq<Node>, P: seq<int>)
  {
    && |P| > 0 && SiblingsOnly(ns0, ns, P) && InRange(ns0, P)
    && (forall k :: 0 <= k < |P| - 1 ==> ns[P[k]].sibling == Next(P, k))
  }

  /** P holds, without repeats, the first i1 roots of r1 and the first i2 of r2, and ends with one of the two last taken. */
  ghost predicate SpliceMembers(r1: seq<int>, r2: seq<int>, i1: nat, i2: nat, P: seq<int>)
  {
    && i1 <= |r1| && i2 <= |r2| && |P| == i1 + i2 > 0
    && ((i1 > 0 && P[|P| - 1] == r1[i1 - 1]) || (i2 > 0 && P[|P| - 1] == r2[i2 - 1]))
    && (forall x :: x in P <==> x in r1[..i1] || x in r2[..i2])
    && Distinct(P)
  }

  /**
   * Degrees never fall along P, both cursors are at degrees no smaller than
   * the tail's, and a degree that occurs twice at the end of P is below both cursors.
   */
  ghost predicate SpliceOrder(ns0: seq<Node>, r1: seq<int>, r2: seq<int>, i1: nat, i2: nat, P: seq<int>)
  {
    && InRange(ns0, r1) && InRange(ns0, r2) && InRange(ns0, P) && |P| > 0
    && Sorted2(ns0, P)
    && (i1 < |r1| ==> ns0[P[|P| - 1]].degree <= ns0[r1[i1]].degree)
    && (i2 < |r2| ==> ns0[P[|P| - 1]].degree <= ns0[r2[i2]].degree)
    && (|P| >= 2 && ns0[P[|P| - 2]].degree == ns0[P[|P| - 1]].degree ==>
          (i1 < |r1| ==> ns0[P[|P| - 1]].degree < ns0[r1[i1]].degree) &&
          (i2 < |r2| ==> ns0[P[|P| - 1]].degree < ns0[r2[i2]].degree))
  }

  /** The splice loop of merge after taking i1 roots of r1 and i2 roots of r2 into P (arena ns0 before the loop). */
  ghost predicate SpliceInv(ns0: seq<Node>, ns: seq<Node>, r1: seq<int>, r2: seq<int>, i1: nat, i2: nat, P: seq<int>)
  {
    && SpliceInput(ns0, r1, r2)
    && SpliceLinked(ns0, ns, P)
    && SpliceMembers(r1, r2, i1, i2, P)
    && SpliceOrder(ns0, r1, r2, i1, i2, P)
  }

  lemma SpliceSymmetric(ns0: seq<Node>, ns: seq<Node>, r1: seq<int>, r2: seq<int>, i1: nat, i2: nat, P: seq<int>)
    requires SpliceInv(ns0, ns, r1, r2, i1, i2, P)
    ensures SpliceInv(ns0, ns, r2, r1, i2, i1, P)
  {
  }

  /** The splice starts with the head of smaller or equal degree. */
  lemma SpliceStart(ns0: seq<Node>, r1: seq<int>, r2: seq<int>)
    requires SpliceInput(ns0, r1, r2) && ns0[r1[0]].degree <= ns0[r2[0]].degree
    ensures SpliceInv(ns0, ns0, r1, r2, 1, 0, [r1[0]])
    ensures ns0[r1[0]].sibling == At(r1, 1)
  {
    assert r1[..1] == [r1[0]];
  }

  /** Members of the taken prefix of a strictly increasing list lie below its cursor. */
  lemma PrefixBelow(ns: seq<Node>, r: seq<int>, i: nat)
    requires Increasing(ns, r) && i < |r|
    ensures forall y :: y in r[..i] ==> ns[y].degree < ns[r[i]].degree
  {
    forall y | y in r[..i] ensures ns[y].degree < ns[r[i]].degree {
      var k :| 0 <= k < i && r[..i][k] == y;
    }
  }

  lemma TakeLinked(ns0: seq<Node>, ns: seq<Node>, P: seq<int>, x: int)
    requires SpliceLinked(ns0, ns, P) && Distinct(P) && 0 <= x < |ns0| && x !in P
    ensures 0 <= P[|P| - 1] < |ns|
    ensures SpliceLinked(ns0, SetSibling(ns, P[|P| - 1], x), P + [x])
    ensures SetSibling(ns, P[|P| - 1], x)[x].sibling == ns0[x].sibling
  {
    var ns' := SetSibling(ns, P[|P| - 1], x);
    var P' := P + [x];
    forall k | 0 <= k < |P'| - 1 ensures ns'[P'[k]].sibling == Next(P', k) {
      if k < |P| - 1 {
        assert P'[k] == P[k] && P'[k + 1] == P[k + 1] && P[k] != P[|P| - 1];
      }
    }
  }

  lemma AppendDistinct(P: seq<int>, x: int)
    requires Distinct(P) && x !in P
    ensures Distinct(P + [x])
  {
    var P' := P + [x];
    forall i, j | 0 <= i < j < |P'| ensures P'[i] != P'[j] {
      assert P'[i] == P[i];
      if j < |P| {
        assert P'[j] == P[j];
      }
    }
  }

  lemma TakeMembers(ns0: seq<Node>, r1: seq<int>, r2: seq<int>, i1: nat, i2: nat, P: seq<int>)
    requires Increasing(ns0, r1) && SpliceMembers(r1, r2, i1, i2, P) && i1 < |r1|
    requires forall i, j :: 0 <= i < |r1| && 0 <= j < |r2| ==> r1[i] != r2[j]
    ensures r1[i1] !in P
    ensures SpliceMembers(r1, r2, i1 + 1, i2, P + [r1[i1]])
  {
    var x := r1[i1];
    var P' := P + [x];
    PrefixBelow(ns0, r1, i1);
    assert x !in r1[..i1];
    assert x !in r2[..i2] by {
      forall k | 0 <= k < i2 ensures r2[..i2][k] != x {
        assert r2[..i2][k] == r2[k];
      }
    }
    assert x !in P;
    AppendDistinct(P, x);
    assert r1[..i1 + 1] == r1[..i1] + [x];
    assert forall y :: y in P' <==> y in P || y == x;
    assert P'[|P'| - 1] == x;
  }

  /** Appending a degree no smaller than the tail's, and larger than the one before it, keeps Sorted2. */
  lemma AppendSorted2(ns: seq<Node>, P: seq<int>, x: int)
    requires Sorted2(ns, P) && P != [] && 0 <= x < |ns|
    requires ns[P[|P| - 1]].degree <= ns[x].degree
    requires |P| >= 2 ==> ns[P[|P| - 2]].degree < ns[x].degree
    ensures Sorted2(ns, P + [x])
  {
    var P' := P + [x];
    forall i, j | 0 <= i < j < |P'| ensures ns[P'[i]].degree <= ns[P'[j]].degree {
      assert P'[i] == P[i];
      if j < |P| {
        assert P'[j] == P[j];
      } else {
        assert ns[P[i]].degree <= ns[P[|P| - 1]].degree;
      }
    }
    forall i, j | 0 <= i && i + 2 <= j < |P'| ensures ns[P'[i]].degree < ns[P'[j]].degree {
      assert P'[i] == P[i];
      if j < |P| {
        assert P'[j] == P[j];
      } else {
        assert ns[P[i]].degree <= ns[P[|P| - 2]].degree;
      }
    }
  }

  lemma TakeOrder(ns0: seq<Node>, r1: seq<int>, r2: seq<int>, i1: nat, i2: nat, P: seq<int>)
    requires SpliceInput(ns0, r1, r2) && SpliceMembers(r1, r2, i1, i2, P) && SpliceOrder(ns0, r1, r2, i1, i2, P)
    requires i1 < |r1| && i2 < |r2| && ns0[r1[i1]].degree <= ns0[r2[i2]].degree
    ensures SpliceOrder(ns0, r1, r2, i1 + 1, i2, P + [r1[i1]])
  {
    var x := r1[i1];
    var tail := P[|P| - 1];
    var d := ns0[x].degree;
    assert i1 + 1 < |r1| ==> d < ns0[r1[i1 + 1]].degree;
    if i1 > 0 && tail == r1[i1 - 1] {
      assert ns0[tail].degree < d;
    } else {
      assert ns0[tail].degree < ns0[r2[i2]].degree;
    }
    AppendSorted2(ns0, P, x);
    assert (P + [x])[|P|] == x && (P + [x])[|P| - 1] == tail;
  }

  /** One splice step: the cursor into r1 is appended to P. */
  lemma SpliceTake(ns0: seq<Node>, ns: seq<Node>, r1: seq<int>, r2: seq<int>, i1: nat, i2: nat, P: seq<int>)
    requires SpliceInv(ns0, ns, r1, r2, i1, i2, P)
    requires i1 < |r1| && i2 < |r2| && ns[r1[i1]].degree <= ns[r2[i2]].degree
    ensures 0 <= P[|P| - 1] < |ns|
    ensures SpliceInv(ns0, SetSibling(ns, P[|P| - 1], r1[i1]), r1, r2, i1 + 1, i2, P + [r1[i1]])
    ensures SetSibling(ns, P[|P| - 1], r1[i1])[r1[i1]].sibling == At(r1, i1 + 1)
  {
    assert ns[r1[i1]].degree == ns0[r1[i1]].degree && ns[r2[i2]].degree == ns0[r2[i2]].degree;
    TakeMembers(ns0, r1, r2, i1, i2, P);
    TakeLinked(ns0, ns, P, r1[i1]);
    TakeOrder(ns0, r1, r2, i1, i2, P);
  }

  lemma EndMembers(r1: seq<int>, r2: seq<int>, i1: nat, i2: nat, P: seq<int>)
    requires SpliceMembers(r1, r2, i1, i2, P) && i1 == |r1|
    requires forall i, j :: 0 <= i < |r1| && 0 <= j < |r2| ==> r1[i] != r2[j]
    requires Distinct(r2)
    ensures Distinct(P + r2[i2..])
    ensures forall x :: x in P + r2[i2..] <==> x in r1 || x in r2
  {
    var l := P + r2[i2..];
    assert r1[..i1] == r1;
    assert r2 == r2[..i2] + r2[i2..];
    forall i, j | 0 <= i < j < |l| ensures l[i] != l[j] {
      if j >= |P| && i < |P| {
        assert l[j] == r2[i2 + j - |P|];
        if l[i] in r2[..i2] {
          var k :| 0 <= k < i2 && r2[..i2][k] == l[i];
        } else {
          var k :| 0 <= k < |r1| && r1[k] == l[i];
        }
      } else if i >= |P| {
        assert l[i] == r2[i2 + i - |P|] && l[j] == r2[i2 + j - |P|];
      }
    }
  }

  lemma DistinctHalves(P: seq<int>, R: seq<int>)
    requires Distinct(P + R)
    ensures forall i, j :: 0 <= i < |P| && 0 <= j < |R| ==> P[i] != R[j]
    ensures Distinct(P) && Distinct(R)
  {
    var l := P + R;
    forall i, j | 0 <= i < |P| && 0 <= j < |R| ensures P[i] != R[j] {
      assert l[i] == P[i] && l[|P| + j] == R[j];
    }
    forall i, j | 0 <= i < j < |P| ensures P[i] != P[j] {
      assert l[i] == P[i] && l[j] == P[j];
    }
    forall i, j | 0 <= i < j < |R| ensures R[i] != R[j] {
      assert l[|P| + i] == R[i] && l[|P| + j] == R[j];
    }
  }

  lemma EndChainPrefix(ns: seq<Node>, ns': seq<Node>, P: seq<int>, R: seq<int>)
    requires |ns| == |ns'| && InRange(ns, P) && Distinct(P) && P != []
    requires forall k :: 0 <= k < |P| - 1 ==> ns[P[k]].sibling == Next(P, k)
    requires forall n :: 0 <= n < |ns| && n != P[|P| - 1] ==> ns'[n] == ns[n]
    ensures forall k :: 0 <= k < |P| - 1 ==> ns'[(P + R)[k]].sibling == Next(P + R, k)
  {
    forall k | 0 <= k < |P| - 1 ensures ns'[(P + R)[k]].sibling == Next(P + R, k) {
      assert (P + R)[k] == P[k] && (P + R)[k + 1] == P[k + 1];
      assert ns[P[k]].sibling == Next(P, k);
    }
  }

  lemma EndChainRest(ns0: seq<Node>, ns': seq<Node>, P: seq<int>, r2: seq<int>, i2: nat)
    requires |ns0| == |ns'| && i2 <= |r2| && InRange(ns0, r2)
    requires forall k :: 0 <= k < |r2| ==> ns0[r2[k]].sibling == Next(r2, k)
    requires forall k :: i2 <= k < |r2| ==> ns'[r2[k]].sibling == ns0[r2[k]].sibling
    ensures forall k :: |P| <= k < |P + r2[i2..]| ==> ns'[(P + r2[i2..])[k]].sibling == Next(P + r2[i2..], k)
  {
    var l := P + r2[i2..];
    forall k | |P| <= k < |l| ensures ns'[l[k]].sibling == Next(l, k) {
      var j := i2 + k - |P|;
      assert l[k] == r2[j];
      assert Next(l, k) == Next(r2, j);
    }
  }

  lemma EndChain(ns0: seq<Node>, ns: seq<Node>, r2: seq<int>, i2: nat, P: seq<int>)
    requires SpliceLinked(ns0, ns, P) && r2 != [] && Chain(ns0, r2[0], r2) && i2 <= |r2|
    requires Distinct(P + r2[i2..])
    ensures 0 <= P[|P| - 1] < |ns|
    ensures Chain(SetSibling(ns, P[|P| - 1], At(r2, i2)), P[0], P + r2[i2..])
  {
    var tail := P[|P| - 1];
    var ns' := SetSibling(ns, tail, At(r2, i2));
    var R := r2[i2..];
    var l := P + R;
    DistinctHalves(P, R);
    EndChainPrefix(ns, ns', P, R);
    forall k | i2 <= k < |r2| ensures ns'[r2[k]].sibling == ns0[r2[k]].sibling {
      assert R[k - i2] == r2[k];
      assert r2[k] !in P;
    }
    EndChainRest(ns0, ns', P, r2, i2);
    forall k | 0 <= k < |l| ensures 0 <= l[k] < |ns'| && ns'[l[k]].sibling == Next(l, k) {
      if k < |P| - 1 {
      } else if k == |P| - 1 {
        assert l[k] == tail;
      } else {
      }
    }
  }

  lemma EndSiblingsOnly(ns0: seq<Node>, ns: seq<Node>, r2: seq<int>, i2: nat, P: seq<int>)
    requires SpliceLinked(ns0, ns, P) && i2 <= |r2|
    ensures 0 <= P[|P| - 1] < |ns|
    ensures SiblingsOnly(ns0, SetSibling(ns, P[|P| - 1], At(r2, i2)), P + r2[i2..])
  {
    var tail := P[|P| - 1];
    var ns' := SetSibling(ns, tail, At(r2, i2));
    var l := P + r2[i2..];
    forall n | 0 <= n < |ns0|
      ensures ns'[n] == ns0[n].(sibling := ns'[n].sibling)
      ensures n !in l ==> ns'[n].sibling == ns0[n].sibling
    {
      if n !in l {
        assert n !in P && n != tail;
      }
    }
  }

  lemma EndLinked(ns0: seq<Node>, ns: seq<Node>, r2: seq<int>, i2: nat, P: seq<int>)
    requires SpliceLinked(ns0, ns, P) && r2 != [] && Chain(ns0, r2[0], r2) && i2 <= |r2|
    requires Distinct(P + r2[i2..])
    ensures 0 <= P[|P| - 1] < |ns|
    ensures SiblingsOnly(ns0, SetSibling(ns, P[|P| - 1], At(r2, i2)), P + r2[i2..])
    ensures Chain(SetSibling(ns, P[|P| - 1], At(r2, i2)), P[0], P + r2[i2..])
  {
    EndChain(ns0, ns, r2, i2, P);
    EndSiblingsOnly(ns0, ns, r2, i2, P);
  }

  lemma EndOrder(ns0: seq<Node>, r1: seq<int>, r2: seq<int>, i1: nat, i2: nat, P: seq<int>)
    requires SpliceOrder(ns0, r1, r2, i1, i2, P) && Increasing(ns0, r2) && i2 <= |r2|
    ensures Sorted2(ns0, P + r2[i2..])
  {
    var l := P + r2[i2..];
    var tail := P[|P| - 1];
    forall i, j | 0 <= i < j < |l| ensures ns0[l[i]].degree <= ns0[l[j]].degree {
      if j < |P| {
        assert l[i] == P[i] && l[j] == P[j];
      } else if i < |P| {
        assert l[i] == P[i] && l[j] == r2[i2 + j - |P|];
        assert ns0[P[i]].degree <= ns0[tail].degree;
        assert ns0[r2[i2]].degree <= ns0[r2[i2 + j - |P|]].degree;
      } else {
        assert l[i] == r2[i2 + i - |P|] && l[j] == r2[i2 + j - |P|];
      }
    }
    forall i, j | 0 <= i && i + 2 <= j < |l| ensures ns0[l[i]].degree < ns0[l[j]].degree {
      if j < |P| {
        assert l[i] == P[i] && l[j] == P[j];
      } else if i < |P| {
        var d := ns0[r2[i2]].degree;
        assert l[i] == P[i] && l[j] == r2[i2 + j - |P|];
        assert d <= ns0[r2[i2 + j - |P|]].degree;
        if i == |P| - 1 {
          assert d < ns0[r2[i2 + j - |P|]].degree;
        } else {
          assert ns0[P[i]].degree <= ns0[P[|P| - 2]].degree;
        }
      } else {
        assert l[i] == r2[i2 + i - |P|] && l[j] == r2[i2 + j - |P|];
      }
    }
  }

  /**
   * The splice ends when r1 is exhausted: the tail is linked to the rest of
   * r2 and the whole list hangs from P[0].
   */
  lemma SpliceEnd(ns0: seq<Node>, ns: seq<Node>, r1: seq<int>, r2: seq<int>, i1: nat, i2: nat, P: seq<int>, ns': seq<Node>, l: seq<int>)
    requires SpliceInv(ns0, ns, r1, r2, i1, i2, P) && i1 == |r1|
    requires 0 <= P[|P| - 1] < |ns| && ns' == SetSibling(ns, P[|P| - 1], At(r2, i2)) && l == P + r2[i2..]
    ensures SiblingsOnly(ns0, ns', l) && Chain(ns', P[0], l) && Distinct(l) && Sorted2(ns', l)
    ensures forall x :: x in l <==> x in r1 || x in r2
  {
    assert Distinct(r2);
    EndMembers(r1, r2, i1, i2, P);
    EndLinked(ns0, ns, r2, i2, P);
    EndOrder(ns0, r1, r2, i1, i2, P);
    Sorted2SameDegrees(ns0, ns', l);
  }

  /** SpliceTake with the roles of the lists exchanged: the cursor into r2 is appended. */
  lemma SpliceTakeOther(ns0: seq<Node>, ns: seq<Node>, r1: seq<int>, r2: seq<int>, i1: nat, i2: nat, P: seq<int>)
    requires SpliceInv(ns0, ns, r1, r2, i1, i2, P)
    requires i1 < |r1| && i2 < |r2| && ns[r2[i2]].degree <= ns[r1[i1]].degree
    ensures 0 <= P[|P| - 1] < |ns|
    ensures SpliceInv(ns0, SetSibling(ns, P[|P| - 1], r2[i2]), r1, r2, i1, i2 + 1, P + [r2[i2]])
    ensures SetSibling(ns, P[|P| - 1], r2[i2])[r2[i2]].sibling == At(r2, i2 + 1)
  {
    SpliceSymmetric(ns0, ns, r1, r2, i1, i2, P);
    SpliceTake(ns0, ns, r2, r1, i2, i1, P);
    SpliceSymmetric(ns0, SetSibling(ns, P[|P| - 1], r2[i2]), r2, r1, i2 + 1, i1, P + [r2[i2]]);
  }

  /** SpliceStart with the head of r2 taken first. */
  lemma SpliceStartOther(ns0: seq<Node>, r1: seq<int>, r2: seq<int>)
    requires SpliceInput(ns0, r1, r2) && ns0[r2[0]].degree <= ns0[r1[0]].degree
    ensures SpliceInv(ns0, ns0, r1, r2, 0, 1, [r2[0]])
    ensures ns0[r2[0]].sibling == At(r2, 1)
  {
    SpliceStart(ns0, r2, r1);
    SpliceSymmetric(ns0, ns0, r2, r1, 1, 0, [r2[0]]);
  }

  /** SpliceEnd when r2 is exhausted first. */
  lemma SpliceEndOther(ns0: seq<Node>, ns: seq<Node>, r1: seq<int>, r2: seq<int>, i1: nat, i2: nat, P: seq<int>, ns': seq<Node>, l: seq<int>)
    requires SpliceInv(ns0, ns, r1, r2, i1, i2, P) && i2 == |r2|
    requires 0 <= P[|P| - 1] < |ns| && ns' == SetSibling(ns, P[|P| - 1], At(r1, i1)) && l == P + r1[i1..]
    ensures SiblingsOnly(ns0, ns', l) && Chain(ns', P[0], l) && Distinct(l) && Sorted2(ns', l)
    ensures forall x :: x in l <==> x in r1 || x in r2
  {
    SpliceSymmetric(ns0, ns, r1, r2, i1, i2, P);
    SpliceEnd(ns0, ns, r2, r1, i2, i1, P, ns', l);
  }

  /** One splice step: the cursor of smaller or equal degree (r1's on a tie) is appended to P. */
  lemma SpliceStep(ns0: seq<Node>, ns: seq<Node>, r1: seq<int>, r2: seq<int>, i1: nat, i2: nat, P: seq<int>, first: bool)
    requires SpliceInv(ns0, ns, r1, r2, i1, i2, P) && i1 < |r1| && i2 < |r2|
    requires first <==> ns[r1[i1]].degree <= ns[r2[i2]].degree
    ensures 0 <= P[|P| - 1] < |ns|
    ensures first ==>
      && SpliceInv(ns0, SetSibling(ns, P[|P| - 1], r1[i1]), r1, r2, i1 + 1, i2, P + [r1[i1]])
      && SetSibling(ns, P[|P| - 1], r1[i1])[r1[i1]].sibling == At(r1, i1 + 1)
    ensures !first ==>
      && SpliceInv(ns0, SetSibling(ns, P[|P| - 1], r2[i2]), r1, r2, i1, i2 + 1, P + [r2[i2]])
      && SetSibling(ns, P[|P| - 1], r2[i2])[r2[i2]].sibling == At(r2, i2 + 1)
  {
    if first {
      SpliceTake(ns0, ns, r1, r2, i1, i2, P);
    } else {
      SpliceTakeOther(ns0, ns, r1, r2, i1, i2, P);
    }
  }

  /** One step of the splice, stated on the values the loop computes. */
  lemma SpliceAdvance(ns0: seq<Node>, ns: seq<Node>, r1: seq<int>, r2: seq<int>, i1: nat, i2: nat, P: seq<int>,
                      take1: bool, ns': seq<Node>, j1: nat, j2: nat, P': seq<int>)
    requires SpliceInv(ns0, ns, r1, r2, i1, i2, P) && i1 < |r1| && i2 < |r2|
    requires take1 <==> ns[r1[i1]].degree <= ns[r2[i2]].degree
    requires j1 == (if take1 then i1 + 1 else i1) && j2 == (if take1 then i2 else i2 + 1)
    requires P' == P + [if take1 then r1[i1] else r2[i2]]
    requires 0 <= P[|P| - 1] < |ns| && ns' == SetSibling(ns, P[|P| - 1], P'[|P'| - 1])
    ensures SpliceInv(ns0, ns', r1, r2, j1, j2, P')
    ensures 0 <= P'[|P'| - 1] < |ns'|
    ensures ns'[P'[|P'| - 1]].sibling == if take1 then At(r1, j1) else At(r2, j2)
  {
    SpliceStep(ns0, ns, r1, r2, i1, i2, P, take1);
  }

  /** The end of the splice: the tail is linked to what is left of the list not yet exhausted. */
  lemma SpliceFinish(ns0: seq<Node>, ns: seq<Node>, r1: seq<int>, r2: seq<int>, i1: nat, i2: nat, P: seq<int>, ns': seq<Node>, l: seq<int>)
    requires SpliceInv(ns0, ns, r1, r2, i1, i2, P) && (i1 == |r1| || i2 == |r2|)
    requires 0 <= P[|P| - 1] < |ns|
    requires ns' == SetSibling(ns, P[|P| - 1], if i1 == |r1| then At(r2, i2) else At(r1, i1))
    requires l == if i1 == |r1| then P + r2[i2..] else P + r1[i1..]
    ensures SiblingsOnly(ns0, ns', l) && Chain(ns', P[0], l) && Distinct(l) && Sorted2(ns', l)
    ensures forall x :: x in l <==> x in r1 || x in r2
  {
    if i1 == |r1| {
      SpliceEnd(ns0, ns, r1, r2, i1, i2, P, ns', l);
    } else {
      SpliceEndOther(ns0, ns, r1, r2, i1, i2, P, ns', l);
    }
  }
}
