/**
 * The operations of a Fibonacci heap (FibonacciHeap.cpp) on the node
 * records: the steps of insert, extractMin and merge that relink nodes,
 * each with the heap invariant it keeps.
 */
module FibonacciOps {
  import opened FibonacciRing
  import opened FibonacciForest
  import opened FibonacciLists
  import opened FibonacciConsolidate
  import opened FibonacciCut

  /** A record as insert allocates it (FibonacciHeap.cpp:60-62): a ring of its own, with no parent, child or degree. */
  ghost predicate Fresh(ns: seq<Node>, kids: seq<seq<int>>, n: int)
  {
    0 <= n < |ns| == |kids| && ns[n] == Node(ns[n].key, NIL, NIL, n, n, 0, false, false) && kids[n] == []
  }

  /**
   * insert (FibonacciHeap.cpp:63-74) once the node is allocated: an empty
   * heap takes the node as its list; otherwise the list constructor makes
   * the node a heap of its own, merge splices it into the root ring, and the
   * list moves to the node when its key is smaller.
   */
  method AddRoot(ns0: seq<Node>, ghost kids: seq<seq<int>>, list0: int, ghost R0: seq<int>, ghost e: set<int>, n: int)
    returns (ns: seq<Node>, list: int, ghost R: seq<int>)
    requires Arena(ns0) && HeapOk(ns0, kids, list0, R0, e) && Fresh(ns0, kids, n) && n !in e
    ensures Arena(ns) && HeapOk(ns, kids, list, R, e + {n}) && Members(R) == Members(R0) + {n}
    ensures Relinked(ns0, ns, Members(R0) + {n})
    ensures list == if list0 == NIL || ns0[n].key < ns0[list0].key then n else list0
    ensures list0 == NIL || Least(ns0, list0, e) ==> Least(ns, list, e + {n})
  {
    SingleTop(ns0, kids, n);
    Single(ns0, n);
    if list0 == NIL {
      assert e + {n} == {n} && Members([n]) == {n};
      return ns0, n, [n];
    }
    ForestUnion(ns0, kids, Members(R0), e, {n}, {n});
    ns := ListConstructor(ns0, n, [n]);
    DetachedNone(ns0);
    var ok;
    ns, list, ok, R := MergeSingle(ns, list0, n, R0);
    RelinkedTops(ns0, ns, Members(R0) + {n}, Members(R0) + {n}, e + {n});
    ForestFrame(ns0, ns, kids, Members(R0) + {n}, e + {n});
    RelinkedKeys(ns0, ns, Members(R0) + {n});
    if Least(ns0, list0, e) {
      LeastMerged(ns0, ns, list0, n, list, e, {n});
    }
    if ns[n].key < ns[list].key {
      list := n;
    }
  }

  /**
   * The first step of extractMin (FibonacciHeap.cpp:82-86): the list
   * constructor makes a heap of the minimum's child ring, merge splices it
   * into the root ring after the minimum, and the minimum's `child` is
   * cleared. The list stays at the minimum, whose key no child undercuts.
   * The minimum's ring is a ring of one exactly when it was the only element.
   */
  method AdoptChildren(ns0: seq<Node>, ghost kids: seq<seq<int>>, list0: int, ghost R0: seq<int>, ghost e: set<int>)
    returns (ns: seq<Node>, ghost R: seq<int>)
    requires Arena(ns0) && HeapOk(ns0, kids, list0, R0, e) && list0 != NIL
    ensures Arena(ns) && Ring(ns, R) && R[0] == list0 && Members(R) == Members(R0) + Members(kids[list0])
    ensures Members(R) <= e && Forest(ns, kids, Members(R) - {list0}, e - {list0}) && Live(ns, e)
    ensures ns[list0].child == NIL && SameKeys(ns0, ns) && Untouched(ns0, ns, kids, kids, e)
    ensures |R| == 1 <==> e == {list0}
    ensures e == {list0} ==> ns == ns0
  {
    var min := list0;
    assert R0[0] in Members(R0);
    DropTop(ns0, kids, Members(R0), e, min);
    KidsNotTops(ns0, kids, Members(R0), e, min);
    assert KidsOk(ns0, kids, e, min);
    ghost var T, e' := Members(R0) - {min} + Members(kids[min]), e - {min};
    ns, R := ns0, R0;
    if ns0[min].child != NIL {
      ns, R := SpliceChildren(ns0, kids, min, R0, T, e');
      assert Members(R) - {min} == T;
    } else {
      assert Members(R) - {min} == T;
    }
    if |R| == 1 {
      assert Members(R) - {min} == {};
      NoTops(ns, kids, e');
    } else {
      assert R[1] in Members(R) && R[1] != R[0];
    }
  }

  /**
   * The child ring of the minimum min spliced into the root ring after min
   * (FibonacciHeap.cpp:83-85), as AdoptChildren uses it when min has
   * children: the forest over the other elements is kept, with min's
   * children among its tops.
   */
  method SpliceChildren(ns0: seq<Node>, ghost kids: seq<seq<int>>, min: int, ghost R0: seq<int>, ghost T: set<int>, ghost e': set<int>)
    returns (ns: seq<Node>, ghost R: seq<int>)
    requires Arena(ns0) && Ring(ns0, R0) && R0[0] == min && |kids| == |ns0|
    requires kids[min] != [] && Ring(ns0, kids[min]) && ns0[min].child == kids[min][0]
    requires ns0[min].key <= ns0[kids[min][0]].key && Members(R0) !! Members(kids[min])
    requires Forest(ns0, kids, T, e') && Members(kids[min]) <= T && min !in e' && Members(R0) - {min} <= T
    ensures Arena(ns) && Ring(ns, R) && R[0] == min && Members(R) == Members(R0) + Members(kids[min])
    ensures Forest(ns, kids, T, e') && ns[min].child == NIL
    ensures SameKeys(ns0, ns)
    ensures forall n :: 0 <= n < |ns0| && n !in Members(R0) + Members(kids[min]) ==> ns[n] == ns0[n]
  {
    ghost var K := kids[min];
    var child := ns0[min].child;
    ns := ListConstructor(ns0, child, K);
    DetachedFrame(ns0, kids, K[..|K| - 1], T, e');
    RingParents(ns0, ns, R0);
    RingParents(ns0, ns, K);
    ParentsKeys(ns0, ns);
    ghost var ns1 := ns;
    assert ns1[child].key == ns0[child].key && ns1[min] == ns0[min];
    var l;
    ns, l, R := MergeLists(ns, min, child, R0, K);
    RelinkedTops(ns1, ns, Members(R0) + Members(K), T, e');
    ForestFrame(ns1, ns, kids, T, e');
    RelinkedKeys(ns1, ns, Members(R0) + Members(K));
    ghost var ns2 := ns;
    assert Pointers(ns, ns[min]);
    WriteArena(ns, min, ns[min].(child := NIL));
    ns := ns[min := ns[min].(child := NIL)];
    ForestFrame(ns2, ns, kids, T, e');
    RingFrame(ns2, ns, R);
  }

  /** A ring's first member is its own left neighbour exactly when the ring has one member. */
  lemma LoneRing(ns: seq<Node>, R: seq<int>)
    requires Ring(ns, R)
    ensures ns[R[0]].left == R[0] <==> |R| == 1
  {
    assert RingAt(ns, R, 0);
  }

  /**
   * extractMin on more than one root (FibonacciHeap.cpp:90-95): the minimum
   * x leaves the root ring, the list moves to its right neighbour, and x
   * loses its links and is marked deleted.
   */
  method RemoveRoot(ns0: seq<Node>, ghost R: seq<int>, x: int) returns (ns: seq<Node>, list: int)
    requires Arena(ns0) && Ring(ns0, R) && R[0] == x && |R| >= 2
    ensures Arena(ns) && Ring(ns, R[1..]) && list == R[1] && Members(R[1..]) == Members(R) - {x}
    ensures |ns| == |ns0| && ns[x] == ns0[x].(left := NIL, right := NIL, deleted := true)
    ensures Relinked(ns0[x := ns0[x].(deleted := true)], ns, Members(R))
  {
    assert RingAt(ns0, R, 0);
    ns := Unlink(ns0, x, R);
    list := ns[x].right;
    assert Pointers(ns, ns[x]);
    WriteArena(ns, x, ns[x].(left := NIL, right := NIL, deleted := true));
    ghost var ns1 := ns;
    ns := ns[x := ns[x].(left := NIL, right := NIL, deleted := true)];
    assert x !in R[1..];
    RingFrame(ns1, ns, R[1..]);
  }

  /**
   * RemoveRoot on the ring R of the minimum and its children, as extractMin
   * uses it: the rest of R is the root ring of a forest over the other
   * elements, all still live.
   */
  method DropMin(ns0: seq<Node>, ghost kids: seq<seq<int>>, ghost R: seq<int>, ghost e: set<int>, x: int) returns (ns: seq<Node>, list: int)
    requires Arena(ns0) && Ring(ns0, R) && |R| >= 2 && R[0] == x && x in e && Members(R) <= e
    requires Forest(ns0, kids, Members(R) - {x}, e - {x}) && Live(ns0, e)
    ensures Arena(ns) && Ring(ns, R[1..]) && list == R[1]
    ensures Forest(ns, kids, Members(R[1..]), e - {x}) && Live(ns, e - {x})
    ensures Untouched(ns0, ns, kids, kids, e) && ns[x].deleted && ns[x].key == ns0[x].key
    ensures forall n :: 0 <= n < |ns0| && n != x ==> ns[n].key == ns0[n].key && ns[n].deleted == ns0[n].deleted
  {
    ghost var e', T := e - {x}, Members(R) - {x};
    ghost var nsD := ns0[x := ns0[x].(deleted := true)];
    ns, list := RemoveRoot(ns0, R, x);
    ForestFrame(ns0, nsD, kids, T, e');
    RelinkedTops(nsD, ns, Members(R), T, e');
    ForestFrame(nsD, ns, kids, T, e');
    RelinkedKeys(nsD, ns, Members(R));
  }

  /** Outside e, nothing changes over two steps that each change nothing outside e. */
  lemma UntouchedTrans(ns0: seq<Node>, ns1: seq<Node>, ns2: seq<Node>, kids0: seq<seq<int>>, kids1: seq<seq<int>>, kids2: seq<seq<int>>, e1: set<int>, e2: set<int>)
    requires Untouched(ns0, ns1, kids0, kids1, e1) && Untouched(ns1, ns2, kids1, kids2, e2) && e2 <= e1
    ensures Untouched(ns0, ns2, kids0, kids2, e1)
  {
  }

  /**
   * extractMin on a non-empty heap (FibonacciHeap.cpp:81-99): the minimum's
   * children join the root ring; then either the minimum was the only
   * element and the heap becomes empty, or the minimum leaves the ring, is
   * marked deleted, and consolidate links the remaining roots. ok is false
   * only when consolidate meets a degree past its table, which cannot
   * happen with at most MERGE_ARRAY_SIZE + 1 elements.
   */
  method TakeMin(ns0: seq<Node>, ghost kids0: seq<seq<int>>, list0: int, ghost R0: seq<int>, ghost e: set<int>)
    returns (ns: seq<Node>, ghost kids: seq<seq<int>>, list: int, ghost R: seq<int>, ok: bool)
    requires Arena(ns0) && HeapOk(ns0, kids0, list0, R0, e) && list0 != NIL
    ensures Arena(ns) && Untouched(ns0, ns, kids0, kids, e)
    ensures ok ==> HeapOk(ns, kids, list, R, e - {list0})
    ensures ok && list != NIL ==> Least(ns, list, e - {list0})
    ensures ok ==> forall x, y :: x in Members(R) && y in Members(R) && ns[x].degree == ns[y].degree ==> x == y
    ensures |e| <= MERGE_ARRAY_SIZE + 1 ==> ok
    ensures e == {list0} ==> ok && ns == ns0 && list == NIL
    ensures e != {list0} ==> ns[list0].deleted
    ensures forall n :: 0 <= n < |ns0| && n != list0 ==> ns[n].key == ns0[n].key && ns[n].deleted == ns0[n].deleted
    ensures ns[list0].key == ns0[list0].key
  {
    ghost var R1;
    ns, R1 := AdoptChildren(ns0, kids0, list0, R0, e);
    kids := kids0;
    LoneRing(ns, R1);
    if ns[list0].left == list0 {
      return ns, kids, NIL, [], true;
    }
    ghost var e' := e - {list0};
    ghost var ns1 := ns;
    ns, list := DropMin(ns, kids, R1, e, list0);
    UntouchedTrans(ns0, ns1, ns, kids0, kids, kids, e, e);
    assert e == e' + {list0};
    ghost var ns2, kids2 := ns, kids;
    ns, kids, list, R, ok := Consolidate(ns, kids, list, R1[1..], e');
    UntouchedTrans(ns0, ns2, ns, kids0, kids2, kids, e, e');
  }

  /**
   * merge (FibonacciHeap.cpp:138-142) of two non-empty heaps over disjoint
   * elements: the root rings are spliced into one ring over both element
   * sets, whose list is the smaller of the two lists' keys.
   */
  method JoinHeaps(ns0: seq<Node>, ghost kids: seq<seq<int>>, l1: int, ghost R1: seq<int>, ghost e1: set<int>, l2: int, ghost R2: seq<int>, ghost e2: set<int>)
    returns (ns: seq<Node>, list: int, ghost R: seq<int>)
    requires Arena(ns0) && HeapOk(ns0, kids, l1, R1, e1) && HeapOk(ns0, kids, l2, R2, e2) && e1 !! e2
    requires l1 != NIL && l2 != NIL
    ensures Arena(ns) && HeapOk(ns, kids, list, R, e1 + e2) && Members(R) == Members(R1) + Members(R2)
    ensures Relinked(ns0, ns, Members(R1) + Members(R2))
    ensures list == if ns0[l2].key < ns0[l1].key then l2 else l1
    ensures Least(ns0, l1, e1) && Least(ns0, l2, e2) ==> Least(ns, list, e1 + e2)
  {
    ForestUnion(ns0, kids, Members(R1), e1, Members(R2), e2);
    ns, list, R := MergeLists(ns0, l1, l2, R1, R2);
    ghost var t := Members(R1) + Members(R2);
    RelinkedTops(ns0, ns, t, t, e1 + e2);
    ForestFrame(ns0, ns, kids, t, e1 + e2);
    RelinkedKeys(ns0, ns, t);
    if Least(ns0, l1, e1) && Least(ns0, l2, e2) {
      LeastMerged(ns0, ns, l1, l2, list, e1, e2);
    }
  }
}
