/**
 * cut and cascadingCut (FibonacciHeap.cpp:254-275) as written. When the
 * node cut is an only child the parent loses its child ring and the node
 * joins the root list. When it has siblings, line 258 sets the node's parent
 * to its right sibling and the true parent keeps its `child` pointer and its
 * degree; the trees are then no longer what the heap invariant describes,
 * so those paths are modelled without a promise about the trees. A nullptr
 * dereference makes `ok` false.
 */
module FibonacciCut {
  import opened FibonacciRing
  import opened FibonacciForest
  import opened FibonacciLists
  import opened FibonacciConsolidate

  /** Writing a record whose pointers are in the arena keeps the arena. */
  lemma WriteArena(ns: seq<Node>, x: int, y: Node)
    requires Arena(ns) && 0 <= x < |ns| && Pointers(ns, y)
    ensures Arena(ns[x := y])
  {
    var ns' := ns[x := y];
    forall n | 0 <= n < |ns'| ensures Pointers(ns', ns'[n]) {
      assert Pointers(ns, ns[n]);
    }
  }

  /**
   * The branch of cut for a node without siblings (FibonacciHeap.cpp:256-257):
   * its parent's child ring is cleared. ok is false when the parent is nullptr.
   */
  method UnhookOnly(ns0: seq<Node>, node: int) returns (ns: seq<Node>, ok: bool)
    requires Arena(ns0) && 0 <= node < |ns0|
    ensures Arena(ns)
    ensures ok <==> ns0[node].parent != NIL
    ensures SameKeys(ns0, ns)
    ensures ok ==> var p := ns0[node].parent; ns == ns0[p := ns0[p].(child := NIL)]
  {
    assert Pointers(ns0, ns0[node]);
    var p := ns0[node].parent;
    if p == NIL {
      return ns0, false;
    }
    assert Pointers(ns0, ns0[p]);
    WriteArena(ns0, p, ns0[p].(child := NIL));
    ns := ns0[p := ns0[p].(child := NIL)];
    ok := true;
  }

  /**
   * The branch of cut for a node with siblings (FibonacciHeap.cpp:258-261):
   * the node's parent becomes its right sibling (line 258), and its
   * neighbours are linked to each other. ok is false when a neighbour is
   * nullptr.
   */
  method UnhookSiblings(ns0: seq<Node>, node: int) returns (ns: seq<Node>, ok: bool)
    requires Arena(ns0) && 0 <= node < |ns0|
    ensures Arena(ns) && |ns| == |ns0|
    ensures ok ==> ns[node].parent == ns0[node].right != NIL
    ensures ok ==> forall x :: 0 <= x < |ns0| && x != node && x != ns0[node].right && x != ns0[node].left ==> ns[x] == ns0[x]
    ensures ok ==> ns[ns0[node].right].degree == ns0[ns0[node].right].degree
    ensures SameKeys(ns0, ns)
  {
    assert Pointers(ns0, ns0[node]);
    var r := ns0[node].right;
    WriteArena(ns0, node, ns0[node].(parent := r));
    ns := ns0[node := ns0[node].(parent := r)];
    if r == NIL {
      return ns, false;
    }
    assert Pointers(ns, ns[r]) && Pointers(ns, ns[node]);
    WriteArena(ns, r, ns[r].(left := ns[node].left));
    ns := ns[r := ns[r].(left := ns[node].left)];
    var l := ns[node].left;
    if l == NIL {
      return ns, false;
    }
    assert Pointers(ns, ns[l]) && Pointers(ns, ns[node]);
    WriteArena(ns, l, ns[l].(right := ns[node].right));
    ns := ns[l := ns[l].(right := ns[node].right)];
    ok := true;
  }

  /**
   * The end of cut before its merge (FibonacciHeap.cpp:263-264): the node
   * its `parent` names loses one degree and the node becomes a ring of its
   * own.
   */
  method Isolate(ns0: seq<Node>, node: int) returns (ns: seq<Node>)
    requires Arena(ns0) && 0 <= node < |ns0| && 0 <= ns0[node].parent < |ns0|
    ensures Arena(ns) && SelfRing(ns, node) && SameKeys(ns0, ns)
    ensures var q := ns0[node].parent;
      ns == ns0[q := ns0[q].(degree := ns0[q].degree - 1)][node := ns0[q := ns0[q].(degree := ns0[q].degree - 1)][node].(left := node, right := node)]
  {
    var q := ns0[node].parent;
    assert Pointers(ns0, ns0[q]);
    WriteArena(ns0, q, ns0[q].(degree := ns0[q].degree - 1));
    ns := ns0[q := ns0[q].(degree := ns0[q].degree - 1)];
    assert Pointers(ns, ns[node]);
    WriteArena(ns, node, ns[node].(left := node, right := node));
    ns := ns[node := ns[node].(left := node, right := node)];
  }

  /**
   * cut up to its merge (FibonacciHeap.cpp:255-264): the node leaves its
   * sibling ring and becomes a ring of its own, and the node that its
   * `parent` names after line 258 loses one degree. For a node without
   * siblings that is its parent, whose `child` is cleared; for a node with
   * siblings it is the right sibling, and the true parent keeps its child
   * pointer and its degree.
   */
  method Unhook(ns0: seq<Node>, node: int) returns (ns: seq<Node>, ok: bool)
    requires Arena(ns0) && 0 <= node < |ns0|
    ensures Arena(ns) && SameKeys(ns0, ns)
    ensures ok ==> SelfRing(ns, node) && 0 <= ns[node].parent < |ns|
    ensures SelfRing(ns0, node) ==> (ok <==> ns0[node].parent != NIL)
    ensures SelfRing(ns0, node) && ok ==>
      var p := ns0[node].parent;
      ns == ns0[p := ns0[p].(child := NIL, degree := ns0[p].degree - 1)]
    ensures ns0[node].right != node && ok ==>
      var r := ns0[node].right;
      && ns[node].parent == r && ns[r].degree == ns0[r].degree - 1
      && forall x :: 0 <= x < |ns0| && x != node && x != r && x != ns0[node].left ==> ns[x] == ns0[x]
  {
    if ns0[node].right == node {
      ns, ok := UnhookOnly(ns0, node);
      if !ok {
        return;
      }
      ghost var ns1 := ns;
      ns := Isolate(ns, node);
      var p := ns0[node].parent;
      if SelfRing(ns0, node) {
        assert ns == ns0[p := ns0[p].(child := NIL, degree := ns0[p].degree - 1)];
      }
    } else {
      ns, ok := UnhookSiblings(ns0, node);
      if !ok {
        return;
      }
      ns := Isolate(ns, node);
    }
  }

  /**
   * cut (FibonacciHeap.cpp:254-267): Unhook, then the node, a ring of its
   * own, is merged into the root list. For a node without siblings whose
   * parent is set, cut clears the parent's child ring, lowers its degree
   * and adds the node to the root ring R.
   */
  method Cut(ns0: seq<Node>, list0: int, node: int, ghost R: seq<int>) returns (ns: seq<Node>, list: int, ok: bool, ghost R': seq<int>)
    requires Arena(ns0) && 0 <= node < |ns0| && Ptr(ns0, list0)
    ensures Arena(ns) && Ptr(ns, list) && SameKeys(ns0, ns)
    ensures ok ==> 0 <= ns[node].parent < |ns|
    ensures SelfRing(ns0, node) && ns0[node].parent != NIL && list0 != NIL && Ring(ns0, R) && list0 == R[0] && node !in R ==>
      var p := ns0[node].parent;
      && ok && Ring(ns, R') && list == R'[0] && Members(R') == Members(R) + {node}
      && Relinked(ns0[p := ns0[p].(child := NIL, degree := ns0[p].degree - 1)], ns, Members(R) + {node})
      && list == if ns0[node].key < ns0[list0].key then node else list0
    ensures SelfRing(ns0, node) && ns0[node].parent != NIL && list0 == node ==>
      var p := ns0[node].parent;
      ok && list == node && ns == ns0[p := ns0[p].(child := NIL, degree := ns0[p].degree - 1)]
  {
    ns, ok := Unhook(ns0, node);
    R' := R;
    list := list0;
    if !ok {
      return;
    }
    ghost var ns1 := ns;
    ns := ListConstructor(ns, node, [node]);
    DetachedNone(ns1);
    if SelfRing(ns0, node) && list0 != NIL && Ring(ns0, R) && list0 == R[0] && node !in R {
      RingFrame(ns0, ns, R);
    }
    ghost var ns2 := ns;
    ns, list, ok, R' := MergeSingle(ns, list0, node, R);
    assert ns[node].parent == ns2[node].parent by {
      assert Bare(ns[node]) == Bare(ns2[node]);
    }
    LinksOnlyKeys(ns2, ns);
  }

  /**
   * cascadingCut (FibonacciHeap.cpp:269-275): while the node is marked and
   * has a parent it is cut and the walk moves to the node its `parent` names
   * after the cut; the node where the walk stops is marked. The walk is
   * bounded by the number of nodes; a walk that reaches the bound or a cut
   * that meets a nullptr makes ok false.
   */
  method CascadingCut(ns0: seq<Node>, list0: int, node0: int) returns (ns: seq<Node>, list: int, ok: bool, last: int)
    requires Arena(ns0) && 0 <= node0 < |ns0| && Ptr(ns0, list0)
    ensures Arena(ns) && Ptr(ns, list) && SameKeys(ns0, ns)
    ensures ok ==> 0 <= last < |ns| && ns[last].marked
    ensures !ns0[node0].marked || ns0[node0].parent == NIL ==>
      ok && last == node0 && list == list0 && ns == ns0[node0 := ns0[node0].(marked := true)]
  {
    ns, list := ns0, list0;
    var node := node0;
    var fuel: nat := |ns0|;
    while ns[node].marked && ns[node].parent != NIL
      invariant Arena(ns) && Ptr(ns, list) && SameKeys(ns0, ns) && 0 <= node < |ns|
      invariant fuel <= |ns0|
      invariant fuel == |ns0| ==> ns == ns0 && node == node0 && list == list0
      invariant fuel < |ns0| ==> ns0[node0].marked && ns0[node0].parent != NIL
      decreases fuel
    {
      if fuel == 0 {
        return ns, list, false, node;
      }
      ghost var R: seq<int>;
      var ns1 := ns;
      ns, list, ok, R := Cut(ns, list, node, []);
      if !ok {
        return ns, list, false, node;
      }
      assert SameKeys(ns0, ns) by {
        assert SameKeys(ns0, ns1) && SameKeys(ns1, ns);
      }
      node := ns[node].parent;
      fuel := fuel - 1;
    }
    assert Pointers(ns, ns[node]);
    WriteArena(ns, node, ns[node].(marked := true));
    ns := ns[node := ns[node].(marked := true)];
    ok, last := true, node;
  }

  /**
   * The node is its parent's only child and the cascade stops at the
   * parent: the parent is unmarked or has no parent of its own.
   */
  ghost predicate ShortCut(ns: seq<Node>, kids: seq<seq<int>>, R: seq<int>, node: int)
  {
    && 0 <= node < |ns| == |kids| && node !in Members(R)
    && var p := ns[node].parent;
       0 <= p < |ns| && kids[p] == [node] && (!ns[p].marked || ns[p].parent == NIL)
  }

  /**
   * The node is the only root and its `parent` is left over from an earlier
   * tree (the list constructor keeps the parent of the last node of a ring):
   * it names a node outside the heap, and the cascade stops there.
   */
  ghost predicate StaleRoot(ns: seq<Node>, R: seq<int>, e: set<int>, node: int)
  {
    && 0 <= node < |ns| && R == [node]
    && var p := ns[node].parent;
       0 <= p < |ns| && p !in e && (!ns[p].marked || ns[p].parent == NIL)
  }

  /**
   * After the lowered key of the only root is cut from its left-over parent,
   * which loses its child pointer and one degree and is marked, the heap is
   * the one root with the same trees.
   */
  lemma StaleRootGood(ns0: seq<Node>, kids: seq<seq<int>>, list0: int, R0: seq<int>, e: set<int>, node: int, key: int)
    requires HeapOk(ns0, kids, list0, R0, e) && node in e && key <= ns0[node].key && StaleRoot(ns0, R0, e, node)
    ensures
      var p := ns0[node].parent;
      var ns := Rekeyed(ns0, node, key)[p := ns0[p].(child := NIL, degree := ns0[p].degree - 1, marked := true)];
      && list0 == node && SelfRing(ns0, node) && p != node
      && HeapOk(ns, kids, node, R0, e)
      && (Least(ns0, list0, e) ==> Least(ns, node, e))
  {
    var p := ns0[node].parent;
    assert RingAt(ns0, R0, 0);
    var ns1 := Rekeyed(ns0, node, key);
    var ns := ns1[p := ns0[p].(child := NIL, degree := ns0[p].degree - 1, marked := true)];
    NewKey(ns0, kids, Members(R0), e, node, key);
    assert TopsOnly(ns1, ns, Members(R0), e);
    ForestFrame(ns1, ns, kids, Members(R0), e);
    RingFrame(ns0, ns, R0);
  }

  /** Cutting an only child whose key was lowered keeps the trees, with the child become a top. */
  lemma ShortCutForest(ns0: seq<Node>, kids0: seq<seq<int>>, R0: seq<int>, e: set<int>, node: int, k: int)
    requires Forest(ns0, kids0, Members(R0), e) && node in e && k <= ns0[node].key && ShortCut(ns0, kids0, R0, node)
    ensures
      var p := ns0[node].parent;
      var ns1 := ns0[node := ns0[node].(key := k)];
      && p != node && p in e && ns0[p].degree == 1 && SelfRing(ns0, node)
      && Forest(ns1[p := ns1[p].(child := NIL, degree := ns1[p].degree - 1)], kids0[p := []], Members(R0) + {node}, e)
  {
    var p := ns0[node].parent;
    CutOnlyChild(ns0, kids0, Members(R0), e, node);
    KidsNotTops(ns0, kids0, Members(R0), e, p);
    assert KidsOk(ns0, kids0, e, p);
    assert RingAt(ns0, [node], 0);
    var nsA := ns0[p := ns0[p].(child := NIL, degree := 0)];
    NewKey(nsA, kids0[p := []], Members(R0) + {node}, e, node, k);
    var ns1 := ns0[node := ns0[node].(key := k)];
    assert nsA[node := nsA[node].(key := k)] == ns1[p := ns1[p].(child := NIL, degree := ns1[p].degree - 1)];
  }

  /** The key of node lowered to k, nothing else changed. */
  function Rekeyed(ns: seq<Node>, node: int, k: int): (ns': seq<Node>)
    requires 0 <= node < |ns|
    ensures |ns'| == |ns| && ns'[node].key == k
    ensures forall n :: 0 <= n < |ns| && n != node ==> ns'[n] == ns[n]
  {
    ns[node := ns[node].(key := k)]
  }

  /**
   * decreaseKey on a node whose parent is nullptr (FibonacciHeap.cpp:113-119):
   * such a node is a root; its key is lowered and the list moves to it when
   * its new key is below the key of the list's node.
   */
  method LowerRoot(ns0: seq<Node>, ghost kids: seq<seq<int>>, list0: int, ghost R0: seq<int>, ghost e: set<int>, node: int, key: int)
    returns (ns: seq<Node>, list: int, ghost R: seq<int>)
    requires Arena(ns0) && HeapOk(ns0, kids, list0, R0, e) && node in e && ns0[node].parent == NIL && key <= ns0[node].key
    ensures ns == Rekeyed(ns0, node, key) && Arena(ns)
    ensures list == if key < ns0[list0].key then node else list0
    ensures HeapOk(ns, kids, list, R, e) && Members(R) == Members(R0)
    ensures Least(ns0, list0, e) ==> Least(ns, list, e)
  {
    assert Placed(ns0, kids, Members(R0), e, node);
    NewKey(ns0, kids, Members(R0), e, node, key);
    assert Pointers(ns0, ns0[node]);
    WriteArena(ns0, node, ns0[node].(key := key));
    ns := ns0[node := ns0[node].(key := key)];
    RingFrame(ns0, ns, R0);
    list, R := list0, R0;
    if key < ns[list].key {
      list := node;
      ghost var i :| 0 <= i < |R0| && R0[i] == node;
      RingRotate(ns, R0, i);
      R := R0[i..] + R0[..i];
    }
  }

  /**
   * decreaseKey on a node whose parent's key is below the new key
   * (FibonacciHeap.cpp:120-123): only the key changes. The list keeps its
   * node, so it still names a least key unless the node is a root whose
   * `parent` is left over from an earlier tree.
   */
  method LowerKey(ns0: seq<Node>, ghost kids: seq<seq<int>>, list0: int, ghost R0: seq<int>, ghost e: set<int>, node: int, key: int)
    returns (ns: seq<Node>)
    requires Arena(ns0) && HeapOk(ns0, kids, list0, R0, e) && node in e && key <= ns0[node].key
    requires 0 <= ns0[node].parent < |ns0| && ns0[ns0[node].parent].key < key
    ensures ns == Rekeyed(ns0, node, key) && Arena(ns)
    ensures HeapOk(ns, kids, list0, R0, e)
    ensures Least(ns0, list0, e) && node !in Members(R0) ==> Least(ns, list0, e)
  {
    NewKey(ns0, kids, Members(R0), e, node, key);
    assert Pointers(ns0, ns0[node]);
    WriteArena(ns0, node, ns0[node].(key := key));
    ns := ns0[node := ns0[node].(key := key)];
    RingFrame(ns0, ns, R0);
    if Least(ns0, list0, e) && node !in Members(R0) {
      assert Placed(ns0, kids, Members(R0), e, node);
      assert ns0[list0].key <= ns0[ns0[node].parent].key;
    }
  }

  /** Lowering one key and moving the list to the smaller of two keys keeps a least list node. */
  lemma LeastRekeyed(ns0: seq<Node>, ns: seq<Node>, list0: int, e: set<int>, node: int, key: int, list: int)
    requires Least(ns0, list0, e) && 0 <= node < |ns0| && key <= ns0[node].key
    requires SameKeys(Rekeyed(ns0, node, key), ns)
    requires list == if key < ns0[list0].key then node else list0
    ensures Least(ns, list, e)
  {
    var ns1 := Rekeyed(ns0, node, key);
    forall n | n in e && 0 <= n < |ns| ensures ns[list].key <= ns[n].key {
      assert ns[n].key == ns1[n].key && ns[list].key == ns1[list].key;
    }
  }

  /**
   * After the cut of an only child whose key was lowered, and the parent
   * marked where the cascade stops, the trees are those of before with the
   * child moved to the roots.
   */
  lemma ShortCutGood(ns0: seq<Node>, kids0: seq<seq<int>>, R0: seq<int>, e: set<int>, node: int, key: int, ns2: seq<Node>, R: seq<int>, ns3: seq<Node>)
    requires Forest(ns0, kids0, Members(R0), e) && Live(ns0, e) && node in e && key <= ns0[node].key
    requires ShortCut(ns0, kids0, R0, node)
    requires
      var p := ns0[node].parent;
      var ns1 := Rekeyed(ns0, node, key);
      && Relinked(ns1[p := ns1[p].(child := NIL, degree := ns1[p].degree - 1)], ns2, Members(R0) + {node})
      && Ring(ns2, R) && Members(R) == Members(R0) + {node}
      && ns3 == ns2[p := ns2[p].(marked := true)]
    ensures Forest(ns3, kids0[ns0[node].parent := []], Members(R), e) && Live(ns3, e) && Ring(ns3, R)
  {
    var p := ns0[node].parent;
    var ns1 := Rekeyed(ns0, node, key);
    var nsB := ns1[p := ns1[p].(child := NIL, degree := ns1[p].degree - 1)];
    var tops := Members(R0) + {node};
    ShortCutForest(ns0, kids0, R0, e, node, key);
    RelinkedTops(nsB, ns2, tops, tops, e);
    ForestFrame(nsB, ns2, kids0[p := []], tops, e);
    assert TopsOnly(ns2, ns3, tops, e);
    ForestFrame(ns2, ns3, kids0[p := []], tops, e);
    RingFrame(ns2, ns3, R);
    forall n | n in e ensures !ns3[n].deleted {
      assert Bare(ns2[n]) == Bare(nsB[n]);
      assert !ns0[n].deleted;
    }
  }

  /**
   * decreaseKey on a node whose parent's key is not below the new key
   * (FibonacciHeap.cpp:124-127): the key is lowered, the node is cut and the
   * cascade starts at its former parent. When the node is its parent's only
   * child and the cascade stops at the parent, the heap stays a heap: the
   * node joins the roots, the parent loses its child ring and is marked.
   */
  method LowerCut(ns0: seq<Node>, ghost kids0: seq<seq<int>>, list0: int, ghost R0: seq<int>, ghost e: set<int>, node: int, key: int)
    returns (ns: seq<Node>, ghost kids: seq<seq<int>>, list: int, ghost R: seq<int>, ok: bool)
    requires Arena(ns0) && HeapOk(ns0, kids0, list0, R0, e) && node in e && key <= ns0[node].key
    requires 0 <= ns0[node].parent < |ns0|
    ensures Arena(ns) && Ptr(ns, list) && SameKeys(Rekeyed(ns0, node, key), ns) && |kids| == |kids0|
    ensures ShortCut(ns0, kids0, R0, node) ==>
      && ok && ns0[node].parent in e && kids == kids0[ns0[node].parent := []]
      && HeapOk(ns, kids, list, R, e) && Members(R) == Members(R0) + {node}
      && (forall n :: 0 <= n < |ns0| && n !in e ==> ns[n] == ns0[n])
      && list == (if key < ns0[list0].key then node else list0)
      && (Least(ns0, list0, e) ==> Least(ns, list, e))
    ensures StaleRoot(ns0, R0, e, node) ==>
      var p := ns0[node].parent;
      && ok && kids == kids0 && R == R0 && list == node
      && ns == Rekeyed(ns0, node, key)[p := ns0[p].(child := NIL, degree := ns0[p].degree - 1, marked := true)]
      && HeapOk(ns, kids, list, R, e)
      && (Least(ns0, list0, e) ==> Least(ns, list, e))
  {
    assert Pointers(ns0, ns0[node]);
    WriteArena(ns0, node, ns0[node].(key := key));
    ns := ns0[node := ns0[node].(key := key)];
    ghost var ns1 := ns;
    ghost var good := ShortCut(ns0, kids0, R0, node);
    ghost var stale := StaleRoot(ns0, R0, e, node);
    var parent := ns[node].parent;
    kids := kids0;
    if good {
      ShortCutForest(ns0, kids0, R0, e, node, key);
      RingFrame(ns0, ns1, R0);
    }
    if stale {
      StaleRootGood(ns0, kids0, list0, R0, e, node, key);
    }
    ns, list, ok, R := Cut(ns, list0, node, R0);
    if !ok {
      return;
    }
    ghost var ns2 := ns;
    ghost var list2 := list;
    var last;
    ns, list, ok, last := CascadingCut(ns, list, parent);
    assert SameKeys(ns1, ns) by {
      assert SameKeys(ns1, ns2) && SameKeys(ns2, ns);
    }
    if good {
      assert Bare(ns2[parent]) == Bare(ns1[parent := ns1[parent].(child := NIL, degree := ns1[parent].degree - 1)][parent]);
      ShortCutGood(ns0, kids0, R0, e, node, key, ns2, R, ns);
      kids := kids0[parent := []];
      if Least(ns0, list0, e) {
        LeastRekeyed(ns0, ns, list0, e, node, key, list);
      }
    }
    if stale {
      R := R0;
    }
  }
}
