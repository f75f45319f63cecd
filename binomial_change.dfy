/**
 * change (BinomialHeap.cpp:180-228) on the node records. A smaller key sifts
 * up towards its root and a larger one sifts down towards the smallest
 * child, each step a swapValues, which moves a value together with its
 * buffer. While the key travels, heap order holds on every edge except
 * those at the node that carries it.
 */
module BinomialChange {
  import opened BinomialShape
  import opened BinomialTree

  /** swapValues (BinomialHeap.cpp:318-330) on the node records: x and y exchange value and buffer. */
  function SwapNodes(ns: seq<Node>, x: int, y: int): seq<Node>
    requires 0 <= x < |ns| && 0 <= y < |ns|
  {
    ns[x := ns[x].(value := ns[y].value, buffer := ns[y].buffer)][y := ns[y].(value := ns[x].value, buffer := ns[x].buffer)]
  }

  /** swapValues on the buffer records: x's buffer now points at y and y's at x. */
  function SwapBuffers(ns: seq<Node>, bs: seq<Buffer>, x: int, y: int): seq<Buffer>
    requires 0 <= x < |ns| && 0 <= y < |ns|
    requires 0 <= ns[x].buffer < |bs| && 0 <= ns[y].buffer < |bs|
  {
    bs[ns[x].buffer := bs[ns[x].buffer].(node := y)][ns[y].buffer := bs[ns[y].buffer].(node := x)]
  }

  /**
   * swapValues moves values, never links, keeps the store consistent, and
   * every live buffer reads the value it read before.
   */
  lemma SwapKeeps(ns: seq<Node>, bs: seq<Buffer>, x: int, y: int)
    requires Linked(ns, bs) && 0 <= x < |ns| && 0 <= y < |ns| && x != y
    requires 0 <= ns[x].buffer < |bs| && 0 <= ns[y].buffer < |bs|
    ensures var ns', bs' := SwapNodes(ns, x, y), SwapBuffers(ns, bs, x, y);
      && SameLinks(ns, ns') && Linked(ns', bs') && |bs'| == |bs|
      && ns'[x].value == ns[y].value && ns'[y].value == ns[x].value
      && (forall n :: 0 <= n < |ns| && n != x && n != y ==> ns'[n] == ns[n])
      && (forall b :: 0 <= b < |bs| ==> bs'[b].deleted == bs[b].deleted)
      && (forall b :: 0 <= b < |bs| && !bs[b].deleted ==> ns'[bs'[b].node].value == ns[bs[b].node].value)
  {
    assert ns[x].buffer != ns[y].buffer by {
      assert bs[ns[x].buffer].node == x && bs[ns[y].buffer].node == y;
    }
  }

  /** Swapping two elements of e keeps every element's buffer live and every handle's value. */
  lemma SwapHandles(ns: seq<Node>, bs: seq<Buffer>, e: set<int>, x: int, y: int)
    requires Linked(ns, bs) && (forall m :: m in e ==> 0 <= m < |ns|) && Buffered(ns, bs, e)
    requires x in e && y in e && x != y
    ensures Buffered(SwapNodes(ns, x, y), SwapBuffers(ns, bs, x, y), e)
    ensures HandleMap(SwapNodes(ns, x, y), SwapBuffers(ns, bs, x, y), e) == HandleMap(ns, bs, e)
  {
    SwapKeeps(ns, bs, x, y);
  }

  /** `cur->value = key` for an element c of e: the handle of c reads key, the others are unchanged. */
  lemma NewValueHandles(ns: seq<Node>, bs: seq<Buffer>, e: set<int>, c: int, key: int)
    requires Linked(ns, bs) && (forall m :: m in e ==> 0 <= m < |ns|) && Buffered(ns, bs, e) && c in e
    ensures Linked(ns[c := ns[c].(value := key)], bs) && Buffered(ns[c := ns[c].(value := key)], bs, e)
    ensures HandleMap(ns[c := ns[c].(value := key)], bs, e) == HandleMap(ns, bs, e)[ns[c].buffer := key]
  {
  }

  /** Every element of e has a value of at least lo. */
  ghost predicate AtLeast(ns: seq<Node>, e: set<int>, lo: int)
  {
    forall n {:trigger n in e} :: n in e && 0 <= n < |ns| ==> lo <= ns[n].value
  }

  /** A new key at c keeps every bound no larger than both the key and the values of e. */
  lemma NewValueBound(ns: seq<Node>, e: set<int>, c: int, key: int, lo: int)
    requires 0 <= c < |ns| && lo <= key
    requires forall n :: n in e && 0 <= n < |ns| ==> lo <= ns[n].value
    ensures AtLeast(ns[c := ns[c].(value := key)], e, lo)
  {
  }

  /**
   * ns, bs come from ns0, bs0 by swaps among the elements of e: links,
   * deleted flags and everything outside e are as before, every handle of
   * e reads the same value, and no value of e fell below a bound it kept.
   */
  ghost predicate Permuted(ns0: seq<Node>, bs0: seq<Buffer>, ns: seq<Node>, bs: seq<Buffer>, e: set<int>)
  {
    && SameLinks(ns0, ns) && |bs| == |bs0|
    && (forall n :: 0 <= n < |ns0| && n !in e ==> ns[n] == ns0[n])
    && (forall b :: 0 <= b < |bs0| ==> bs[b].deleted == bs0[b].deleted)
    && (forall b :: 0 <= b < |bs0| && bs0[b].node !in e ==> bs[b] == bs0[b])
    && HandleMap(ns, bs, e) == HandleMap(ns0, bs0, e)
    && (forall lo :: AtLeast(ns0, e, lo) ==> AtLeast(ns, e, lo))
  }

  /** After a new key at c and swaps within e, nothing outside e has changed and no buffer was deleted or revived. */
  lemma ChangedOnly(ns0: seq<Node>, bs0: seq<Buffer>, ns: seq<Node>, bs: seq<Buffer>, e: set<int>, c: int, key: int)
    requires 0 <= c < |ns0| && c in e && Permuted(ns0[c := ns0[c].(value := key)], bs0, ns, bs, e)
    ensures |ns| == |ns0| && |bs| == |bs0|
    ensures forall n :: 0 <= n < |ns| && n !in e ==> ns[n] == ns0[n]
    ensures forall b :: 0 <= b < |bs| ==> bs[b].deleted == bs0[b].deleted
    ensures forall b :: 0 <= b < |bs0| && bs0[b].node !in e ==> bs[b] == bs0[b]
  {
  }

  /** No swap yet. */
  lemma PermutedStart(ns: seq<Node>, bs: seq<Buffer>, e: set<int>)
    ensures Permuted(ns, bs, ns, bs, e)
  {
  }

  /** One more swap of two elements of e. */
  lemma PermutedSwap(ns0: seq<Node>, bs0: seq<Buffer>, ns: seq<Node>, bs: seq<Buffer>, e: set<int>, x: int, y: int)
    requires Permuted(ns0, bs0, ns, bs, e) && Linked(ns, bs)
    requires (forall m :: m in e ==> 0 <= m < |ns|) && Buffered(ns, bs, e) && x in e && y in e && x != y
    ensures Permuted(ns0, bs0, SwapNodes(ns, x, y), SwapBuffers(ns, bs, x, y), e)
  {
    SwapKeeps(ns, bs, x, y);
    SwapHandles(ns, bs, e, x, y);
    var ns' := SwapNodes(ns, x, y);
    forall lo | AtLeast(ns0, e, lo) ensures AtLeast(ns', e, lo) {
      assert AtLeast(ns, e, lo);
    }
  }

  /** Heap order on every edge of e except the one from c up to its parent. */
  ghost predicate OrderedAboveBut(ns: seq<Node>, e: set<int>, c: int)
  {
    forall n {:trigger n in e} :: n in e && 0 <= n < |ns| && n != c && ns[n].parent != NIL ==>
      0 <= ns[n].parent < |ns| && ns[ns[n].parent].value <= ns[n].value
  }

  /** Heap order on every edge of e except those from the children of c up to c. */
  ghost predicate OrderedBelowBut(ns: seq<Node>, e: set<int>, c: int)
  {
    forall n {:trigger n in e} :: n in e && 0 <= n < |ns| && ns[n].parent != c && ns[n].parent != NIL ==>
      0 <= ns[n].parent < |ns| && ns[ns[n].parent].value <= ns[n].value
  }

  /** The parent of c, if any, is no larger than any child of c. */
  ghost predicate Bridge(ns: seq<Node>, e: set<int>, c: int)
    requires 0 <= c < |ns|
  {
    ns[c].parent != NIL ==>
      0 <= ns[c].parent < |ns| &&
      forall n {:trigger n in e} :: n in e && 0 <= n < |ns| && ns[n].parent == c ==> ns[ns[c].parent].value <= ns[n].value
  }

  /** A heap over e whose key at c is on its way up (BinomialHeap.cpp:191-195). */
  ghost predicate SiftingUp(ns: seq<Node>, kids: seq<seq<int>>, bs: seq<Buffer>, h: int, m: int, r: seq<int>, e: set<int>, c: int)
  {
    && c in e && Shape(ns, kids, r, e) && OrderedAboveBut(ns, e, c) && Bridge(ns, e, c)
    && Buffered(ns, bs, e) && ListOk(ns, h, m, r) && (r == [] ==> e == {})
  }

  /** A heap over e whose key at c is on its way down (BinomialHeap.cpp:202-216). */
  ghost predicate SiftingDown(ns: seq<Node>, kids: seq<seq<int>>, bs: seq<Buffer>, h: int, m: int, r: seq<int>, e: set<int>, c: int)
  {
    && c in e && Shape(ns, kids, r, e) && OrderedBelowBut(ns, e, c) && Bridge(ns, e, c)
    && Buffered(ns, bs, e) && ListOk(ns, h, m, r) && (r == [] ==> e == {})
  }

  /** Lowering the key of c in a heap starts a sift-up at c (BinomialHeap.cpp:189). */
  lemma DecreaseStarts(ns: seq<Node>, kids: seq<seq<int>>, bs: seq<Buffer>, h: int, m: int, r: seq<int>, e: set<int>, c: int, key: int)
    requires HeapOk(ns, kids, bs, h, m, r, e) && c in e && key <= ns[c].value
    ensures SiftingUp(ns[c := ns[c].(value := key)], kids, bs, h, m, r, e, c)
  {
    var ns' := ns[c := ns[c].(value := key)];
    SameLinksKeepShape(ns, ns', kids, r, e);
    forall n | n in e && ns[n].parent != NIL ensures n != ns[n].parent {
      ParentAbove(ns, kids, r, e, n);
    }
  }

  /** Heap order after one sift-up swap of c with its no smaller parent p. */
  lemma UpOrder(ns: seq<Node>, kids: seq<seq<int>>, r: seq<int>, e: set<int>, c: int)
    requires Shape(ns, kids, r, e) && c in e && OrderedAboveBut(ns, e, c) && Bridge(ns, e, c)
    requires ns[c].parent != NIL && ns[ns[c].parent].value >= ns[c].value
    ensures 0 <= ns[c].parent < |ns|
    ensures OrderedAboveBut(SwapNodes(ns, c, ns[c].parent), e, ns[c].parent)
    ensures Bridge(SwapNodes(ns, c, ns[c].parent), e, ns[c].parent)
  {
    var p := ns[c].parent;
    ParentAbove(ns, kids, r, e, c);
    var ns' := SwapNodes(ns, c, p);
    forall n | n in e && n != p && ns'[n].parent != NIL
      ensures 0 <= ns'[n].parent < |ns'| && ns'[ns'[n].parent].value <= ns'[n].value
    {
      ParentAbove(ns, kids, r, e, n);
    }
    if ns[p].parent != NIL {
      ParentAbove(ns, kids, r, e, p);
      forall n | n in e && ns'[n].parent == p ensures ns'[ns'[p].parent].value <= ns'[n].value {
        ParentAbove(ns, kids, r, e, n);
      }
    }
  }

  /**
   * One round of the sift-up (BinomialHeap.cpp:192-194): when the parent p
   * of c is no smaller, swapping them moves the travelling key to p, an
   * element of larger degree.
   */
  lemma SiftUpStep(ns: seq<Node>, kids: seq<seq<int>>, bs: seq<Buffer>, h: int, m: int, r: seq<int>, e: set<int>, c: int)
    requires Linked(ns, bs) && SiftingUp(ns, kids, bs, h, m, r, e, c)
    requires ns[c].parent != NIL && ns[ns[c].parent].value >= ns[c].value
    ensures ns[c].parent in e && ns[c].degree < ns[ns[c].parent].degree <= |ns|
    ensures 0 <= ns[c].buffer < |bs| && 0 <= ns[ns[c].parent].buffer < |bs|
    ensures SiftingUp(SwapNodes(ns, c, ns[c].parent), kids, SwapBuffers(ns, bs, c, ns[c].parent), h, m, r, e, ns[c].parent)
  {
    var p := ns[c].parent;
    ParentAbove(ns, kids, r, e, c);
    var ns' := SwapNodes(ns, c, p);
    SwapKeeps(ns, bs, c, p);
    SwapHandles(ns, bs, e, c, p);
    SameLinksKeepShape(ns, ns', kids, r, e);
    SameLinksKeepList(ns, ns', h, m, r);
    UpOrder(ns, kids, r, e, c);
  }

  /** The sift-up stops (BinomialHeap.cpp:191): once c's parent is smaller, or c is a root, the heap is ordered again. */
  lemma SiftUpDone(ns: seq<Node>, kids: seq<seq<int>>, bs: seq<Buffer>, h: int, m: int, r: seq<int>, e: set<int>, c: int)
    requires SiftingUp(ns, kids, bs, h, m, r, e, c)
    requires ns[c].parent == NIL || ns[ns[c].parent].value < ns[c].value
    ensures HeapOk(ns, kids, bs, h, m, r, e)
  {
    forall n | n in e && ns[n].parent != NIL ensures 0 <= ns[n].parent < |ns| {
      ParentAbove(ns, kids, r, e, n);
    }
  }

  /** Raising the key of c in a heap starts a sift-down at c (BinomialHeap.cpp:201). */
  lemma IncreaseStarts(ns: seq<Node>, kids: seq<seq<int>>, bs: seq<Buffer>, h: int, m: int, r: seq<int>, e: set<int>, c: int, key: int)
    requires HeapOk(ns, kids, bs, h, m, r, e) && c in e && key >= ns[c].value
    ensures SiftingDown(ns[c := ns[c].(value := key)], kids, bs, h, m, r, e, c)
  {
    var ns' := ns[c := ns[c].(value := key)];
    SameLinksKeepShape(ns, ns', kids, r, e);
    forall n | n in e && ns[n].parent != NIL ensures n != ns[n].parent {
      ParentAbove(ns, kids, r, e, n);
    }
  }

  /** Heap order after one sift-down swap of c with s, its least child, which is smaller than c. */
  lemma DownOrder(ns: seq<Node>, kids: seq<seq<int>>, r: seq<int>, e: set<int>, c: int, s: int)
    requires Shape(ns, kids, r, e) && c in e && OrderedBelowBut(ns, e, c) && Bridge(ns, e, c)
    requires s in e && s in kids[c] && ns[s].parent == c && ns[s].value < ns[c].value
    requires forall n :: n in kids[c] && 0 <= n < |ns| ==> ns[s].value <= ns[n].value
    ensures OrderedBelowBut(SwapNodes(ns, c, s), e, s) && Bridge(SwapNodes(ns, c, s), e, s)
  {
    var ns' := SwapNodes(ns, c, s);
    ParentAbove(ns, kids, r, e, s);
    if ns[c].parent != NIL {
      ParentAbove(ns, kids, r, e, c);
    }
    forall n | n in e && ns'[n].parent != s && ns'[n].parent != NIL
      ensures 0 <= ns'[n].parent < |ns'| && ns'[ns'[n].parent].value <= ns'[n].value
    {
      ParentAbove(ns, kids, r, e, n);
      if ns[n].parent == c {
        assert Placed(ns, kids, r, e, n);
      }
    }
    forall n | n in e && ns'[n].parent == s ensures ns'[c].value <= ns'[n].value {
      ParentAbove(ns, kids, r, e, n);
    }
  }

  /**
   * One round of the sift-down (BinomialHeap.cpp:203-215): s, the first
   * child of c with the least value, is smaller than c, so swapping them
   * moves the travelling key to s, an element of smaller degree.
   */
  lemma SiftDownStep(ns: seq<Node>, kids: seq<seq<int>>, bs: seq<Buffer>, h: int, m: int, r: seq<int>, e: set<int>, c: int, s: int)
    requires Linked(ns, bs) && SiftingDown(ns, kids, bs, h, m, r, e, c)
    requires LeastFirst(ns, kids[c], s) && ns[s].value < ns[c].value
    ensures s in e && ns[s].degree < ns[c].degree
    ensures 0 <= ns[c].buffer < |bs| && 0 <= ns[s].buffer < |bs|
    ensures SiftingDown(SwapNodes(ns, c, s), kids, SwapBuffers(ns, bs, c, s), h, m, r, e, s)
  {
    assert KidsOk(ns, kids, e, c);
    var j :| 0 <= j < |kids[c]| && kids[c][j] == s;
    ParentAbove(ns, kids, r, e, s);
    var ns' := SwapNodes(ns, c, s);
    SwapKeeps(ns, bs, c, s);
    SwapHandles(ns, bs, e, c, s);
    SameLinksKeepShape(ns, ns', kids, r, e);
    SameLinksKeepList(ns, ns', h, m, r);
    DownOrder(ns, kids, r, e, c, s);
  }

  /** The sift-down stops (BinomialHeap.cpp:202, 211-213): once no child of c is smaller, the heap is ordered again. */
  lemma SiftDownDone(ns: seq<Node>, kids: seq<seq<int>>, bs: seq<Buffer>, h: int, m: int, r: seq<int>, e: set<int>, c: int)
    requires SiftingDown(ns, kids, bs, h, m, r, e, c)
    requires forall n :: n in kids[c] && 0 <= n < |ns| ==> ns[c].value <= ns[n].value
    ensures HeapOk(ns, kids, bs, h, m, r, e)
  {
    forall n | n in e && ns[n].parent != NIL ensures 0 <= ns[n].parent < |ns| && ns[ns[n].parent].value <= ns[n].value {
      ParentAbove(ns, kids, r, e, n);
    }
  }

  /** The child list of a node has no repeats (its j-th member has degree j). */
  lemma KidsDistinct(ns: seq<Node>, kids: seq<seq<int>>, e: set<int>, c: int)
    requires 0 <= c < |ns| == |kids| && KidsOk(ns, kids, e, c)
    ensures Distinct(kids[c])
  {
    forall i, j | 0 <= i < j < |kids[c]| ensures kids[c][i] != kids[c][j] {
      assert ns[kids[c][i]].degree == i && ns[kids[c][j]].degree == j;
    }
  }
}
