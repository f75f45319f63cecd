/**
 * Root lists of a Fibonacci heap: the invariant of a heap's root ring and
 * elements, the private list constructor FibonacciHeap(node) and the part of
 * merge that splices two non-empty root lists.
 */
module FibonacciLists {
  import opened FibonacciRing
  import opened FibonacciForest

  /** No element of e has been extracted. */
  ghost predicate Live(ns: seq<Node>, e: set<int>)
  {
    forall n :: n in e && 0 <= n < |ns| ==> !ns[n].deleted
  }

  /**
   * A heap whose `fib_trees_list_` is list: its roots are the ring R from
   * list (empty exactly when list is nullptr), and its elements e form
   * heap-ordered trees whose tops are the roots.
   */
  ghost predicate HeapOk(ns: seq<Node>, kids: seq<seq<int>>, list: int, R: seq<int>, e: set<int>)
  {
    && Forest(ns, kids, Members(R), e) && Live(ns, e)
    && (R == [] ==> list == NIL && e == {})
    && (R != [] ==> Ring(ns, R) && list == R[0])
  }

  /** The key of every element of e. */
  ghost function KeyMap(ns: seq<Node>, e: set<int>): map<int, int>
  {
    map n | n in e && 0 <= n < |ns| :: ns[n].key
  }

  /** The members of s with `parent` cleared and `marked` reset. */
  function Detached(ns: seq<Node>, s: seq<int>): (ns': seq<Node>)
    ensures |ns'| == |ns|
    ensures forall n {:trigger ns'[n]} :: 0 <= n < |ns| ==>
      ns'[n] == if n in s then ns[n].(parent := NIL, marked := false) else ns[n]
  {
    seq(|ns|, n requires 0 <= n < |ns| => if n in s then ns[n].(parent := NIL, marked := false) else ns[n])
  }

  /** Detaching one more node. */
  lemma DetachedStep(ns: seq<Node>, s: seq<int>, x: int)
    requires 0 <= x < |ns|
    ensures Detached(ns, s + [x]) == Detached(ns, s)[x := Detached(ns, s)[x].(parent := NIL, marked := false)]
  {
    var a, b := Detached(ns, s + [x]), Detached(ns, s)[x := Detached(ns, s)[x].(parent := NIL, marked := false)];
    forall n | 0 <= n < |ns| ensures a[n] == b[n] {
      assert n in s + [x] <==> n in s || n == x;
    }
  }

  /**
   * Detaching tops keeps the arena, every ring and the forest: only parents
   * and marks of tops change.
   */
  lemma DetachedFrame(ns: seq<Node>, kids: seq<seq<int>>, s: seq<int>, tops: set<int>, e: set<int>)
    requires Arena(ns) && Forest(ns, kids, tops, e)
    requires forall i :: 0 <= i < |s| && s[i] in e ==> s[i] in tops
    ensures Arena(Detached(ns, s)) && LinksOnlyOrParents(ns, Detached(ns, s))
    ensures Forest(Detached(ns, s), kids, tops, e)
  {
    var ns' := Detached(ns, s);
    assert TopsOnly(ns, ns', tops, e) by {
      forall n | n in e && 0 <= n < |ns| && n in s ensures n in tops {
        var i :| 0 <= i < |s| && s[i] == n;
      }
    }
    ForestFrame(ns, ns', kids, tops, e);
  }

  /** ns differs from ns0 at most in parents and marks. */
  ghost predicate LinksOnlyOrParents(ns0: seq<Node>, ns: seq<Node>)
  {
    |ns| == |ns0| && forall n :: 0 <= n < |ns| ==> ns[n].(parent := NIL, marked := false) == ns0[n].(parent := NIL, marked := false)
  }

  /** Changing parents and marks only changes no key and no deleted flag. */
  lemma ParentsKeys(ns0: seq<Node>, ns: seq<Node>)
    requires LinksOnlyOrParents(ns0, ns)
    ensures SameKeys(ns0, ns)
  {
    forall n | 0 <= n < |ns0| ensures ns[n].key == ns0[n].key && ns[n].deleted == ns0[n].deleted {
      assert ns[n].(parent := NIL, marked := false) == ns0[n].(parent := NIL, marked := false);
    }
  }

  /** Every ring survives a change of parents and marks only. */
  lemma RingParents(ns0: seq<Node>, ns: seq<Node>, r: seq<int>)
    requires Ring(ns0, r) && LinksOnlyOrParents(ns0, ns)
    ensures Ring(ns, r)
  {
    forall i | 0 <= i < |r| ensures ns[r[i]].left == ns0[r[i]].left && ns[r[i]].right == ns0[r[i]].right {
      assert ns[r[i]].(parent := NIL, marked := false) == ns0[r[i]].(parent := NIL, marked := false);
    }
    RingFrame(ns0, ns, r);
  }

  /** Going right from r[i] returns to r[0] only at the last member. */
  lemma RingBack(ns: seq<Node>, r: seq<int>, i: int)
    requires Ring(ns, r) && 0 <= i < |r| && ns[r[i]].right == r[0]
    ensures i == |r| - 1
  {
    assert RingAt(ns, r, i);
    if i + 1 < |r| {
      assert false;
    }
  }

  /**
   * The list constructor FibonacciHeap(node) (FibonacciHeap.cpp:30-40): it
   * walks `right` from node until the next node is node again, clearing the
   * parent and the mark of every node it leaves, so the last member of the
   * ring keeps both as they were.
   */
  method ListConstructor(ns0: seq<Node>, node: int, ghost r: seq<int>) returns (ns: seq<Node>)
    requires node != NIL ==> Ring(ns0, r) && r[0] == node
    ensures node == NIL ==> ns == ns0
    ensures node != NIL ==> ns == Detached(ns0, r[..|r| - 1])
  {
    ns := ns0;
    if node != NIL {
      var cur := node;
      ghost var i := 0;
      while ns[cur].right != node
        invariant 0 <= i < |r| && cur == r[i]
        invariant ns == Detached(ns0, r[..i])
        decreases |r| - i
      {
        assert RingAt(ns0, r, i);
        if i + 1 == |r| {
          assert false;
        }
        DetachedStep(ns0, r[..i], cur);
        assert r[..i + 1] == r[..i] + [cur];
        ns := ns[cur := ns[cur].(parent := NIL, marked := false)];
        cur := ns[cur].right;
        i := i + 1;
      }
      assert ns[cur].right == ns0[cur].right;
      RingBack(ns0, r, i);
    }
  }

  /** The list constructor leaves the last member untouched. */
  lemma DetachedLast(ns: seq<Node>, r: seq<int>)
    requires Ring(ns, r)
    ensures Detached(ns, r[..|r| - 1])[r[|r| - 1]] == ns[r[|r| - 1]]
    ensures forall i :: 0 <= i < |r| - 1 ==> Detached(ns, r[..|r| - 1])[r[i]].parent == NIL
  {
    assert r[|r| - 1] !in r[..|r| - 1];
    forall i | 0 <= i < |r| - 1 ensures r[i] in r[..|r| - 1] {
      assert r[..|r| - 1][i] == r[i];
    }
  }

  /**
   * merge (FibonacciHeap.cpp:138-141) with both lists non-empty: the two
   * rings are spliced into one and the list moves to other when other's
   * key is smaller, so ties keep list.
   */
  method MergeLists(ns0: seq<Node>, list: int, other: int, ghost R1: seq<int>, ghost R2: seq<int>)
    returns (ns: seq<Node>, l: int, ghost R: seq<int>)
    requires Arena(ns0) && Spliceable(ns0, list, other, R1, R2)
    ensures Arena(ns) && Ring(ns, R) && l == R[0] && Members(R) == Members(R1) + Members(R2)
    ensures Relinked(ns0, ns, Members(R1) + Members(R2))
    ensures l == if ns0[other].key < ns0[list].key then other else list
  {
    var ok;
    ns, ok := MergeNodes(ns0, list, other, R1, R2);
    R := R1 + R2[1..] + R2[..1];
    l := list;
    if ns[other].key < ns[list].key {
      l := other;
      assert R[|R| - 1] == other;
      RingRotate(ns, R, |R| - 1);
      R := R[|R| - 1..] + R[..|R| - 1];
    }
  }

  /** Keys and deletion flags are as they were. */
  ghost predicate SameKeys(ns0: seq<Node>, ns: seq<Node>)
  {
    |ns| == |ns0| && forall n :: 0 <= n < |ns0| ==> ns[n].key == ns0[n].key && ns[n].deleted == ns0[n].deleted
  }

  /** Relinking keeps keys. */
  lemma RelinkedKeys(ns0: seq<Node>, ns: seq<Node>, s: set<int>)
    requires Relinked(ns0, ns, s)
    ensures SameKeys(ns0, ns)
  {
    forall n | 0 <= n < |ns0| ensures ns[n].key == ns0[n].key && ns[n].deleted == ns0[n].deleted {
      if n in s {
        assert Bare(ns[n]) == Bare(ns0[n]);
      }
    }
  }

  /** After a merge the list holds a key no larger than either list's least. */
  lemma LeastMerged(ns0: seq<Node>, ns: seq<Node>, list: int, other: int, l: int, s1: set<int>, s2: set<int>)
    requires Least(ns0, list, s1) && Least(ns0, other, s2) && SameKeys(ns0, ns)
    requires l == if ns0[other].key < ns0[list].key then other else list
    ensures Least(ns, l, s1 + s2)
  {
  }

  /** Outside the elements e, neither records nor child rings differ. */
  ghost predicate Untouched(ns0: seq<Node>, ns: seq<Node>, kids0: seq<seq<int>>, kids: seq<seq<int>>, e: set<int>)
  {
    && |ns| == |ns0| && |kids| == |kids0|
    && forall n :: 0 <= n < |ns0| && n !in e ==> ns[n] == ns0[n] && (n < |kids0| ==> kids[n] == kids0[n])
  }

  /** Two steps that keep keys and leave everything outside e alone make one. */
  lemma FramesCompose(ns0: seq<Node>, ns1: seq<Node>, ns2: seq<Node>, kids0: seq<seq<int>>, kids1: seq<seq<int>>, kids2: seq<seq<int>>, e: set<int>)
    requires SameKeys(ns0, ns1) && Untouched(ns0, ns1, kids0, kids1, e)
    requires SameKeys(ns1, ns2) && Untouched(ns1, ns2, kids1, kids2, e)
    ensures SameKeys(ns0, ns2) && Untouched(ns0, ns2, kids0, kids2, e)
  {
  }

  /** Relinking s1 and then s2 relinks s1 + s2. */
  lemma RelinkedTrans(ns0: seq<Node>, ns1: seq<Node>, ns2: seq<Node>, s1: set<int>, s2: set<int>)
    requires Relinked(ns0, ns1, s1) && Relinked(ns1, ns2, s2)
    ensures Relinked(ns0, ns2, s1 + s2)
  {
  }

  /** Relinking elements only leaves everything outside e alone. */
  lemma RelinkedUntouched(ns0: seq<Node>, ns: seq<Node>, kids: seq<seq<int>>, s: set<int>, e: set<int>)
    requires Relinked(ns0, ns, s) && s <= e
    ensures SameKeys(ns0, ns) && Untouched(ns0, ns, kids, kids, e)
  {
    RelinkedKeys(ns0, ns, s);
  }

  /** The list constructor on a ring of one node changes nothing. */
  lemma DetachedNone(ns: seq<Node>)
    ensures Detached(ns, []) == ns
  {
  }

  /** Rewiring ring links changes no key and no deleted flag. */
  lemma LinksOnlyKeys(ns0: seq<Node>, ns: seq<Node>)
    requires LinksOnly(ns0, ns)
    ensures SameKeys(ns0, ns)
  {
    forall n | 0 <= n < |ns0| ensures ns[n].key == ns0[n].key && ns[n].deleted == ns0[n].deleted {
      assert Bare(ns[n]) == Bare(ns0[n]);
    }
  }

  /**
   * merge(otherHeap) where otherHeap is the list constructed from a node
   * that is a ring of its own, as insert (FibonacciHeap.cpp:68-69) and cut
   * (FibonacciHeap.cpp:265-266) do: an empty list becomes node, otherwise
   * node is spliced into the ring and the list moves to node when node's key
   * is smaller. ok is false when mergeNodes meets a nullptr neighbour.
   */
  method MergeSingle(ns0: seq<Node>, list0: int, node: int, ghost R: seq<int>)
    returns (ns: seq<Node>, list: int, ok: bool, ghost R': seq<int>)
    requires Arena(ns0) && Ptr(ns0, list0) && 0 <= node < |ns0| && ns0[node].left == node && ns0[node].right == node
    ensures LinksOnly(ns0, ns) && Arena(ns) && Ptr(ns, list)
    ensures list0 == NIL ==> ok && ns == ns0 && list == node && R' == [node]
    ensures list0 == node ==> ok && ns == ns0 && list == node
    ensures list0 != NIL ==> list == if ns0[node].key < ns0[list0].key then node else list0
    ensures list0 != NIL && Ring(ns0, R) && list0 == R[0] && node !in R ==>
      && ok && Ring(ns, R') && list == R'[0] && Members(R') == Members(R) + {node}
      && Relinked(ns0, ns, Members(R) + {node})
  {
    if list0 == NIL {
      return ns0, node, true, [node];
    }
    Single(ns0, node);
    ns, ok := MergeNodes(ns0, list0, node, R, [node]);
    list := list0;
    R' := R + [node];
    assert R + [node][1..] + [node][..1] == R';
    assert Members(R) + Members([node]) == Members(R) + {node};
    if ns[node].key < ns[list0].key {
      list := node;
      if Ring(ns, R') {
        RingRotate(ns, R', |R'| - 1);
        R' := R'[|R'| - 1..] + R'[..|R'| - 1];
      }
    }
  }
}
