/**
 * consolidate (FibonacciHeap.cpp:198-252): after extractMin the roots are
 * taken off the root list one by one and linked with the root of equal
 * degree kept in a table of MERGE_ARRAY_SIZE slots, until every degree is
 * held by at most one root; the roots left in the table then form the new
 * root list, headed by a root of least key.
 */
module FibonacciConsolidate {
  import opened FibonacciRing
  import opened FibonacciForest
  import opened FibonacciLists

  /** MERGE_ARRAY_SIZE (FibonacciHeap.cpp:6): the number of slots of the degree table. */
  const MERGE_ARRAY_SIZE: int := 60

  /** x is a ring of its own. */
  predicate SelfRing(ns: seq<Node>, x: int)
  {
    0 <= x < |ns| && ns[x].left == x && ns[x].right == x
  }

  /**
   * Taking the first root off the root list (FibonacciHeap.cpp:201-214):
   * when it is alone the list becomes empty, otherwise its neighbours are
   * joined, it is made a ring of its own and the list moves right.
   */
  method PopRoot(ns0: seq<Node>, list: int, ghost R: seq<int>) returns (ns: seq<Node>, cur: int, l: int, ghost R': seq<int>)
    requires Arena(ns0) && Ring(ns0, R) && list == R[0]
    ensures cur == R[0] && SelfRing(ns, cur) && Arena(ns) && R' == R[1..]
    ensures R' == [] ==> l == NIL
    ensures R' != [] ==> Ring(ns, R') && l == R'[0]
    ensures Relinked(ns0, ns, Members(R))
  {
    RingNeighbours(ns0, R, 0);
    if list == ns0[list].right {
      cur, l, ns, R' := list, NIL, ns0, [];
    } else {
      var toTheRight := ns0[list].right;
      assert RingAt(ns0, R, 0);
      cur := list;
      var ns1 := Unlink(ns0, list, R);
      ns := ns1[cur := ns1[cur].(left := cur, right := cur)];
      l, R' := toTheRight, R[1..];
      assert cur !in R';
      RingFrame(ns1, ns, R');
      assert Pointers(ns, ns[cur]) && Pointers(ns1, ns1[cur]);
      assert Arena(ns) by {
        forall n | 0 <= n < |ns| ensures Pointers(ns, ns[n]) {
          assert Pointers(ns1, ns1[n]);
        }
      }
    }
  }

  /**
   * Linking when cur has the smaller or equal key (FibonacciHeap.cpp:222-227):
   * cur counts one more child, the ring of its children gains t, its child
   * pointer moves to t and t names cur its parent. The child ring of cur, in
   * `right` order from t, is t followed by the old children.
   */
  method Absorb(ns0: seq<Node>, ghost kids0: seq<seq<int>>, cur: int, t: int, ghost tops: set<int>, ghost e: set<int>)
    returns (ns: seq<Node>, ghost kids: seq<seq<int>>)
    requires Arena(ns0) && Forest(ns0, kids0, tops, e) && cur in tops && t in tops && cur != t
    requires SelfRing(ns0, cur) && SelfRing(ns0, t)
    requires ns0[cur].degree == ns0[t].degree && ns0[cur].key <= ns0[t].key
    ensures Arena(ns) && Forest(ns, kids, tops - {t}, e)
    ensures kids == kids0[cur := [t] + kids0[cur]] && ns[t].parent == cur
    ensures SelfRing(ns, cur) && ns[cur].degree == ns0[cur].degree + 1 && ns[cur].child == t
    ensures SameKeys(ns0, ns) && Untouched(ns0, ns, kids0, kids, e)
    ensures forall n :: 0 <= n < |ns0| && n != cur && n != t && n !in Members(kids0[cur]) ==> ns[n] == ns0[n]
  {
    ghost var K := kids0[cur];
    assert cur in e && KidsOk(ns0, kids0, e, cur);
    KidsNotTops(ns0, kids0, tops, e, cur);
    var ns1 := ns0[cur := ns0[cur].(degree := ns0[cur].degree + 1)];
    assert Pointers(ns1, ns1[cur]) by { assert Pointers(ns0, ns0[cur]); }
    var ok;
    var ns2;
    ns2, ok := MergeNodes(ns1, ns1[cur].child, t, K, [t]);
    var ns3 := ns2[cur := ns2[cur].(child := t)];
    ns := ns3[t := ns3[t].(parent := cur)];
    kids := kids0[cur := [t] + K];
    AbsorbAdopted(ns0, kids0, ns1, ns2, ns, cur, t);
    AdoptKeepsForest(ns0, kids0, tops, e, cur, t, ns, [t] + K);
    AdoptedArena(ns0, ns, kids0, cur, t, [t] + K);
  }

  /** The writes of Absorb leave what Adopted describes. */
  lemma AbsorbAdopted(ns0: seq<Node>, kids0: seq<seq<int>>, ns1: seq<Node>, ns2: seq<Node>, ns: seq<Node>, cur: int, t: int)
    requires 0 <= cur < |ns0| == |kids0| && SelfRing(ns0, t) && cur != t
    requires kids0[cur] == [] <==> ns0[cur].child == NIL
    requires kids0[cur] != [] ==> Ring(ns0, kids0[cur]) && ns0[cur].child == kids0[cur][0]
    requires t !in Members(kids0[cur]) && cur !in Members(kids0[cur])
    requires ns1 == ns0[cur := ns0[cur].(degree := ns0[cur].degree + 1)]
    requires LinksOnly(ns1, ns2) && (ns1[cur].child == NIL ==> ns2 == ns1)
    requires Spliceable(ns1, ns1[cur].child, t, kids0[cur], [t]) ==>
      && Ring(ns2, kids0[cur] + [t][1..] + [t][..1])
      && Relinked(ns1, ns2, Members(kids0[cur]) + Members([t]))
    requires ns == ns2[cur := ns2[cur].(child := t)][t := ns2[cur := ns2[cur].(child := t)][t].(parent := cur)]
    ensures Adopted(ns0, ns, kids0, cur, t, [t] + kids0[cur])
  {
    var K := kids0[cur];
    Single(ns1, t);
    if K == [] {
      assert [t] + K == [t];
      Single(ns, t);
    } else {
      assert Spliceable(ns1, ns1[cur].child, t, K, [t]) by {
        RingFrame(ns0, ns1, K);
      }
      assert K + [t][1..] + [t][..1] == K + [t];
      RingRotate(ns2, K + [t], |K|);
      assert (K + [t])[|K|..] + (K + [t])[..|K|] == [t] + K;
      RingFrame(ns2, ns, [t] + K);
    }
    assert Members([t] + K) == Members(K) + {t};
  }

  /** The child ring t has after adopting cur: cur, then t's old children from the second one round. */
  function Joined(cur: int, K: seq<int>): seq<int>
  {
    if K == [] then [cur] else [cur] + K[1..] + K[..1]
  }

  /**
   * Linking when the root t in the table has the smaller key
   * (FibonacciHeap.cpp:229-234): t counts one more child, cur is spliced in
   * front of t's children, names t its parent and becomes t's child.
   */
  method Submit(ns0: seq<Node>, ghost kids0: seq<seq<int>>, cur: int, t: int, ghost tops: set<int>, ghost e: set<int>)
    returns (ns: seq<Node>, ghost kids: seq<seq<int>>)
    requires Arena(ns0) && Forest(ns0, kids0, tops, e) && cur in tops && t in tops && cur != t
    requires SelfRing(ns0, cur) && SelfRing(ns0, t)
    requires ns0[cur].degree == ns0[t].degree && ns0[t].key < ns0[cur].key
    ensures Arena(ns) && Forest(ns, kids, tops - {cur}, e)
    ensures kids == kids0[t := Joined(cur, kids0[t])] && ns[cur].parent == t
    ensures SelfRing(ns, t) && ns[t].degree == ns0[t].degree + 1 && ns[t].child == cur
    ensures SameKeys(ns0, ns) && Untouched(ns0, ns, kids0, kids, e)
    ensures forall n :: 0 <= n < |ns0| && n != cur && n != t && n !in Members(kids0[t]) ==> ns[n] == ns0[n]
  {
    ghost var K := kids0[t];
    assert t in e && KidsOk(ns0, kids0, e, t);
    KidsNotTops(ns0, kids0, tops, e, t);
    var ns1 := ns0[t := ns0[t].(degree := ns0[t].degree + 1)];
    assert Pointers(ns1, ns1[t]) by { assert Pointers(ns0, ns0[t]); }
    var ok;
    var ns2;
    ns2, ok := MergeNodes(ns1, cur, ns1[t].child, [cur], K);
    var ns3 := ns2[cur := ns2[cur].(parent := t)];
    ns := ns3[t := ns3[t].(child := cur)];
    kids := kids0[t := Joined(cur, K)];
    SubmitAdopted(ns0, kids0, ns1, ns2, ns, cur, t);
    AdoptKeepsForest(ns0, kids0, tops, e, t, cur, ns, Joined(cur, K));
    AdoptedArena(ns0, ns, kids0, t, cur, Joined(cur, K));
  }

  /** The writes of Submit leave what Adopted describes. */
  lemma SubmitAdopted(ns0: seq<Node>, kids0: seq<seq<int>>, ns1: seq<Node>, ns2: seq<Node>, ns: seq<Node>, cur: int, t: int)
    requires 0 <= t < |ns0| == |kids0| && SelfRing(ns0, cur) && cur != t
    requires kids0[t] == [] <==> ns0[t].child == NIL
    requires kids0[t] != [] ==> Ring(ns0, kids0[t]) && ns0[t].child == kids0[t][0]
    requires cur !in Members(kids0[t]) && t !in Members(kids0[t])
    requires ns1 == ns0[t := ns0[t].(degree := ns0[t].degree + 1)]
    requires LinksOnly(ns1, ns2) && (ns1[t].child == NIL ==> ns2 == ns1)
    requires Spliceable(ns1, cur, ns1[t].child, [cur], kids0[t]) ==>
      && Ring(ns2, [cur] + kids0[t][1..] + kids0[t][..1])
      && Members([cur] + kids0[t][1..] + kids0[t][..1]) == Members([cur]) + Members(kids0[t])
      && Relinked(ns1, ns2, Members([cur]) + Members(kids0[t]))
    requires ns == ns2[cur := ns2[cur].(parent := t)][t := ns2[cur := ns2[cur].(parent := t)][t].(child := cur)]
    ensures Adopted(ns0, ns, kids0, t, cur, Joined(cur, kids0[t]))
  {
    var K := kids0[t];
    Single(ns1, cur);
    if K == [] {
      Single(ns, cur);
    } else {
      assert Spliceable(ns1, cur, ns1[t].child, [cur], K) by {
        RingFrame(ns0, ns1, K);
      }
      RingFrame(ns2, ns, Joined(cur, K));
      assert |Joined(cur, K)| == |K| + 1;
    }
  }

  /** Every root in the degree table is a ring of its own and has the degree of its slot. */
  ghost predicate Slots(ns: seq<Node>, T: seq<int>)
  {
    forall d :: 0 <= d < |T| && T[d] != NIL ==> SelfRing(ns, T[d]) && ns[T[d]].degree == d
  }

  /** The roots held by the degree table. */
  ghost function Stored(T: seq<int>): set<int>
  {
    set d | 0 <= d < |T| && T[d] != NIL :: T[d]
  }

  /**
   * The state of consolidate: the roots still on the list R, the roots in
   * the table T and the roots in extra (the one being processed) are the
   * tops of a forest over e, no root in two places.
   */
  ghost predicate Table(ns: seq<Node>, kids: seq<seq<int>>, R: seq<int>, T: seq<int>, extra: set<int>, e: set<int>)
  {
    && |T| == MERGE_ARRAY_SIZE && Arena(ns) && Slots(ns, T)
    && (R != [] ==> Ring(ns, R))
    && Members(R) !! Stored(T) && extra !! Members(R) + Stored(T)
    && Forest(ns, kids, Members(R) + Stored(T) + extra, e)
  }

  /** Emptying a slot removes exactly its root from the table. */
  lemma StoredClear(ns: seq<Node>, T: seq<int>, d: int)
    requires Slots(ns, T) && 0 <= d < |T| && T[d] != NIL
    ensures T[d] in Stored(T) && Stored(T[d := NIL]) == Stored(T) - {T[d]} && Slots(ns, T[d := NIL])
  {
    var T' := T[d := NIL];
    forall y | y in Stored(T) - {T[d]} ensures y in Stored(T') {
      var d' :| 0 <= d' < |T| && T[d'] != NIL && T[d'] == y;
      assert T'[d'] == y;
    }
    forall y | y in Stored(T') ensures y in Stored(T) - {T[d]} {
      var d' :| 0 <= d' < |T'| && T'[d'] != NIL && T'[d'] == y;
      assert T[d'] == y && ns[y].degree == d';
    }
  }

  /** Filling an empty slot adds exactly its new root to the table. */
  lemma StoredPut(ns: seq<Node>, T: seq<int>, d: int, x: int)
    requires Slots(ns, T) && 0 <= d < |T| && T[d] == NIL && SelfRing(ns, x) && ns[x].degree == d
    ensures Stored(T[d := x]) == Stored(T) + {x} && Slots(ns, T[d := x])
  {
    var T' := T[d := x];
    assert T'[d] == x;
    forall y | y in Stored(T) ensures y in Stored(T') {
      var d' :| 0 <= d' < |T| && T[d'] != NIL && T[d'] == y;
      assert T'[d'] == y;
    }
    forall y | y in Stored(T') ensures y in Stored(T) + {x} {
      var d' :| 0 <= d' < |T'| && T'[d'] != NIL && T'[d'] == y;
      if d' != d {
        assert T[d'] == y;
      }
    }
  }

  /** Storing the processed root in its empty slot. */
  lemma PutStep(ns: seq<Node>, kids: seq<seq<int>>, R: seq<int>, T: seq<int>, cur: int, e: set<int>)
    requires Table(ns, kids, R, T, {cur}, e) && SelfRing(ns, cur)
    requires 0 <= ns[cur].degree < |T| && T[ns[cur].degree] == NIL
    ensures Table(ns, kids, R, T[ns[cur].degree := cur], {}, e)
  {
    StoredPut(ns, T, ns[cur].degree, cur);
    assert Members(R) + Stored(T) + {cur} == Members(R) + Stored(T[ns[cur].degree := cur]) + {};
  }

  /**
   * Linking the processed root cur with t, the root in its slot d: the
   * winner w, the one of cur and t that adopted the other, is processed
   * next and the slot is emptied.
   */
  lemma LinkStep(ns: seq<Node>, kids: seq<seq<int>>, R: seq<int>, T: seq<int>, cur: int, e: set<int>,
                 ns': seq<Node>, kids': seq<seq<int>>, w: int, l: int)
    requires Table(ns, kids, R, T, {cur}, e) && SelfRing(ns, cur)
    requires 0 <= ns[cur].degree < |T| && T[ns[cur].degree] != NIL
    requires (w == cur && l == T[ns[cur].degree]) || (w == T[ns[cur].degree] && l == cur)
    requires Arena(ns') && SelfRing(ns', w) && ns'[w].degree == ns[w].degree + 1
    requires Forest(ns', kids', Members(R) + Stored(T) + {cur} - {l}, e)
    requires |ns'| == |ns| && forall n :: 0 <= n < |ns| && n != cur && n != l && n != w && n !in Members(kids[w]) ==> ns'[n] == ns[n]
    ensures Table(ns', kids', R, T[ns[cur].degree := NIL], {w}, e)
  {
    var d := ns[cur].degree;
    var t := T[d];
    var tops := Members(R) + Stored(T) + {cur};
    StoredClear(ns, T, d);
    assert w in e;
    KidsNotTops(ns, kids, tops, e, w);
    assert Slots(ns', T[d := NIL]) by {
      forall d' | 0 <= d' < |T| && T[d := NIL][d'] != NIL ensures SelfRing(ns', T[d'])  && ns'[T[d']].degree == d' {
        assert T[d'] in Stored(T) && T[d'] != t;
      }
    }
    if R != [] {
      forall i | 0 <= i < |R| ensures ns'[R[i]] == ns[R[i]] {
        assert R[i] in Members(R);
      }
      RingFrame(ns, ns', R);
    }
    assert tops - {l} == Members(R) + Stored(T[d := NIL]) + {w};
  }

  /**
   * One link of the inner loop of consolidate (FibonacciHeap.cpp:221-235):
   * cur and the root t in the slot of cur's degree are linked, the one with
   * the smaller key, cur on a tie, adopting the other; the winner is
   * processed next, and its slot is to be emptied.
   */
  method LinkSlot(ns0: seq<Node>, ghost kids0: seq<seq<int>>, cur: int, ghost R: seq<int>, T: seq<int>, ghost e: set<int>)
    returns (ns: seq<Node>, ghost kids: seq<seq<int>>, w: int)
    requires Table(ns0, kids0, R, T, {cur}, e) && SelfRing(ns0, cur)
    requires 0 <= ns0[cur].degree < |T| && T[ns0[cur].degree] != NIL
    ensures w == if ns0[cur].key <= ns0[T[ns0[cur].degree]].key then cur else T[ns0[cur].degree]
    ensures Table(ns, kids, R, T[ns0[cur].degree := NIL], {w}, e) && SelfRing(ns, w)
    ensures ns[w].degree == ns0[cur].degree + 1
    ensures SameKeys(ns0, ns) && Untouched(ns0, ns, kids0, kids, e)
  {
    var d := ns0[cur].degree;
    var t := T[d];
    ghost var tops := Members(R) + Stored(T) + {cur};
    StoredClear(ns0, T, d);
    if ns0[cur].key <= ns0[t].key {
      ns, kids := Absorb(ns0, kids0, cur, t, tops, e);
      w := cur;
      LinkStep(ns0, kids0, R, T, cur, e, ns, kids, cur, t);
    } else {
      ns, kids := Submit(ns0, kids0, cur, t, tops, e);
      w := t;
      LinkStep(ns0, kids0, R, T, cur, e, ns, kids, t, cur);
    }
  }

  /**
   * The inner loop of consolidate (FibonacciHeap.cpp:215-237): while the
   * slot of cur's degree holds a root, the two are linked, the slot is
   * emptied and the winner goes on; an empty slot takes cur. A degree
   * outside the table is an access past its end, reported by ok == false;
   * with at most MERGE_ARRAY_SIZE elements it cannot happen.
   */
  method Settle(ns0: seq<Node>, ghost kids0: seq<seq<int>>, cur0: int, ghost R: seq<int>, T: array<int>, ghost e: set<int>)
    returns (ns: seq<Node>, ghost kids: seq<seq<int>>, ok: bool)
    requires Table(ns0, kids0, R, T[..], {cur0}, e) && SelfRing(ns0, cur0)
    modifies T
    ensures Arena(ns) && (ok ==> Table(ns, kids, R, T[..], {}, e))
    ensures !ok ==> MERGE_ARRAY_SIZE < |e|
    ensures SameKeys(ns0, ns) && Untouched(ns0, ns, kids0, kids, e)
  {
    ns, kids := ns0, kids0;
    var cur := cur0;
    var canProceed := true;
    while canProceed
      invariant canProceed ==> Table(ns, kids, R, T[..], {cur}, e) && SelfRing(ns, cur)
      invariant !canProceed ==> Table(ns, kids, R, T[..], {}, e)
      invariant SameKeys(ns0, ns) && Untouched(ns0, ns, kids0, kids, e)
      decreases if canProceed then |Stored(T[..])| + 1 else 0
    {
      ghost var tops := Members(R) + Stored(T[..]) + {cur};
      assert cur in e;
      DegreeBound(ns, kids, tops, e, cur);
      var d := ns[cur].degree;
      if d >= MERGE_ARRAY_SIZE {
        return ns, kids, false;
      }
      if T[d] == NIL {
        PutStep(ns, kids, R, T[..], cur, e);
        T[d] := cur;
        canProceed := false;
      } else {
        ghost var ns1, kids1 := ns, kids;
        StoredClear(ns, T[..], d);
        ns, kids, cur := LinkSlot(ns, kids, cur, R, T[..], e);
        FramesCompose(ns0, ns1, ns, kids0, kids1, kids, e);
        T[d] := NIL;
      }
    }
    ok := true;
  }

  /** Taking the first root of the list to be processed next. */
  lemma PopStep(ns: seq<Node>, kids: seq<seq<int>>, R: seq<int>, T: seq<int>, e: set<int>, ns': seq<Node>, cur: int, R': seq<int>)
    requires Table(ns, kids, R, T, {}, e) && R != [] && cur == R[0] && R' == R[1..]
    requires Arena(ns') && SelfRing(ns', cur) && (R' != [] ==> Ring(ns', R')) && Relinked(ns, ns', Members(R))
    ensures Table(ns', kids, R', T, {cur}, e) && SelfRing(ns', cur)
    ensures SameKeys(ns, ns') && Untouched(ns, ns', kids, kids, e)
  {
    var tops := Members(R) + Stored(T);
    assert Members(R) + Stored(T) + {} == tops;
    RelinkedTops(ns, ns', Members(R), tops, e);
    ForestFrame(ns, ns', kids, tops, e);
    RelinkedKeys(ns, ns', Members(R));
    assert Slots(ns', T) by {
      forall d | 0 <= d < |T| && T[d] != NIL ensures ns'[T[d]] == ns[T[d]] {
        assert T[d] in Stored(T);
      }
    }
    assert Members(R) == Members(R') + {cur} && cur !in Members(R') by {
      assert R == [cur] + R';
      assert Distinct(R);
    }
    assert tops == Members(R') + Stored(T) + {cur};
  }

  /** The first slot from i on that holds a root, or |T| when there is none. */
  function FirstSlot(T: seq<int>, i: int): (d: int)
    requires 0 <= i <= |T|
    ensures i <= d <= |T| && (d < |T| ==> T[d] != NIL) && forall j :: i <= j < d ==> T[j] == NIL
    decreases |T| - i
  {
    if i == |T| || T[i] != NIL then i else FirstSlot(T, i + 1)
  }

  /** When the table holds the tops of a non-empty forest, some slot is filled. */
  lemma SomeSlot(ns: seq<Node>, kids: seq<seq<int>>, T: seq<int>, e: set<int>)
    requires Forest(ns, kids, Stored(T), e) && e != {}
    ensures FirstSlot(T, 0) < |T|
  {
    if FirstSlot(T, 0) == |T| {
      assert Stored(T) == {};
      NoTops(ns, kids, e);
      assert false;
    }
  }

  /**
   * The state of the final loop of consolidate before slot i: list heads
   * the ring R of the filled slots below i and holds its least key, and
   * only the links of R differ from ns0; a root of R has the degree of
   * its slot.
   */
  ghost predicate Rebuilt(ns0: seq<Node>, ns: seq<Node>, S: seq<int>, list: int, R: seq<int>, i: int)
  {
    && Arena(ns) && Ring(ns, R) && list == R[0]
    && Relinked(ns0, ns, Members(R)) && Least(ns, list, Members(R))
    && (forall x :: x in Members(R) ==> 0 <= ns0[x].degree < i && ns0[x].degree < |S| && S[ns0[x].degree] == x)
    && (forall d :: 0 <= d < i && d < |S| && S[d] != NIL ==> S[d] in Members(R))
  }

  /**
   * One round of the final loop of consolidate (FibonacciHeap.cpp:246-249):
   * the root in slot i becomes a list of its own and is merged into the
   * root list.
   */
  method AddSlot(ns0: seq<Node>, ns: seq<Node>, ghost S: seq<int>, list: int, ghost R: seq<int>, i: int, other: int)
    returns (ns': seq<Node>, list': int, ghost R': seq<int>)
    requires Arena(ns0) && Slots(ns0, S) && Rebuilt(ns0, ns, S, list, R, i)
    requires 0 <= i < |S| && other == S[i] != NIL
    ensures Rebuilt(ns0, ns', S, list', R', i + 1)
    ensures list' == if ns[other].key < ns[list].key then other else list
  {
    assert other !in Members(R);
    assert SelfRing(ns, other);
    var ns1 := ListConstructor(ns, other, [other]);
    DetachedNone(ns);
    Single(ns1, other);
    ns', list', R' := MergeLists(ns1, list, other, R, [other]);
    RelinkedTrans(ns0, ns, ns', Members(R), Members(R) + Members([other]));
    assert Members(R) + (Members(R) + Members([other])) == Members(R');
    RelinkedKeys(ns, ns', Members(R) + Members([other]));
    LeastMerged(ns, ns', list, other, list', Members(R), {other});
    assert Members(R) + {other} == Members(R');
  }

  /**
   * The end of consolidate (FibonacciHeap.cpp:239-251): the list starts at
   * the first filled slot and every later filled slot is merged into it,
   * so the roots are those of the table, one per degree, and the list
   * holds a least key of the heap.
   */
  method Rebuild(ns0: seq<Node>, ghost kids: seq<seq<int>>, T: array<int>, ghost e: set<int>)
    returns (ns: seq<Node>, list: int, ghost R: seq<int>)
    requires Table(ns0, kids, [], T[..], {}, e) && e != {}
    ensures Arena(ns) && Ring(ns, R) && list == R[0] && Members(R) == Stored(T[..])
    ensures Forest(ns, kids, Members(R), e) && Least(ns, list, e)
    ensures forall x, y :: x in Members(R) && y in Members(R) && ns[x].degree == ns[y].degree ==> x == y
    ensures Relinked(ns0, ns, Members(R))
  {
    ghost var S := T[..];
    assert Members([]) + Stored(S) + {} == Stored(S);
    SomeSlot(ns0, kids, S, e);
    var i := 0;
    while T[i] == NIL
      invariant 0 <= i <= FirstSlot(S, 0)
      decreases FirstSlot(S, 0) - i
    {
      i := i + 1;
    }
    ns, list, R := ns0, T[i], [T[i]];
    Single(ns, list);
    i := i + 1;
    while i < MERGE_ARRAY_SIZE
      invariant 0 < i <= MERGE_ARRAY_SIZE
      invariant Rebuilt(ns0, ns, S, list, R, i)
    {
      if T[i] != NIL {
        ns, list, R := AddSlot(ns0, ns, S, list, R, i, T[i]);
      }
      i := i + 1;
    }
    RebuildDone(ns0, ns, kids, S, list, R, e);
  }

  /** After the last slot the roots are those of the table. */
  lemma RebuildDone(ns0: seq<Node>, ns: seq<Node>, kids: seq<seq<int>>, S: seq<int>, list: int, R: seq<int>, e: set<int>)
    requires Table(ns0, kids, [], S, {}, e) && Rebuilt(ns0, ns, S, list, R, |S|)
    ensures Members(R) == Stored(S)
    ensures Forest(ns, kids, Members(R), e) && Least(ns, list, e)
    ensures forall x, y :: x in Members(R) && y in Members(R) && ns[x].degree == ns[y].degree ==> x == y
  {
    forall y | y in Stored(S) ensures y in Members(R) {
      var d :| 0 <= d < |S| && S[d] != NIL && S[d] == y;
    }
    assert Members([]) + Stored(S) + {} == Members(R);
    RelinkedTops(ns0, ns, Members(R), Members(R), e);
    ForestFrame(ns0, ns, kids, Members(R), e);
    LeastTop(ns, kids, Members(R), e, list);
    forall x, y | x in Members(R) && y in Members(R) && ns[x].degree == ns[y].degree ensures x == y {
      assert Bare(ns[x]) == Bare(ns0[x]) && Bare(ns[y]) == Bare(ns0[y]);
    }
  }

  /**
   * consolidate (FibonacciHeap.cpp:198-252) on the root list R0 from
   * list0 over the elements e: every root is taken off the list and
   * settled in the degree table, and the table becomes the new root list.
   * The trees stay heap-ordered, no two roots share a degree and the list
   * ends at a least key of the heap. Only the links, parents, children,
   * degrees and marks of the elements change. ok is false only after an
   * access past the end of the table, which needs more than
   * MERGE_ARRAY_SIZE elements.
   */
  method Consolidate(ns0: seq<Node>, ghost kids0: seq<seq<int>>, list0: int, ghost R0: seq<int>, ghost e: set<int>)
    returns (ns: seq<Node>, ghost kids: seq<seq<int>>, list: int, ghost R: seq<int>, ok: bool)
    requires Arena(ns0) && Ring(ns0, R0) && list0 == R0[0] && Forest(ns0, kids0, Members(R0), e)
    ensures Arena(ns) && (ok ==> Ring(ns, R) && list == R[0] && Forest(ns, kids, Members(R), e))
    ensures ok ==> Least(ns, list, e)
    ensures ok ==> forall x, y :: x in Members(R) && y in Members(R) && ns[x].degree == ns[y].degree ==> x == y
    ensures |e| <= MERGE_ARRAY_SIZE ==> ok
    ensures SameKeys(ns0, ns) && Untouched(ns0, ns, kids0, kids, e)
  {
    var T := new int[MERGE_ARRAY_SIZE](_ => NIL);
    ns, kids, list, R := ns0, kids0, list0, R0;
    assert R0[0] in Members(R0);
    assert Stored(T[..]) == {};
    assert Members(R) + Stored(T[..]) + {} == Members(R0);
    while list != NIL
      invariant Table(ns, kids, R, T[..], {}, e)
      invariant (R == [] ==> list == NIL) && (R != [] ==> list == R[0])
      invariant SameKeys(ns0, ns) && Untouched(ns0, ns, kids0, kids, e)
      decreases |R|
    {
      ghost var ns1 := ns;
      var cur;
      ghost var R1;
      ns, cur, list, R1 := PopRoot(ns, list, R);
      PopStep(ns1, kids, R, T[..], e, ns, cur, R1);
      FramesCompose(ns0, ns1, ns, kids0, kids, kids, e);
      ghost var ns2, kids2 := ns, kids;
      ns, kids, ok := Settle(ns, kids, cur, R1, T, e);
      FramesCompose(ns0, ns2, ns, kids0, kids2, kids, e);
      if !ok {
        return;
      }
      R := R1;
    }
    assert R == [];
    ghost var ns3 := ns;
    ns, list, R := Rebuild(ns, kids, T, e);
    RelinkedUntouched(ns3, ns, kids, Members(R), e);
    FramesCompose(ns0, ns3, ns, kids0, kids, kids, e);
    ok := true;
  }
}
