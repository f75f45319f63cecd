/**
 * What an operation of one FibonacciHeap leaves alone in the shared store:
 * when every record and child ring outside the heap's own elements is as
 * before, every other heap over the store is still a heap with the same
 * handles.
 */
module FibonacciFrame {
  import opened FibonacciRing
  import opened FibonacciForest
  import opened FibonacciLists

  /**
   * From (ns0, kids0) to (ns, kids) nothing outside the elements e changed:
   * the records and child rings of the other nodes are as before. Records
   * past the old end of the store are new.
   */
  ghost predicate KeptOutside(ns0: seq<Node>, kids0: seq<seq<int>>, ns: seq<Node>, kids: seq<seq<int>>, e: set<int>)
  {
    && |ns0| <= |ns| && |kids0| <= |kids|
    && forall n :: 0 <= n < |ns0| && n < |kids0| && n !in e ==> ns[n] == ns0[n] && kids[n] == kids0[n]
  }

  /** A ring depends on the links of its members only, also in a grown store. */
  lemma RingKept(ns0: seq<Node>, ns: seq<Node>, r: seq<int>)
    requires Ring(ns0, r) && |ns0| <= |ns|
    requires forall i :: 0 <= i < |r| ==> ns[r[i]] == ns0[r[i]]
    ensures Ring(ns, r)
  {
    forall i | 0 <= i < |r| ensures RingAt(ns, r, i) {
      assert RingAt(ns0, r, i);
    }
  }

  /** A forest over e2 depends on the records and child rings of e2 only. */
  lemma KeptForest(ns0: seq<Node>, kids0: seq<seq<int>>, ns: seq<Node>, kids: seq<seq<int>>, tops: set<int>, e2: set<int>)
    requires Forest(ns0, kids0, tops, e2) && |kids| == |ns| && |ns0| <= |ns|
    requires forall n :: n in e2 ==> ns[n] == ns0[n] && kids[n] == kids0[n]
    ensures Forest(ns, kids, tops, e2)
  {
    forall m | m in e2 ensures KidsOk(ns, kids, e2, m) && Placed(ns, kids, tops, e2, m) {
      assert KidsOk(ns0, kids0, e2, m) && Placed(ns0, kids0, tops, e2, m);
      if kids[m] != [] {
        forall i | 0 <= i < |kids[m]| ensures kids[m][i] in e2 {
          assert KidOk(ns0, e2, m, kids0[m][i]);
        }
        RingKept(ns0, ns, kids[m]);
      }
      forall j | 0 <= j < |kids[m]| ensures KidOk(ns, e2, m, kids[m][j]) {
        assert KidOk(ns0, e2, m, kids0[m][j]);
      }
    }
  }

  /**
   * Another heap over the store, whose elements e2 the step did not touch,
   * is still a heap with the same list, root ring, records and handles.
   */
  lemma OtherHeapKept(ns0: seq<Node>, kids0: seq<seq<int>>, ns: seq<Node>, kids: seq<seq<int>>, e: set<int>,
                      list: int, R: seq<int>, e2: set<int>)
    requires HeapOk(ns0, kids0, list, R, e2) && |kids| == |ns|
    requires KeptOutside(ns0, kids0, ns, kids, e) && e !! e2
    ensures HeapOk(ns, kids, list, R, e2)
    ensures forall n :: n in e2 ==> ns[n] == ns0[n]
    ensures KeyMap(ns, e2) == KeyMap(ns0, e2)
  {
    assert forall n :: n in e2 ==> ns[n] == ns0[n] && kids[n] == kids0[n];
    KeptForest(ns0, kids0, ns, kids, Members(R), e2);
    if R != [] {
      forall i | 0 <= i < |R| ensures R[i] in e2 {
        assert R[i] in Members(R);
      }
      RingKept(ns0, ns, R);
    }
  }
}
