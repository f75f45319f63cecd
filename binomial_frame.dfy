/**
 * What an operation of one BinomialHeap leaves alone in the shared store.
 * Several heaps keep their nodes and buffers in the same free store, so an
 * operation on one heap must not disturb another: every record outside the
 * heap's own elements is as before, and then every other heap over the
 * store is still a heap with the same handles.
 */
module BinomialFrame {
  import opened BinomialShape

  /** The records and child lists of the nodes outside e are as before; records past the old end are new. */
  ghost predicate RecordsKept(ns0: seq<Node>, kids0: seq<seq<int>>, ns: seq<Node>, kids: seq<seq<int>>, e: set<int>)
  {
    && |ns0| <= |ns| && |kids0| <= |kids|
    && forall n :: 0 <= n < |ns0| && n < |kids0| && n !in e ==> ns[n] == ns0[n] && kids[n] == kids0[n]
  }

  /** The buffers that did not point into e are as before; buffers past the old end are new. */
  ghost predicate BuffersKept(bs0: seq<Buffer>, bs: seq<Buffer>, e: set<int>)
  {
    |bs0| <= |bs| && forall b :: 0 <= b < |bs0| && bs0[b].node !in e ==> bs[b] == bs0[b]
  }

  /** From (ns0, kids0, bs0) to (ns, kids, bs) nothing outside the elements e changed. */
  ghost predicate KeptOutside(ns0: seq<Node>, kids0: seq<seq<int>>, bs0: seq<Buffer>,
                              ns: seq<Node>, kids: seq<seq<int>>, bs: seq<Buffer>, e: set<int>)
  {
    RecordsKept(ns0, kids0, ns, kids, e) && BuffersKept(bs0, bs, e)
  }

  /** mergeTree(a, b) touches a, b and the last child of a only. */
  lemma MergeTreeKept(ns: seq<Node>, k: seq<int>, a: int, b: int, e: set<int>)
    requires 0 <= a < |ns| && 0 <= b < |ns| && a != b && InRange(ns, k)
    requires a in e && b in e && forall j :: 0 <= j < |k| ==> k[j] in e
    ensures forall n :: 0 <= n < |ns| && n !in e ==> AfterMergeTree(ns, k, a, b)[n] == ns[n]
  {
  }

  /** Relinking the siblings of members of e only keeps every record outside e. */
  lemma SiblingsKept(ns0: seq<Node>, ns: seq<Node>, kids: seq<seq<int>>, l: seq<int>, e: set<int>)
    requires SiblingsOnly(ns0, ns, l) && forall i :: 0 <= i < |l| ==> l[i] in e
    ensures RecordsKept(ns0, kids, ns, kids, e)
  {
    forall n | 0 <= n < |ns0| && n !in e ensures ns[n] == ns0[n] {
      assert n !in l;
    }
  }

  /** Two steps on the records, each outside e, are one step outside e. */
  lemma RecordsTrans(ns0: seq<Node>, kids0: seq<seq<int>>, ns1: seq<Node>, kids1: seq<seq<int>>,
                     ns2: seq<Node>, kids2: seq<seq<int>>, e: set<int>)
    requires RecordsKept(ns0, kids0, ns1, kids1, e) && RecordsKept(ns1, kids1, ns2, kids2, e)
    ensures RecordsKept(ns0, kids0, ns2, kids2, e)
  {
  }

  /** Two steps, confined to e1 and to e2, are together confined to any e holding both. */
  lemma KeptTrans(ns0: seq<Node>, kids0: seq<seq<int>>, bs0: seq<Buffer>,
                  ns1: seq<Node>, kids1: seq<seq<int>>, bs1: seq<Buffer>,
                  ns2: seq<Node>, kids2: seq<seq<int>>, bs2: seq<Buffer>, e1: set<int>, e2: set<int>, e: set<int>)
    requires KeptOutside(ns0, kids0, bs0, ns1, kids1, bs1, e1) && e1 <= e
    requires KeptOutside(ns1, kids1, bs1, ns2, kids2, bs2, e2) && e2 <= e
    ensures KeptOutside(ns0, kids0, bs0, ns2, kids2, bs2, e)
  {
  }

  /** The records and child lists of e2 are kept when the step stayed outside e2. */
  lemma KeptRecords(ns0: seq<Node>, kids0: seq<seq<int>>, bs0: seq<Buffer>,
                    ns: seq<Node>, kids: seq<seq<int>>, bs: seq<Buffer>, e: set<int>, e2: set<int>)
    requires KeptOutside(ns0, kids0, bs0, ns, kids, bs, e) && e !! e2
    requires |kids0| == |ns0| && forall n :: n in e2 ==> 0 <= n < |ns0|
    ensures forall n :: n in e2 ==> ns[n] == ns0[n] && kids[n] == kids0[n]
  {
  }

  /** A forest over e2 depends on the records and child lists of e2 only. */
  lemma KeptForest(ns0: seq<Node>, kids0: seq<seq<int>>, ns: seq<Node>, kids: seq<seq<int>>, r: seq<int>, e2: set<int>)
    requires Forest(ns0, kids0, r, e2) && |kids| == |ns| && |ns0| <= |ns|
    requires forall n :: n in e2 ==> ns[n] == ns0[n] && kids[n] == kids0[n]
    ensures Forest(ns, kids, r, e2)
  {
    forall n | n in e2 ensures KidsOk(ns, kids, e2, n) && Placed(ns, kids, r, e2, n) {
      assert KidsOk(ns0, kids0, e2, n) && Placed(ns0, kids0, r, e2, n);
      assert Chain(ns, ns[n].child, kids[n]);
    }
  }

  /** The buffers of e2 and the handles that reach e2 are kept when the step stayed outside e2. */
  lemma KeptBuffers(ns0: seq<Node>, bs0: seq<Buffer>, ns: seq<Node>, bs: seq<Buffer>, e: set<int>, e2: set<int>)
    requires (forall n :: n in e2 ==> 0 <= n < |ns0| <= |ns|) && Buffered(ns0, bs0, e2) && Linked(ns, bs)
    requires forall n :: n in e2 ==> ns[n] == ns0[n]
    requires |bs0| <= |bs| && forall b :: 0 <= b < |bs0| && bs0[b].node !in e ==> bs[b] == bs0[b]
    requires e !! e2
    ensures Buffered(ns, bs, e2) && HandleMap(ns, bs, e2) == HandleMap(ns0, bs0, e2)
  {
    forall n | n in e2 ensures bs[ns[n].buffer] == bs0[ns0[n].buffer] {
    }
    forall b | b in HandleMap(ns, bs, e2) ensures b < |bs0| && bs[b] == bs0[b] {
      var n := bs[b].node;
      assert ns[n].buffer == b;
    }
  }

  /**
   * Another heap over the store, whose elements e2 the step did not touch,
   * is still a heap with the same root list, minimum, records and handles.
   */
  lemma OtherHeapKept(ns0: seq<Node>, kids0: seq<seq<int>>, bs0: seq<Buffer>,
                      ns: seq<Node>, kids: seq<seq<int>>, bs: seq<Buffer>, e: set<int>,
                      h: int, m: int, r: seq<int>, e2: set<int>)
    requires HeapOk(ns0, kids0, bs0, h, m, r, e2) && |kids| == |ns| && Linked(ns, bs)
    requires KeptOutside(ns0, kids0, bs0, ns, kids, bs, e) && e !! e2
    ensures HeapOk(ns, kids, bs, h, m, r, e2)
    ensures forall n :: n in e2 ==> ns[n] == ns0[n]
    ensures HandleMap(ns, bs, e2) == HandleMap(ns0, bs0, e2)
  {
    KeptRecords(ns0, kids0, bs0, ns, kids, bs, e, e2);
    KeptForest(ns0, kids0, ns, kids, r, e2);
    KeptBuffers(ns0, bs0, ns, bs, e, e2);
    forall k | 0 <= k < |r| ensures ns[r[k]] == ns0[r[k]] {
      assert r[k] in e2;
    }
  }
}
