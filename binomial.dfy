/**
 * BinomialHeap (Binomial-heap/BinomialHeap.cpp): a mergeable min-heap of
 * `int` keys whose `insert` hands out a ManipulationPointer through which an
 * element can later be read, changed or erased.
 *
 * All heaps share one `Memory`: the C++ free store, with node records and
 * buffer records addressed by index. A handle is the index of a buffer (NIL
 * for an empty ManipulationPointer); buffer and node point at each other,
 * and `swapValues` moves a buffer together with its value, so a handle
 * always reaches its own key.
 */
module Binomial {
  import opened Results
  import opened BinomialShape
  import opened BinomialLink
  import opened BinomialTree
  import opened BinomialChange
  import opened BinomialFrame

  /** The free store shared by all heaps. */
  class Memory {
    var nodes: seq<Node>
    var buffers: seq<Buffer>
    /** The child list of every node, in sibling order. */
    ghost var kids: seq<seq<int>>

    ghost predicate Valid()
      reads this
    {
      |kids| == |nodes| && Linked(nodes, buffers)
    }

    constructor ()
      ensures Valid() && nodes == [] && buffers == [] && kids == []
    {
      nodes, buffers, kids := [], [], [];
    }

    /**
     * The allocations of insert (BinomialHeap.cpp:41-45): a new node holding
     * value, with degree 0 and no parent, child or sibling, and a new live
     * buffer, the two pointing at each other.
     */
    method Allocate(value: int) returns (n: int, b: int)
      requires Valid()
      modifies this
      ensures Valid() && n == |old(nodes)| && b == |old(buffers)|
      ensures nodes == old(nodes) + [Node(value, 0, NIL, NIL, NIL, b)]
      ensures buffers == old(buffers) + [Buffer(n, false)] && kids == old(kids) + [[]]
    {
      n, b := |nodes|, |buffers|;
      nodes := nodes + [Node(value, 0, NIL, NIL, NIL, NIL)];
      buffers := buffers + [Buffer(n, false)];
      nodes := nodes[n := nodes[n].(buffer := b)];
      kids := kids + [[]];
    }
  }

  /** A heap is empty exactly when its head is NIL. */
  lemma EmptyHead(ns: seq<Node>, kids: seq<seq<int>>, bs: seq<Buffer>, head: int, minimum: int, r: seq<int>, e: set<int>)
    requires HeapOk(ns, kids, bs, head, minimum, r, e)
    ensures head == NIL <==> r == []
    ensures head == NIL <==> e == {}
  {
    if r != [] {
      assert r[0] in e;
    }
  }

  /** The empty heap satisfies the invariant over any store. */
  lemma EmptyHeapOk(ns: seq<Node>, kids: seq<seq<int>>, bs: seq<Buffer>)
    requires |kids| == |ns|
    ensures HeapOk(ns, kids, bs, NIL, NIL, [], {})
  {
  }

  /**
   * Where the sift-up of a lowered key leaves the minimum (BinomialHeap.cpp:
   * 196-198): if every value is at least the smaller of key and the old
   * minimum mv, and the root m holds mv (or key, when key <= mv), then the
   * root chosen is least; and a key no larger than mv has reached a root.
   */
  lemma DecreaseExact(ns: seq<Node>, kids: seq<seq<int>>, bs: seq<Buffer>, h: int, m: int, r: seq<int>, e: set<int>, cur: int, key: int, mv: int)
    requires HeapOk(ns, kids, bs, h, m, r, e) && cur in e && ns[cur].value == key
    requires ns[cur].parent == NIL || ns[ns[cur].parent].value < key
    requires AtLeast(ns, e, if key < mv then key else mv)
    requires ns[m].value == mv || (ns[m].value == key && key <= mv)
    ensures key <= mv ==> ns[cur].parent == NIL
    ensures var m' := if ns[cur].parent == NIL && key < ns[m].value then cur else m;
      forall n :: n in e ==> ns[m'].value <= ns[n].value
  {
    if ns[cur].parent != NIL {
      ParentAbove(ns, kids, r, e, cur);
      RootBelow(ns, kids, r, e, ns[cur].parent);
      var i :| 0 <= i < |r| && ns[r[i]].value <= ns[ns[cur].parent].value;
      assert r[i] in e;
    }
  }

  /** An element of a forest is one of its roots exactly when it has no parent. */
  lemma RootIffParentless(ns: seq<Node>, kids: seq<seq<int>>, r: seq<int>, e: set<int>, x: int)
    requires Forest(ns, kids, r, e) && x in e
    ensures x in r <==> ns[x].parent == NIL
  {
    assert Placed(ns, kids, r, e, x);
    if x in r {
      var i :| 0 <= i < |r| && r[i] == x;
    }
  }

  /** Any root may serve as the cached minimum. */
  lemma MoveMinimum(ns: seq<Node>, kids: seq<seq<int>>, bs: seq<Buffer>, head: int, m: int, r: seq<int>, e: set<int>, x: int)
    requires HeapOk(ns, kids, bs, head, m, r, e) && x in r
    ensures HeapOk(ns, kids, bs, head, x, r, e)
  {
  }

  /**
   * A heap o is undisturbed by an operation of another heap over the same
   * store, which took the store from (ns0, kids0, bs0) to its present state
   * changing nothing outside the elements e, when e and o's elements are
   * disjoint: o, a heap before, is still one, with the same records, the
   * same handles and an exact cached minimum if it had one.
   */
  lemma Undisturbed(ns0: seq<Node>, kids0: seq<seq<int>>, bs0: seq<Buffer>, o: BinomialHeap, e: set<int>)
    requires o.mem.Valid() && HeapOk(ns0, kids0, bs0, o.head, o.minimum, o.Roots, o.Elems)
    requires KeptOutside(ns0, kids0, bs0, o.mem.nodes, o.mem.kids, o.mem.buffers, e) && e !! o.Elems
    ensures o.Valid() && o.Handles() == HandleMap(ns0, bs0, o.Elems)
    ensures forall n :: n in o.Elems ==> o.mem.nodes[n] == ns0[n]
    ensures o.Elems != {} && AtLeast(ns0, o.Elems, ns0[o.minimum].value) ==> o.MinExact()
  {
    OtherHeapKept(ns0, kids0, bs0, o.mem.nodes, o.mem.kids, o.mem.buffers, e, o.head, o.minimum, o.Roots, o.Elems);
    if o.Elems != {} {
      EmptyHead(o.mem.nodes, o.mem.kids, o.mem.buffers, o.head, o.minimum, o.Roots, o.Elems);
      assert o.minimum in o.Elems;
    }
  }


  class BinomialHeap {
    const mem: Memory
    /** head_: the first root; NIL when the heap is empty. */
    var head: int
    /** minimum_: the cached root with the smallest value. */
    var minimum: int
    /** The root list, in sibling order. */
    ghost var Roots: seq<int>
    /** The nodes of this heap. */
    ghost var Elems: set<int>

    /** The heap invariant, on the current contents of the fields and the store. */
    ghost predicate Valid()
      reads this, mem
    {
      mem.Valid() && HeapOk(mem.nodes, mem.kids, mem.buffers, head, minimum, Roots, Elems)
    }

    /** Every live handle of this heap with the value getValue reads through it. */
    ghost function Handles(): map<int, int>
      reads this, mem
    {
      HandleMap(mem.nodes, mem.buffers, Elems)
    }

    /** The cached minimum really is the least value in the heap. */
    ghost predicate MinExact()
      reads this, mem
    {
      Elems != {} ==>
        0 <= minimum < |mem.nodes| &&
        forall n :: n in Elems && 0 <= n < |mem.nodes| ==> mem.nodes[minimum].value <= mem.nodes[n].value
    }

    /**
     * The element of live handle h is a root, or holds a value above the
     * cached minimum: then lowering its key to the minimum's brings it to a
     * root.
     */
    ghost predicate Liftable(h: int)
      reads this, mem
    {
      && 0 <= h < |mem.buffers| && 0 <= mem.buffers[h].node < |mem.nodes| && 0 <= minimum < |mem.nodes|
      && (mem.nodes[mem.buffers[h].node].value > mem.nodes[minimum].value || mem.buffers[h].node in Roots)
    }

    /** BinomialHeap() (BinomialHeap.cpp:28): an empty heap over the given store. */
    constructor (m: Memory)
      requires m.Valid()
      ensures Valid() && mem == m && Elems == {} && Roots == [] && head == NIL
    {
      mem := m;
      head, minimum := NIL, NIL;
      Roots, Elems := [], {};
    }

    /**
     * The private list constructor BinomialHeap(node) (BinomialHeap.cpp:244-254):
     * a heap whose root list is the sibling chain from node, every root's
     * parent cleared and the first root of least value as its minimum.
     */
    constructor FromList(m: Memory, node: int, ghost r: seq<int>, ghost e: set<int>)
      requires m.Valid() && TreeList(m.nodes, m.kids, m.buffers, node, r, e)
      modifies m
      ensures Valid() && MinExact() && mem == m
      ensures head == node && Roots == r && Elems == e
      ensures m.nodes == Orphaned(old(m.nodes), r) && m.buffers == old(m.buffers) && m.kids == old(m.kids)
      ensures r != [] ==> LeastFirst(m.nodes, r, minimum)
    {
      var ns, mi := ClearParents(m.nodes, node, r);
      OrphanedChain(m.nodes, node, r);
      OrphanedLinks(m.nodes, m.buffers, r, e);
      mem := m;
      head, minimum := node, mi;
      Roots, Elems := r, e;
      new;
      m.nodes := ns;
      if r != [] {
        LeastRootIsLeast(ns, m.kids, r, e, mi);
      }
    }

    /** isEmpty (BinomialHeap.cpp:36-38). */
    method IsEmpty() returns (r: bool)
      requires Valid()
      ensures r <==> Elems == {}
      ensures r <==> Handles() == map[]
    {
      r := head == NIL;
      if !r {
        var n := Roots[0];
        assert n in Elems;
        assert mem.nodes[n].buffer in Handles();
      }
    }

    /** getMin (BinomialHeap.cpp:52-57): the cached minimum's value; an error on an empty heap. */
    method GetMin() returns (r: Result<int>)
      requires Valid()
      ensures Elems == {} <==> r == Err(EmptyHeap)
      ensures r.Ok? ==> r.value == mem.nodes[minimum].value && r.value in Handles().Values
      ensures r.Ok? && MinExact() ==> forall b :: b in Handles() ==> r.value <= Handles()[b]
    {
      if head == NIL {
        return Err(EmptyHeap);
      }
      assert minimum in Elems;
      assert mem.nodes[minimum].buffer in Handles();
      r := Ok(mem.nodes[minimum].value);
    }

    /**
     * getValue (BinomialHeap.cpp:170-178): the key a handle reaches; an error
     * for an empty handle or one whose element was deleted.
     */
    method GetValue(h: int) returns (r: Result<int>)
      requires mem.Valid()
      requires h == NIL || 0 <= h < |mem.buffers|
      ensures h == NIL ==> r == Err(EmptyHandle)
      ensures h != NIL && mem.buffers[h].deleted ==> r == Err(DeletedElement)
      ensures h != NIL && !mem.buffers[h].deleted ==> r == Ok(mem.nodes[mem.buffers[h].node].value)
      ensures Valid() && h in Handles() ==> r == Ok(Handles()[h])
    {
      if h == NIL {
        return Err(EmptyHandle);
      }
      if mem.buffers[h].deleted {
        return Err(DeletedElement);
      }
      r := Ok(mem.nodes[mem.buffers[h].node].value);
    }
    /**
     * change (BinomialHeap.cpp:180-228): the key reached through handle h
     * becomes key and every other handle reads what it read before; an empty
     * or deleted handle is an error that changes nothing. Only the elements
     * of this heap are touched. An exact cached minimum stays exact unless
     * the minimum itself was raised; a raised minimum is exact again when
     * its key sank to a leaf, where the rescan runs. A key lowered to at
     * most the minimum ends on a root.
     */
    method Change(h: int, key: int) returns (res: Outcome)
      requires Valid() && (h == NIL || 0 <= h < |mem.buffers|)
      requires h != NIL && !mem.buffers[h].deleted ==> mem.buffers[h].node in Elems
      modifies this, mem
      ensures Valid() && Elems == old(Elems) && Roots == old(Roots) && head == old(head) && mem.kids == old(mem.kids)
      ensures h == NIL ==> res == Fail(EmptyHandle)
      ensures h != NIL && old(mem.buffers[h].deleted) ==> res == Fail(DeletedElement)
      ensures res.Pass? <==> h in old(Handles())
      ensures res.Fail? || key == old(Handles())[h] ==>
        mem.nodes == old(mem.nodes) && mem.buffers == old(mem.buffers) && minimum == old(minimum)
      ensures res.Pass? ==> Handles() == old(Handles())[h := key]
      ensures |mem.nodes| == |old(mem.nodes)| && |mem.buffers| == |old(mem.buffers)|
      ensures forall n :: 0 <= n < |mem.nodes| && n !in Elems ==> mem.nodes[n] == old(mem.nodes[n])
      ensures forall b :: 0 <= b < |mem.buffers| ==> mem.buffers[b].deleted == old(mem.buffers[b].deleted)
      ensures KeptOutside(old(mem.nodes), old(mem.kids), old(mem.buffers), mem.nodes, mem.kids, mem.buffers, Elems)
      ensures res.Pass? && old(MinExact()) && (key <= old(Handles())[h] || old(mem.buffers[h].node) != old(minimum)) ==> MinExact()
      ensures res.Pass? && key > old(Handles())[h] && old(mem.buffers[h].node) == old(minimum) && mem.nodes[mem.buffers[h].node].child == NIL ==>
        MinExact()
      ensures res.Pass? && old(MinExact()) && key <= old(mem.nodes[minimum].value) && key < old(Handles())[h] ==>
        mem.buffers[h].node in Roots
    {
      if h == NIL {
        return Fail(EmptyHandle);
      }
      if mem.buffers[h].deleted {
        return Fail(DeletedElement);
      }
      var cur := mem.buffers[h].node;
      var v := mem.nodes[cur].value;
      assert h in Handles() && Handles()[h] == v;
      if key < v {
        Decrease(cur, key);
      } else if key > v {
        Increase(cur, key);
      } else {
        assert Handles() == Handles()[h := key];
      }
      res := Pass;
    }

    /**
     * The decrease branch of change (BinomialHeap.cpp:188-198): node c takes
     * the smaller key, which climbs by swapValues; where it stops at a root
     * smaller than the cached minimum, that root becomes minimum_.
     */
    method Decrease(c: int, key: int)
      requires Valid() && c in Elems && key < mem.nodes[c].value
      modifies this, mem
      ensures Valid() && Elems == old(Elems) && Roots == old(Roots) && head == old(head) && mem.kids == old(mem.kids)
      ensures |mem.nodes| == |old(mem.nodes)| && |mem.buffers| == |old(mem.buffers)|
      ensures forall n :: 0 <= n < |mem.nodes| && n !in Elems ==> mem.nodes[n] == old(mem.nodes[n])
      ensures forall b :: 0 <= b < |mem.buffers| ==> mem.buffers[b].deleted == old(mem.buffers[b].deleted)
      ensures Handles() == old(Handles())[old(mem.nodes[c].buffer) := key]
      ensures KeptOutside(old(mem.nodes), old(mem.kids), old(mem.buffers), mem.nodes, mem.kids, mem.buffers, Elems)
      ensures old(MinExact()) ==> MinExact()
      ensures old(MinExact()) && key <= old(mem.nodes[minimum].value) ==> mem.buffers[old(mem.nodes[c].buffer)].node in Roots
    {
      ghost var exact, mv := MinExact(), mem.nodes[minimum].value;
      DecreaseStarts(mem.nodes, mem.kids, mem.buffers, head, minimum, Roots, Elems, c, key);
      NewValueHandles(mem.nodes, mem.buffers, Elems, c, key);
      var ns1 := mem.nodes[c := mem.nodes[c].(value := key)];
      var ns, bs, cur := SiftUp(ns1, mem.buffers, mem.kids, head, minimum, Roots, Elems, c);
      var m := minimum;
      if ns[cur].parent == NIL && key < ns[minimum].value {
        assert Placed(ns, mem.kids, Roots, Elems, cur);
        MoveMinimum(ns, mem.kids, bs, head, minimum, Roots, Elems, cur);
        m := cur;
      }
      if exact {
        NewValueBound(mem.nodes, Elems, c, key, if key < mv then key else mv);
        DecreaseExact(ns, mem.kids, bs, head, minimum, Roots, Elems, cur, key, mv);
        if key <= mv {
          assert Placed(ns, mem.kids, Roots, Elems, cur);
        }
      }
      ChangedOnly(mem.nodes, mem.buffers, ns, bs, Elems, c, key);
      Install(ns, bs, mem.kids, head, m, Roots, Elems);
    }

    /**
     * The increase branch of change (BinomialHeap.cpp:199-227): node c takes
     * the larger key, which sinks by swapValues towards the least child;
     * unless that returned early, a raised minimum is found again by a scan
     * of the roots. The sift returned early exactly when the key ends on a
     * node with children, so a raised minimum whose key sinks to a leaf
     * leaves the cached minimum exact whatever it was before.
     */
    method Increase(c: int, key: int)
      requires Valid() && c in Elems && key > mem.nodes[c].value
      modifies this, mem
      ensures Valid() && Elems == old(Elems) && Roots == old(Roots) && head == old(head) && mem.kids == old(mem.kids)
      ensures |mem.nodes| == |old(mem.nodes)| && |mem.buffers| == |old(mem.buffers)|
      ensures forall n :: 0 <= n < |mem.nodes| && n !in Elems ==> mem.nodes[n] == old(mem.nodes[n])
      ensures forall b :: 0 <= b < |mem.buffers| ==> mem.buffers[b].deleted == old(mem.buffers[b].deleted)
      ensures Handles() == old(Handles())[old(mem.nodes[c].buffer) := key]
      ensures KeptOutside(old(mem.nodes), old(mem.kids), old(mem.buffers), mem.nodes, mem.kids, mem.buffers, Elems)
      ensures old(MinExact()) && c != old(minimum) ==> MinExact()
      ensures c == old(minimum) && mem.nodes[mem.buffers[old(mem.nodes[c].buffer)].node].child == NIL ==> MinExact()
    {
      var wasMin := c == minimum;
      ghost var exact, mv := MinExact(), mem.nodes[minimum].value;
      IncreaseStarts(mem.nodes, mem.kids, mem.buffers, head, minimum, Roots, Elems, c, key);
      NewValueHandles(mem.nodes, mem.buffers, Elems, c, key);
      var ns1 := mem.nodes[c := mem.nodes[c].(value := key)];
      var ns, bs, stopped := SiftDown(ns1, mem.buffers, mem.kids, head, minimum, Roots, Elems, c);
      var m := minimum;
      if !stopped && wasMin {
        assert Distinct(Roots);
        m := ScanMinimum(ns, head, Roots);
        LeastRootIsLeast(ns, mem.kids, Roots, Elems, m);
        MoveMinimum(ns, mem.kids, bs, head, minimum, Roots, Elems, m);
      }
      if exact && !wasMin {
        NewValueBound(mem.nodes, Elems, c, key, mv);
        assert AtLeast(ns, Elems, mv);
      }
      ChangedOnly(mem.nodes, mem.buffers, ns, bs, Elems, c, key);
      Install(ns, bs, mem.kids, head, m, Roots, Elems);
    }

    /**
     * insert (BinomialHeap.cpp:40-50): a new node and buffer for key, made a
     * one-element heap by the list constructor and merged in. The handle
     * returned is the new buffer; it reads key, every other handle reads
     * what it read before, and the cached minimum is exact.
     */
    method Insert(key: int) returns (h: int)
      requires Valid()
      modifies this, mem
      ensures Valid() && MinExact()
      ensures h == |old(mem.buffers)| && |mem.buffers| == h + 1
      ensures Elems == old(Elems) + {|old(mem.nodes)|}
      ensures Handles() == old(Handles())[h := key]
      ensures KeptOutside(old(mem.nodes), old(mem.kids), old(mem.buffers), mem.nodes, mem.kids, mem.buffers, old(Elems))
    {
      ghost var H0, e0 := Handles(), Elems;
      var element, n, b := NewSingleton(key);
      ghost var ns2, bs1 := mem.nodes, mem.buffers;
      Absorb(element);
      assert Elems == e0 + {n} && mem.buffers == bs1;
      MergedHandles(ns2, mem.nodes, bs1, e0, {n});
      MapAddOne(H0, b, key);
      h := b;
    }

    /**
     * The first half of insert: a new node and buffer for key in the shared
     * memory, made a one-element heap by the list constructor. This heap
     * keeps its elements and handles.
     */
    method NewSingleton(key: int) returns (element: BinomialHeap, n: int, b: int)
      requires Valid()
      modifies mem
      ensures fresh(element) && Valid() && element.Valid() && element.MinExact() && element.mem == mem
      ensures n == |old(mem.nodes)| && b == |old(mem.buffers)| && |mem.buffers| == b + 1
      ensures element.Elems == {n} && Elems !! element.Elems && Elems == old(Elems)
      ensures HandleMap(mem.nodes, mem.buffers, Elems) == old(Handles())
      ensures HandleMap(mem.nodes, mem.buffers, {n}) == map[b := key]
      ensures KeptOutside(old(mem.nodes), old(mem.kids), old(mem.buffers), mem.nodes, mem.kids, mem.buffers, {})
    {
      ghost var H0, e0 := Handles(), Elems;
      assert |mem.nodes| !in e0;
      GrowKeepsHeap(mem.nodes, mem.kids, mem.buffers, head, minimum, Roots, Elems,
        Node(key, 0, NIL, NIL, NIL, |mem.buffers|), Buffer(|mem.nodes|, false));
      n, b := mem.Allocate(key);
      ghost var ns1, bs1 := mem.nodes, mem.buffers;
      assert HandleMap(ns1, bs1, e0) == H0;
      SingletonList(ns1, mem.kids, bs1, n);
      element := new BinomialHeap.FromList(mem, n, [n], {n});
      ghost var ns2 := mem.nodes;
      assert ns2 == Orphaned(ns1, [n]) && mem.buffers == bs1 && Elems == e0;
      GrownKept(old(mem.nodes), old(mem.kids), old(mem.buffers), Node(key, 0, NIL, NIL, NIL, b), Buffer(n, false));
      OrphanedKeys(ns1, [n]);
      SameKeysKeepBuffers(ns1, ns2, bs1, e0);
      HeapFrame(ns1, ns2, mem.kids, bs1, head, minimum, Roots, e0);
      SingleHandle(ns2, bs1, n);
      assert ns2[n].buffer == b && ns2[n].value == key;
    }

    /**
     * erase (BinomialHeap.cpp:229-239): the key of handle h is changed to the
     * minimum's, which should bring its element to a root; that node is made
     * minimum_ and extracted. Handle h is then deleted and every other handle
     * reads what it read before; an empty or deleted handle is an error that
     * changes nothing. When the element does not end on a root, the
     * predecessor walk of extractMin (BinomialHeap.cpp:72-74) runs off the
     * root list: Undefined, with the heap as change left it. With an exact
     * cached minimum that happens exactly when the element holds the minimum's
     * value without being a root.
     */
    method Erase(h: int) returns (res: Outcome)
      requires Valid() && (h == NIL || 0 <= h < |mem.buffers|)
      requires h != NIL && !mem.buffers[h].deleted ==> mem.buffers[h].node in Elems
      modifies this, mem
      ensures Valid()
      ensures h == NIL ==> res == Fail(EmptyHandle)
      ensures h != NIL && old(mem.buffers[h].deleted) ==> res == Fail(DeletedElement)
      ensures res.Pass? || res == Fail(Undefined) <==> h in old(Handles())
      ensures res.Fail? && res.error != Undefined ==> mem.nodes == old(mem.nodes) && mem.buffers == old(mem.buffers) && Elems == old(Elems)
      ensures res == Fail(Undefined) ==> Elems == old(Elems) && Handles() == old(Handles())[h := old(mem.nodes[minimum].value)]
      ensures old(MinExact()) && h in old(Handles()) ==>
        (res.Pass? <==> old(mem.nodes[mem.buffers[h].node].value) > old(mem.nodes[minimum].value) || old(mem.buffers[h].node) in old(Roots))
      ensures |mem.buffers| == |old(mem.buffers)|
      ensures res.Pass? ==> Handles() == old(Handles()) - {h} && mem.buffers[h].deleted
      ensures res.Pass? ==> Elems < old(Elems) && |Elems| == |old(Elems)| - 1
      ensures KeptOutside(old(mem.nodes), old(mem.kids), old(mem.buffers), mem.nodes, mem.kids, mem.buffers, old(Elems))
    {
      if h == NIL {
        return Fail(EmptyHandle);
      }
      if mem.buffers[h].deleted {
        return Fail(DeletedElement);
      }
      ghost var H0, e0, mv := Handles(), Elems, mem.nodes[minimum].value;
      assert h in H0;
      var lifted := LiftToMinimum(h);
      if !lifted {
        return Fail(Undefined);
      }
      var x := minimum;
      ghost var ns1, bs1 := mem.nodes, mem.buffers;
      var min := ExtractMin();
      assert Elems == e0 - {x} && mem.buffers == bs1[h := Buffer(NIL, true)];
      ExtractedHandles(ns1, bs1, e0, x, mem.nodes, mem.buffers);
      MapUpdateRemove(H0, h, mv);
      RemoveOne(e0, x);
      assert mem.buffers[h].deleted;
      res := Pass;
    }

    /**
     * The first two steps of erase (BinomialHeap.cpp:236-237): handle h takes
     * the minimum's key, and its node becomes minimum_ when it is a root
     * (lifted). With an exact cached minimum the node is a root unless it
     * held the minimum's value without being one.
     */
    method LiftToMinimum(h: int) returns (lifted: bool)
      requires Valid() && h in Handles()
      modifies this, mem
      ensures Valid() && Elems == old(Elems) && |mem.buffers| == |old(mem.buffers)|
      ensures Handles() == old(Handles())[h := old(mem.nodes[minimum].value)]
      ensures lifted <==> mem.buffers[h].node in Roots
      ensures lifted ==> minimum == mem.buffers[h].node && mem.nodes[minimum].buffer == h
      ensures old(MinExact()) ==> (lifted <==> old(Liftable(h)))
      ensures KeptOutside(old(mem.nodes), old(mem.kids), old(mem.buffers), mem.nodes, mem.kids, mem.buffers, Elems)
    {
      LowerToMinimum(h);
      var x := mem.buffers[h].node;
      RootIffParentless(mem.nodes, mem.kids, Roots, Elems, x);
      lifted := mem.nodes[x].parent == NIL;
      if lifted {
        SetMinimum(x);
      }
    }

    /**
     * change(h, minimum_->value), the first step of erase
     * (BinomialHeap.cpp:236): handle h takes the minimum's key. With an exact
     * cached minimum its element ends on a root unless it held the minimum's
     * value without being one.
     */
    method LowerToMinimum(h: int)
      requires Valid() && h in Handles()
      modifies this, mem
      ensures Valid() && Elems == old(Elems) && Roots == old(Roots) && head == old(head)
      ensures |mem.buffers| == |old(mem.buffers)| && mem.buffers[h].node in Elems
      ensures Handles() == old(Handles())[h := old(mem.nodes[minimum].value)]
      ensures old(MinExact()) ==> (mem.buffers[h].node in Roots <==> old(Liftable(h)))
      ensures KeptOutside(old(mem.nodes), old(mem.kids), old(mem.buffers), mem.nodes, mem.kids, mem.buffers, Elems)
    {
      var res := Change(h, mem.nodes[minimum].value);
    }

    /**
     * extractMin (BinomialHeap.cpp:59-81): the cached minimum's value; its
     * node leaves the root list, its children become a heap of their own
     * (the list constructor), the node and its buffer are deleted, and the
     * children are merged back. An error on an empty heap, which then is
     * left unchanged.
     */
    method ExtractMin() returns (res: Result<int>)
      requires Valid()
      modifies this, mem
      ensures Valid()
      ensures old(Elems) == {} <==> res == Err(EmptyHeap)
      ensures old(Elems) == {} ==> (mem.nodes == old(mem.nodes) && mem.buffers == old(mem.buffers) &&
        Elems == old(Elems) && Roots == old(Roots) && head == old(head) && minimum == old(minimum))
      ensures old(Elems) != {} ==>
        && res == Ok(old(mem.nodes[minimum].value))
        && Elems == old(Elems) - {old(minimum)}
        && mem.buffers == old(mem.buffers)[old(mem.nodes[minimum].buffer) := Buffer(NIL, true)]
        && (forall n :: n in Elems ==> mem.nodes[n].value == old(mem.nodes[n].value) && mem.nodes[n].buffer == old(mem.nodes[n].buffer))
      ensures old(Elems) != {} && old(mem.nodes[minimum].child) != NIL ==> MinExact()
      ensures KeptOutside(old(mem.nodes), old(mem.kids), old(mem.buffers), mem.nodes, mem.kids, mem.buffers, old(Elems))
    {
      EmptyHead(mem.nodes, mem.kids, mem.buffers, head, minimum, Roots, Elems);
      if head == NIL {
        return Err(EmptyHeap);
      }
      var v := RemoveMinimum();
      res := Ok(v);
    }

    /**
     * extractMin on a heap with elements (BinomialHeap.cpp:63-80): the
     * minimum's tree leaves the heap, its children are merged back, and the
     * minimum's value is returned.
     */
    method RemoveMinimum() returns (v: int)
      requires Valid() && Elems != {}
      modifies this, mem
      ensures Valid() && v == old(mem.nodes[minimum].value)
      ensures Elems == old(Elems) - {old(minimum)}
      ensures mem.buffers == old(mem.buffers)[old(mem.nodes[minimum].buffer) := Buffer(NIL, true)]
      ensures forall n :: n in Elems ==> mem.nodes[n].value == old(mem.nodes[n].value) && mem.nodes[n].buffer == old(mem.nodes[n].buffer)
      ensures old(mem.nodes[minimum].child) != NIL ==> MinExact()
      ensures KeptOutside(old(mem.nodes), old(mem.kids), old(mem.buffers), mem.nodes, mem.kids, mem.buffers, old(Elems))
    {
      v := mem.nodes[minimum].value;
      ghost var x, e0 := minimum, Elems;
      var children;
      ghost var t;
      children, t := TakeOutMinimum();
      SplitElems(e0, t, x);
      MergeChildren(old(mem.nodes), old(mem.kids), old(mem.buffers), e0, x, children);
    }

    /**
     * The final merge(children) of extractMin (BinomialHeap.cpp:68, 79), seen
     * from the store (ns0, kids0, bs0) before extractMin: the elements e0 of
     * the heap are the only ones that changed, and every node but the
     * extracted x keeps its value and buffer.
     */
    method MergeChildren(ghost ns0: seq<Node>, ghost kids0: seq<seq<int>>, ghost bs0: seq<Buffer>, ghost e0: set<int>, ghost x: int,
                         children: BinomialHeap)
      requires Valid() && children.Valid() && children != this && children.mem == mem && Elems !! children.Elems
      requires KeptOutside(ns0, kids0, bs0, mem.nodes, mem.kids, mem.buffers, e0) && Elems + children.Elems <= e0
      requires |mem.nodes| == |ns0| && x !in Elems + children.Elems
      requires forall n :: 0 <= n < |mem.nodes| && n != x ==> mem.nodes[n].value == ns0[n].value && mem.nodes[n].buffer == ns0[n].buffer
      modifies this, children, mem
      ensures Valid() && mem.buffers == old(mem.buffers) && Elems == old(Elems) + old(children.Elems)
      ensures old(children.Elems) != {} && old(children.MinExact()) ==> MinExact()
      ensures forall n :: n in Elems ==> mem.nodes[n].value == ns0[n].value && mem.nodes[n].buffer == ns0[n].buffer
      ensures KeptOutside(ns0, kids0, bs0, mem.nodes, mem.kids, mem.buffers, e0)
    {
      ghost var ns1, kids1, bs1, e1 := mem.nodes, mem.kids, mem.buffers, Elems + children.Elems;
      Absorb(children);
      KeptTrans(ns0, kids0, bs0, ns1, kids1, bs1, mem.nodes, mem.kids, mem.buffers, e0, e1, e0);
    }

    /** merge (BinomialHeap.cpp:83-168) as insert and extractMin use it, seen from this heap. */
    method Absorb(other: BinomialHeap)
      requires Valid() && other.Valid() && other != this && other.mem == mem && Elems !! other.Elems
      modifies this, other, mem
      ensures Valid() && mem.buffers == old(mem.buffers) && SameKeys(old(mem.nodes), mem.nodes)
      ensures Elems == old(Elems) + old(other.Elems)
      ensures old(other.Elems) != {} && old(other.MinExact()) ==> MinExact()
      ensures KeptOutside(old(mem.nodes), old(mem.kids), old(mem.buffers), mem.nodes, mem.kids, mem.buffers, old(Elems) + old(other.Elems))
    {
      Merge(other);
    }

    /**
     * extractMin up to its final merge (BinomialHeap.cpp:63-79): the minimum x
     * leaves the root list, x's child list becomes the heap `children` (the
     * list constructor), and x and its buffer are deleted; t is the tree of x.
     */
    method TakeOutMinimum() returns (children: BinomialHeap, ghost t: set<int>)
      requires Valid() && Elems != {}
      modifies this, mem
      ensures fresh(children) && children.mem == mem
      ensures Valid() && children.Valid() && children.MinExact()
      ensures old(minimum) in t && t <= old(Elems) && Elems == old(Elems) - t && children.Elems == t - {old(minimum)}
      ensures children.Elems != {} <==> old(mem.nodes[minimum].child) != NIL
      ensures mem.buffers == old(mem.buffers)[old(mem.nodes[minimum].buffer) := Buffer(NIL, true)]
      ensures |mem.nodes| == |old(mem.nodes)|
      ensures forall n :: 0 <= n < |mem.nodes| && n != old(minimum) ==>
        mem.nodes[n].value == old(mem.nodes[n].value) && mem.nodes[n].buffer == old(mem.nodes[n].buffer)
      ensures KeptOutside(old(mem.nodes), old(mem.kids), old(mem.buffers), mem.nodes, mem.kids, mem.buffers, old(Elems))
    {
      children, t := SplitMinimum();
      DropMinimum(old(mem.nodes), old(mem.kids), old(mem.buffers), old(Elems), children);
    }

    /**
     * The first steps of extractMin (BinomialHeap.cpp:63-77): the root x under
     * minimum_ leaves the root list, so the heap keeps the other trees, and
     * the list constructor makes the heap `children` of x's child list, the
     * rest of the tree t of x.
     */
    method SplitMinimum() returns (children: BinomialHeap, ghost t: set<int>)
      requires Valid() && Elems != {}
      modifies this, mem
      ensures fresh(children) && children.mem == mem && children.Valid() && children.MinExact()
      ensures mem.Valid() && HeapOk(mem.nodes, mem.kids, mem.buffers, head, head, Roots, Elems)
      ensures minimum == old(minimum) && 0 <= minimum < |mem.nodes| && 0 <= mem.nodes[minimum].buffer < |mem.buffers|
      ensures minimum in t && t <= old(Elems) && Elems == old(Elems) - t && children.Elems == t - {minimum}
      ensures children.Elems != {} <==> old(mem.nodes[minimum].child) != NIL
      ensures mem.buffers == old(mem.buffers) && mem.nodes[minimum].buffer == old(mem.nodes[minimum].buffer)
      ensures SameKeys(old(mem.nodes), mem.nodes)
      ensures KeptOutside(old(mem.nodes), old(mem.kids), old(mem.buffers), mem.nodes, mem.kids, mem.buffers, old(Elems))
    {
      var x := minimum;
      ghost var kx, bs := mem.kids[x], mem.buffers;
      t := DetachMinimum();
      ghost var ns1, h1, r1, e1 := mem.nodes, head, Roots, Elems;
      OrphanedKept(ns1, mem.kids, bs, kx, t - {x}, old(Elems));
      children := new BinomialHeap.FromList(mem, mem.nodes[x].child, kx, t - {x});
      assert minimum == x && mem.nodes == Orphaned(ns1, kx) && mem.buffers == bs;
      assert head == h1 && Roots == r1 && Elems == e1;
      OrphanedKeys(ns1, kx);
      KeptTrans(old(mem.nodes), old(mem.kids), old(mem.buffers), ns1, mem.kids, bs, mem.nodes, mem.kids, mem.buffers,
        old(Elems), old(Elems), old(Elems));
    }

    /**
     * The first half of extractMin (BinomialHeap.cpp:64-76): the minimum x
     * leaves the root list, the rest of the forest keeps its trees, and x's
     * children are left as a list of trees for the list constructor.
     */
    method DetachMinimum() returns (ghost t: set<int>)
      requires Valid() && Elems != {}
      modifies this, mem
      ensures mem.Valid() && mem.kids == old(mem.kids) && mem.buffers == old(mem.buffers)
      ensures minimum == old(minimum) && 0 <= minimum < |mem.nodes| && mem.nodes[minimum] == old(mem.nodes[minimum])
      ensures 0 <= mem.nodes[minimum].buffer < |mem.buffers|
      ensures SameKeys(old(mem.nodes), mem.nodes)
      ensures minimum in t && t <= old(Elems) && Elems == old(Elems) - t
      ensures TreeList(mem.nodes, mem.kids, mem.buffers, mem.nodes[minimum].child, mem.kids[minimum], t - {minimum})
      ensures mem.kids[minimum] == [] <==> t - {minimum} == {}
      ensures HeapOk(Orphaned(mem.nodes, mem.kids[minimum]), mem.kids, mem.buffers, head, head, Roots, Elems)
      ensures KeptOutside(old(mem.nodes), old(mem.kids), old(mem.buffers), mem.nodes, mem.kids, mem.buffers, old(Elems))
    {
      var ns1, h1;
      ghost var r1;
      ns1, h1, r1, t := DetachRoot(mem.nodes, mem.kids, mem.buffers, head, minimum, Roots, Elems);
      Install(ns1, mem.buffers, mem.kids, h1, minimum, r1, Elems - t);
    }

    /** Installs new node and buffer stores, root list and minimum: the pointer updates that end an operation. */
    method Install(ns: seq<Node>, bs: seq<Buffer>, ghost kids: seq<seq<int>>, h: int, m: int, ghost r: seq<int>, ghost e: set<int>)
      modifies this, mem
      ensures mem.nodes == ns && mem.buffers == bs && mem.kids == kids
      ensures head == h && minimum == m && Roots == r && Elems == e
    {
      mem.nodes, mem.buffers, mem.kids := ns, bs, kids;
      head, minimum, Roots, Elems := h, m, r, e;
    }

    /** `minimum_ = x`: any root of a valid heap may be made minimum_, and the handles stay as they were. */
    method SetMinimum(x: int)
      requires Valid() && x in Roots
      modifies this
      ensures minimum == x && head == old(head) && Roots == old(Roots) && Elems == old(Elems)
      ensures Valid() && Handles() == old(Handles())
      ensures mem.nodes == old(mem.nodes) && mem.buffers == old(mem.buffers) && mem.kids == old(mem.kids)
    {
      MoveMinimum(mem.nodes, mem.kids, mem.buffers, head, minimum, Roots, Elems, x);
      minimum := x;
    }

    /** Leaves this heap without elements, as merge leaves its argument. */
    method Clear()
      modifies this
      ensures head == NIL && minimum == NIL && Roots == [] && Elems == {}
    {
      head, minimum, Roots, Elems := NIL, NIL, [], {};
    }

    /**
     * deleteMinimumFromMemory as extractMin uses it, after the list
     * constructor: seen from the store (ns0, kids0, bs0) before extractMin,
     * only the elements e0 of the heap have changed, and only x's value and
     * buffer are gone.
     */
    method DropMinimum(ghost ns0: seq<Node>, ghost kids0: seq<seq<int>>, ghost bs0: seq<Buffer>, ghost e0: set<int>, other: BinomialHeap)
      requires mem.Valid() && 0 <= minimum < |mem.nodes| && minimum !in Elems
      requires 0 <= mem.nodes[minimum].buffer < |mem.buffers|
      requires HeapOk(mem.nodes, mem.kids, mem.buffers, head, head, Roots, Elems)
      requires other != this && other.mem == mem && other.Valid() && other.MinExact() && minimum !in other.Elems
      requires KeptOutside(ns0, kids0, bs0, mem.nodes, mem.kids, mem.buffers, e0) && minimum in e0 && SameKeys(ns0, mem.nodes)
      modifies this, mem
      ensures Valid() && other.Valid() && other.MinExact()
      ensures head == old(head) && Roots == old(Roots) && Elems == old(Elems)
      ensures mem.buffers == old(mem.buffers)[old(mem.nodes[minimum].buffer) := Buffer(NIL, true)]
      ensures |mem.nodes| == |ns0|
      ensures forall n :: 0 <= n < |mem.nodes| && n != old(minimum) ==> mem.nodes[n].value == ns0[n].value && mem.nodes[n].buffer == ns0[n].buffer
      ensures KeptOutside(ns0, kids0, bs0, mem.nodes, mem.kids, mem.buffers, e0)
    {
      var x := minimum;
      ghost var ns1, kids1, bs1 := mem.nodes, mem.kids, mem.buffers;
      DeleteMinimumFromMemory(other);
      DeletedKeys(ns0, ns1, mem.nodes, x);
      KeptTrans(ns0, kids0, bs0, ns1, kids1, bs1, mem.nodes, mem.kids, mem.buffers, e0, {x}, e0);
    }

    /**
     * deleteMinimumFromMemory (BinomialHeap.cpp:331-339): the removed node x
     * under minimum_ loses its sibling, its children and its buffer, the buffer
     * is marked deleted and points at nothing, and minimum_ falls back to the
     * head of the root list. Another heap over the same store that does not
     * hold x stays as it was.
     */
    method DeleteMinimumFromMemory(ghost other: BinomialHeap)
      requires mem.Valid() && 0 <= minimum < |mem.nodes| && minimum !in Elems
      requires 0 <= mem.nodes[minimum].buffer < |mem.buffers|
      requires HeapOk(mem.nodes, mem.kids, mem.buffers, head, head, Roots, Elems)
      requires other != this && other.mem == mem && other.Valid() && minimum !in other.Elems
      modifies this, mem
      ensures Valid() && other.Valid() && minimum == head
      ensures old(other.MinExact()) ==> other.MinExact()
      ensures head == old(head) && Roots == old(Roots) && Elems == old(Elems) && mem.kids == old(mem.kids)
      ensures var x, b := old(minimum), old(mem.nodes[minimum].buffer);
        && mem.nodes == old(mem.nodes)[x := old(mem.nodes[x]).(sibling := NIL, child := NIL, buffer := NIL)]
        && mem.buffers == old(mem.buffers)[b := Buffer(NIL, true)]
      ensures Handles() == old(Handles()) && other.Handles() == old(other.Handles())
      ensures KeptOutside(old(mem.nodes), old(mem.kids), old(mem.buffers), mem.nodes, mem.kids, mem.buffers, {old(minimum)})
    {
      var x := minimum;
      var b := mem.nodes[x].buffer;
      DeleteKeepsHeap(mem.nodes, mem.kids, mem.buffers, head, head, Roots, Elems, x);
      DeleteKeepsHeap(mem.nodes, mem.kids, mem.buffers, other.head, other.minimum, other.Roots, other.Elems, x);
      Install(mem.nodes[x := mem.nodes[x].(sibling := NIL, child := NIL, buffer := NIL)], mem.buffers[b := Buffer(NIL, true)],
        mem.kids, head, head, Roots, Elems);
    }

    /**
     * merge (BinomialHeap.cpp:83-167): all elements of other move into this
     * heap and other is left empty. When both heaps hold elements the root
     * lists are spliced, trees of equal degree linked, and the minimum found
     * by a scan of the new roots.
     */
    method Merge(other: BinomialHeap)
      requires Valid() && other.Valid() && other != this && other.mem == mem && Elems !! other.Elems
      modifies this, other, mem
      ensures Valid() && other.Valid() && mem.buffers == old(mem.buffers)
      ensures Elems == old(Elems) + old(other.Elems)
      ensures other.Elems == {} && other.Roots == [] && other.head == NIL && other.minimum == NIL
      ensures SameKeys(old(mem.nodes), mem.nodes)
      ensures KeptOutside(old(mem.nodes), old(mem.kids), old(mem.buffers), mem.nodes, mem.kids, mem.buffers, old(Elems) + old(other.Elems))
      ensures old(Elems) != {} && old(other.Elems) != {} ==> MinExact()
      ensures old(Elems) == {} ==> mem.nodes == old(mem.nodes) && minimum == old(other.minimum) && Roots == old(other.Roots)
      ensures old(other.Elems) == {} ==> mem.nodes == old(mem.nodes) && minimum == old(minimum) && Roots == old(Roots)
    {
      EmptyHead(mem.nodes, mem.kids, mem.buffers, head, minimum, Roots, Elems);
      EmptyHead(mem.nodes, mem.kids, mem.buffers, other.head, other.minimum, other.Roots, other.Elems);
      if head == NIL {
        var h, m := other.head, other.minimum;
        ghost var r, e := other.Roots, other.Elems;
        assert e == Elems + e;
        Adopt(other, mem.nodes, mem.kids, h, m, r, e);
      } else if other.head != NIL {
        MergeNonEmpty(other);
      } else {
        assert Elems == Elems + other.Elems;
      }
    }

    /** The part of merge that runs when both heaps hold elements (BinomialHeap.cpp:93-167). */
    method MergeNonEmpty(other: BinomialHeap)
      requires Valid() && other.Valid() && other != this && other.mem == mem && Elems !! other.Elems
      requires Elems != {} && other.Elems != {}
      modifies this, other, mem
      ensures Valid() && other.Valid() && mem.buffers == old(mem.buffers)
      ensures Elems == old(Elems) + old(other.Elems)
      ensures other.Elems == {} && other.Roots == [] && other.head == NIL && other.minimum == NIL
      ensures SameKeys(old(mem.nodes), mem.nodes)
      ensures KeptOutside(old(mem.nodes), old(mem.kids), old(mem.buffers), mem.nodes, mem.kids, mem.buffers, old(Elems) + old(other.Elems))
      ensures MinExact()
    {
      ghost var e1, e2 := Elems, other.Elems;
      ghost var ns0 := mem.nodes;
      var ns, h, m;
      ghost var kids, r;
      ns, kids, h, m, r := MergeRoots(mem.nodes, mem.kids, head, other.head, Roots, Elems, other.Roots, other.Elems);
      SameKeysKeepBuffers(ns0, ns, mem.buffers, e1 + e2);
      Adopt(other, ns, kids, h, m, r, e1 + e2);
    }

    /**
     * The field updates that end merge: this heap takes the given records and
     * root list, and other is left empty.
     */
    method Adopt(other: BinomialHeap, ns: seq<Node>, ghost kids: seq<seq<int>>, h: int, m: int, ghost r: seq<int>, ghost e: set<int>)
      requires other != this && other.mem == mem
      requires |kids| == |ns| && Linked(ns, mem.buffers) && HeapOk(ns, kids, mem.buffers, h, m, r, e)
      modifies this, other, mem
      ensures Valid() && other.Valid() && mem.buffers == old(mem.buffers)
      ensures mem.nodes == ns && mem.kids == kids && head == h && minimum == m && Roots == r && Elems == e
      ensures other.Elems == {} && other.Roots == [] && other.head == NIL && other.minimum == NIL
      ensures MinExact() <==> r == [] || forall n :: n in e ==> ns[m].value <= ns[n].value
    {
      EmptyHeapOk(ns, kids, mem.buffers);
      Install(ns, mem.buffers, kids, h, m, r, e);
      other.Clear();
    }

  }
  /**
   * The first half of merge (BinomialHeap.cpp:93-122), on the node records:
   * the root lists starting at h1 and h2 are spliced into one list `l`,
   * starting at `t`, whose degrees never fall. Only `sibling` fields of
   * roots are reassigned.
   */
  method SpliceRootLists(ns0: seq<Node>, h1: int, h2: int, ghost r1: seq<int>, ghost r2: seq<int>)
    returns (ns: seq<Node>, t: int, ghost l: seq<int>)
    requires SpliceInput(ns0, r1, r2) && h1 == r1[0] && h2 == r2[0]
    ensures SiblingsOnly(ns0, ns, l)
    ensures Chain(ns, t, l) && Distinct(l) && Sorted2(ns, l)
    ensures forall x :: x in l <==> x in r1 || x in r2
  {
    ns := ns0;
    var l1, l2 := h1, h2;
    ghost var i1, i2 := 0, 0;
    if ns[l1].degree <= ns[l2].degree {
      SpliceStart(ns, r1, r2);
      t := l1;
      l1 := ns[l1].sibling;
      i1 := 1;
    } else {
      SpliceStartOther(ns, r1, r2);
      t := l2;
      l2 := ns[l2].sibling;
      i2 := 1;
    }
    var cur := t;
    ghost var P := [t];
    while l1 != NIL && l2 != NIL
      invariant SpliceInv(ns0, ns, r1, r2, i1, i2, P)
      invariant l1 == At(r1, i1) && l2 == At(r2, i2)
      invariant cur == P[|P| - 1] && t == P[0]
      decreases |r1| - i1 + |r2| - i2
    {
      ns, cur, l1, l2, i1, i2, P := SpliceLink(ns0, ns, r1, r2, i1, i2, P, cur, l1, l2);
    }
    l := if l1 == NIL then P + r2[i2..] else P + r1[i1..];
    SpliceFinish(ns0, ns, r1, r2, i1, i2, P, SetSibling(ns, cur, if l1 == NIL then l2 else l1), l);
    if l1 == NIL {
      ns := SetSibling(ns, cur, l2);
    } else {
      ns := SetSibling(ns, cur, l1);
    }
  }

  /**
   * One round of the splicing loop (BinomialHeap.cpp:105-115): the head of
   * smaller or equal degree is linked after the tail cur and its list advances.
   */
  method SpliceLink(ghost ns0: seq<Node>, ns: seq<Node>, ghost r1: seq<int>, ghost r2: seq<int>,
                    ghost i1: nat, ghost i2: nat, ghost P: seq<int>, cur: int, l1: int, l2: int)
    returns (ns': seq<Node>, cur': int, l1': int, l2': int, ghost j1: nat, ghost j2: nat, ghost P': seq<int>)
    requires SpliceInv(ns0, ns, r1, r2, i1, i2, P)
    requires l1 == At(r1, i1) && l2 == At(r2, i2) && cur == P[|P| - 1] && l1 != NIL && l2 != NIL
    ensures SpliceInv(ns0, ns', r1, r2, j1, j2, P')
    ensures l1' == At(r1, j1) && l2' == At(r2, j2) && cur' == P'[|P'| - 1] && P'[0] == P[0]
    ensures j1 + j2 == i1 + i2 + 1 && i1 <= j1 <= |r1| && i2 <= j2 <= |r2|
  {
    var take1 := ns[l1].degree <= ns[l2].degree;
    cur' := if take1 then l1 else l2;
    j1, j2 := if take1 then i1 + 1 else i1, if take1 then i2 else i2 + 1;
    P' := P + [cur'];
    ns' := SetSibling(ns, cur, cur');
    SpliceAdvance(ns0, ns, r1, r2, i1, i2, P, take1, ns', j1, j2, P');
    if take1 {
      l1', l2' := ns'[cur'].sibling, l2;
    } else {
      l1', l2' := l1, ns'[cur'].sibling;
    }
  }

  /** mergeTree (BinomialHeap.cpp:305-317): b becomes the last child of a, whose child list is k. */
  method MergeTree(ns: seq<Node>, ghost k: seq<int>, a: int, b: int) returns (r: seq<Node>)
    requires 0 <= a < |ns| && 0 <= b < |ns| && a != b
    requires Chain(ns, ns[a].child, k)
    ensures r == AfterMergeTree(ns, k, a, b)
  {
    r := ns[a := ns[a].(degree := ns[a].degree + 1)];
    r := r[b := r[b].(parent := a)];
    assert forall n :: 0 <= n < |ns| ==> r[n].sibling == ns[n].sibling && r[n].child == ns[n].child;
    if r[a].child == NIL {
      r := r[a := r[a].(child := b)];
    } else {
      var cur := r[a].child;
      ghost var i := 0;
      while r[cur].sibling != NIL
        invariant 0 <= i < |k| && cur == k[i]
        decreases |k| - i
      {
        cur := r[cur].sibling;
        i := i + 1;
      }
      assert i == |k| - 1;
      r := r[cur := r[cur].(sibling := b)];
    }
  }

  /**
   * The first two branches of the linking pass (BinomialHeap.cpp:127-138):
   * cur and next differ in degree, or three roots of one degree are in a row;
   * the cursor moves on.
   */
  method SkipCursor(ghost ns0: seq<Node>, ns: seq<Node>, ghost kids: seq<seq<int>>, ghost e: set<int>, ghost R: seq<int>, ghost p: int,
                    prev: int, cur: int, head: int)
    returns (prev': int, cur': int, head': int)
    requires PassInv(ns0, ns, kids, e, R, p, prev, cur, head) && ns[cur].sibling != NIL
    requires ns[cur].degree != ns[ns[cur].sibling].degree
      || (ns[ns[cur].sibling].sibling != NIL && ns[cur].degree == ns[ns[ns[cur].sibling].sibling].degree)
    ensures PassInv(ns0, ns, kids, e, R, p + 1, prev', cur', head')
  {
    LinkSkip(ns, kids, e, R, p);
    head' := if prev == NIL then cur else head;
    prev', cur' := cur, ns[cur].sibling;
  }

  /** The third branch of the linking pass touches cur, next and the last child of cur only. */
  lemma UnderKept(ns: seq<Node>, kids: seq<seq<int>>, e: set<int>, cur: int, next: int, z: int)
    requires 0 <= cur < |ns| && 0 <= next < |ns| && cur != next && |kids| == |ns|
    requires cur in e && next in e && InRange(ns, kids[cur]) && forall j :: 0 <= j < |kids[cur]| ==> kids[cur][j] in e
    ensures RecordsKept(ns, kids, AfterMergeTree(SetSibling(SetSibling(ns, cur, z), next, NIL), kids[cur], cur, next),
                        kids[cur := kids[cur] + [next]], e)
  {
    MergeTreeKept(SetSibling(SetSibling(ns, cur, z), next, NIL), kids[cur], cur, next, e);
  }

  /** The fourth branch of the linking pass touches prev, cur, next and the last child of next only. */
  lemma OverKept(ns: seq<Node>, kids: seq<seq<int>>, e: set<int>, prev: int, cur: int, next: int)
    requires 0 <= cur < |ns| && 0 <= next < |ns| && cur != next && |kids| == |ns|
    requires prev == NIL || (0 <= prev < |ns| && prev in e)
    requires cur in e && next in e && InRange(ns, kids[next]) && forall j :: 0 <= j < |kids[next]| ==> kids[next][j] in e
    ensures RecordsKept(ns, kids, AfterMergeTree(SetSibling(if prev == NIL then ns else SetSibling(ns, prev, next), cur, NIL), kids[next], next, cur),
                        kids[next := kids[next] + [cur]], e)
  {
    MergeTreeKept(SetSibling(if prev == NIL then ns else SetSibling(ns, prev, next), cur, NIL), kids[next], next, cur, e);
  }

  /**
   * The third branch of the linking pass (BinomialHeap.cpp:139-143): next,
   * of equal degree and no smaller value, leaves the root list and becomes
   * the last child of cur.
   */
  method LinkUnderCursor(ghost ns0: seq<Node>, ns: seq<Node>, ghost kids: seq<seq<int>>, ghost e: set<int>, ghost R: seq<int>, ghost p: int,
                         prev: int, cur: int, head: int)
    returns (ns': seq<Node>, ghost kids': seq<seq<int>>)
    requires PassInv(ns0, ns, kids, e, R, p, prev, cur, head) && ns[cur].sibling != NIL
    requires ns[cur].degree == ns[ns[cur].sibling].degree && ns[cur].value <= ns[ns[cur].sibling].value
    requires !(ns[ns[cur].sibling].sibling != NIL && ns[cur].degree == ns[ns[ns[cur].sibling].sibling].degree)
    ensures PassInv(ns0, ns', kids', e, Remove(R, p + 1), p, prev, cur, head)
    ensures RecordsKept(ns, kids, ns', kids', e) && |ns'| == |ns|
  {
    var next := ns[cur].sibling;
    ns' := SetSibling(ns, cur, ns[next].sibling);
    ns' := SetSibling(ns', next, NIL);
    UnderPrep(ns, kids, e, R, p, ns');
    ghost var ns2 := ns';
    assert cur in e && next in e && KidsOk(ns, kids, e, cur);
    UnderKept(ns, kids, e, cur, next, ns[next].sibling);
    ns' := MergeTree(ns', kids[cur], cur, next);
    kids' := kids[cur := kids[cur] + [next]];
    LinkUnder(ns, kids, e, R, p, ns2, ns', kids');
  }

  /**
   * The fourth branch of the linking pass (BinomialHeap.cpp:144-152): cur,
   * of equal degree and larger value, leaves the root list and becomes the
   * last child of next, which the previous root (if any) now points at.
   */
  method LinkOverCursor(ghost ns0: seq<Node>, ns: seq<Node>, ghost kids: seq<seq<int>>, ghost e: set<int>, ghost R: seq<int>, ghost p: int,
                        prev: int, cur: int, head: int)
    returns (ns': seq<Node>, ghost kids': seq<seq<int>>, cur': int)
    requires PassInv(ns0, ns, kids, e, R, p, prev, cur, head) && ns[cur].sibling != NIL
    requires ns[cur].degree == ns[ns[cur].sibling].degree && ns[cur].value > ns[ns[cur].sibling].value
    requires !(ns[ns[cur].sibling].sibling != NIL && ns[cur].degree == ns[ns[ns[cur].sibling].sibling].degree)
    ensures PassInv(ns0, ns', kids', e, Remove(R, p), p, prev, cur', head)
    ensures RecordsKept(ns, kids, ns', kids', e) && |ns'| == |ns|
  {
    var next := ns[cur].sibling;
    ns' := ns;
    if prev != NIL {
      ns' := SetSibling(ns', prev, next);
    }
    ns' := SetSibling(ns', cur, NIL);
    OverPrep(ns, kids, e, R, p, ns');
    ghost var ns2 := ns';
    assert cur in e && next in e && (prev != NIL ==> prev in e) && KidsOk(ns, kids, e, next);
    OverKept(ns, kids, e, prev, cur, next);
    ns' := MergeTree(ns', kids[next], next, cur);
    kids' := kids[next := kids[next] + [cur]];
    LinkOver(ns, kids, e, R, p, ns2, ns', kids');
    cur' := next;
  }

  /**
   * The second half of merge (BinomialHeap.cpp:123-157): one pass along the
   * spliced list l links every two neighbouring trees of equal degree (the
   * second of three equal degrees is linked with the third), the smaller
   * value on top. The result is a root list r hanging from `head` whose
   * degrees strictly increase, over the same elements, with every node
   * keeping its value and buffer.
   */
  method LinkEqualDegrees(ns0: seq<Node>, ghost kids0: seq<seq<int>>, ghost e: set<int>, t: int, ghost l: seq<int>)
    returns (ns: seq<Node>, ghost kids: seq<seq<int>>, head: int, ghost r: seq<int>)
    requires Forest(ns0, kids0, l, e) && Chain(ns0, t, l) && Distinct(l) && Sorted2(ns0, l) && l != []
    ensures Forest(ns, kids, r, e) && Chain(ns, head, r) && Increasing(ns, r) && r != []
    ensures SameKeys(ns0, ns) && RecordsKept(ns0, kids0, ns, kids, e)
  {
    LinkStart(ns0, kids0, e, t, l);
    ns, kids, r := ns0, kids0, l;
    var prev, cur := NIL, t;
    head := NIL;
    ghost var p := 0;
    while ns[cur].sibling != NIL
      invariant PassInv(ns0, ns, kids, e, r, p, prev, cur, head)
      invariant RecordsKept(ns0, kids0, ns, kids, e) && |kids0| == |ns0|
      decreases |r| - p
    {
      var next := ns[cur].sibling;
      if ns[cur].degree != ns[next].degree
        || (ns[next].sibling != NIL && ns[cur].degree == ns[ns[next].sibling].degree)
      {
        prev, cur, head := SkipCursor(ns0, ns, kids, e, r, p, prev, cur, head);
        p := p + 1;
      } else if ns[cur].value <= ns[next].value {
        ghost var ns1, kids1 := ns, kids;
        ns, kids := LinkUnderCursor(ns0, ns, kids, e, r, p, prev, cur, head);
        RecordsTrans(ns0, kids0, ns1, kids1, ns, kids, e);
        r := Remove(r, p + 1);
      } else {
        ghost var ns1, kids1 := ns, kids;
        ns, kids, cur := LinkOverCursor(ns0, ns, kids, e, r, p, prev, cur, head);
        RecordsTrans(ns0, kids0, ns1, kids1, ns, kids, e);
        r := Remove(r, p);
      }
    }
    if prev == NIL {
      head := cur;
    }
    LinkFinish(ns, kids, e, r, p);
  }

  /**
   * merge of two non-empty heaps (BinomialHeap.cpp:93-166), on the node
   * records: splice the root lists, link equal degrees, scan for the
   * minimum. The result is one forest over both sets of elements whose
   * root list r hangs from h, with m the first of its least roots.
   */
  method MergeRoots(ns0: seq<Node>, ghost kids0: seq<seq<int>>, h1: int, h2: int,
                    ghost r1: seq<int>, ghost e1: set<int>, ghost r2: seq<int>, ghost e2: set<int>)
    returns (ns: seq<Node>, ghost kids: seq<seq<int>>, h: int, m: int, ghost r: seq<int>)
    requires Forest(ns0, kids0, r1, e1) && Forest(ns0, kids0, r2, e2) && e1 !! e2
    requires Chain(ns0, h1, r1) && Increasing(ns0, r1) && r1 != []
    requires Chain(ns0, h2, r2) && Increasing(ns0, r2) && r2 != []
    ensures Forest(ns, kids, r, e1 + e2) && Chain(ns, h, r) && Increasing(ns, r) && r != []
    ensures SameKeys(ns0, ns) && RecordsKept(ns0, kids0, ns, kids, e1 + e2)
    ensures LeastFirst(ns, r, m) && forall n :: n in e1 + e2 ==> ns[m].value <= ns[n].value
  {
    ghost var R, e := r1 + r2, e1 + e2;
    ForestUnion(ns0, kids0, r1, e1, r2, e2);
    assert forall i, j :: 0 <= i < |r1| && 0 <= j < |r2| ==> r1[i] != r2[j] by {
      forall i, j | 0 <= i < |r1| && 0 <= j < |r2| ensures r1[i] != r2[j] {
        assert r1[i] in e1 && r2[j] in e2;
      }
    }
    var t;
    ghost var l;
    ns, t, l := SpliceRootLists(ns0, h1, h2, r1, r2);
    assert forall i :: 0 <= i < |l| ==> l[i] in e && ns0[l[i]].parent == NIL by {
      forall i | 0 <= i < |l| ensures l[i] in e && ns0[l[i]].parent == NIL {
        assert l[i] in R;
      }
    }
    RootSiblingsKeepForest(ns0, ns, kids0, R, e, l);
    SameRootsKeepForest(ns, kids0, R, l, e);
    SiblingsKept(ns0, ns, kids0, l, e);
    assert r1[0] in l;
    ghost var ns1 := ns;
    ns, kids, h, r := LinkEqualDegrees(ns, kids0, e, t, l);
    RecordsTrans(ns0, kids0, ns1, kids0, ns, kids, e);
    m := ScanMinimum(ns, h, r);
    LeastRootIsLeast(ns, kids, r, e, m);
  }

  /**
   * swapValues (BinomialHeap.cpp:318-330) on the records: x and y exchange
   * their values and their buffers, so every handle keeps reading its own key.
   */
  method SwapValues(ns: seq<Node>, bs: seq<Buffer>, x: int, y: int) returns (ns': seq<Node>, bs': seq<Buffer>)
    requires 0 <= x < |ns| && 0 <= y < |ns| && x != y
    requires 0 <= ns[x].buffer < |bs| && 0 <= ns[y].buffer < |bs|
    ensures ns' == SwapNodes(ns, x, y) && bs' == SwapBuffers(ns, bs, x, y)
  {
    var b1, b2 := ns[x].buffer, ns[y].buffer;
    var tmp := ns[x].value;
    ns' := ns[x := ns[x].(value := ns[y].value)];
    ns' := ns'[y := ns'[y].(value := tmp)];
    bs' := bs[b1 := bs[b1].(node := y)];
    bs' := bs'[b2 := bs'[b2].(node := x)];
    ns' := ns'[y := ns'[y].(buffer := b1)];
    ns' := ns'[x := ns'[x].(buffer := b2)];
  }

  /**
   * The sift-up loop of change (BinomialHeap.cpp:190-195): the key at c is
   * swapped with its parent while the parent is no smaller. It stops at cur,
   * a root or below a smaller parent, with the heap ordered again; the root
   * m gives up its value only to the travelling key, and only when that key
   * is no larger.
   */
  method SiftUp(ns0: seq<Node>, bs0: seq<Buffer>, ghost kids: seq<seq<int>>, ghost h: int, ghost m: int, ghost r: seq<int>, ghost e: set<int>, c: int)
    returns (ns: seq<Node>, bs: seq<Buffer>, cur: int)
    requires Linked(ns0, bs0) && SiftingUp(ns0, kids, bs0, h, m, r, e, c)
    ensures Linked(ns, bs) && HeapOk(ns, kids, bs, h, m, r, e) && Permuted(ns0, bs0, ns, bs, e)
    ensures cur in e && ns[cur].value == ns0[c].value && ns[cur].buffer == ns0[c].buffer
    ensures ns[cur].parent == NIL || ns[ns[cur].parent].value < ns[cur].value
    ensures ns[m].value == ns0[m].value || (ns[m].value == ns0[c].value && ns0[c].value <= ns0[m].value)
  {
    ns, bs, cur := ns0, bs0, c;
    PermutedStart(ns, bs, e);
    var parent := ns[cur].parent;
    while parent != NIL && ns[parent].value >= ns[cur].value
      invariant Linked(ns, bs) && SiftingUp(ns, kids, bs, h, m, r, e, cur) && parent == ns[cur].parent
      invariant ns[cur].value == ns0[c].value && ns[cur].buffer == ns0[c].buffer
      invariant Permuted(ns0, bs0, ns, bs, e)
      invariant ns[m].value == ns0[m].value || (ns[m].value == ns0[c].value && ns0[c].value <= ns0[m].value)
      decreases |ns| - ns[cur].degree
    {
      SiftUpStep(ns, kids, bs, h, m, r, e, cur);
      PermutedSwap(ns0, bs0, ns, bs, e, cur, parent);
      SwapKeeps(ns, bs, cur, parent);
      assert m != cur by {
        assert m in r;
      }
      ns, bs := SwapValues(ns, bs, cur, parent);
      cur := parent;
      parent := ns[cur].parent;
    }
    SiftUpDone(ns, kids, bs, h, m, r, e, cur);
  }

  /**
   * The sift-down loop of change (BinomialHeap.cpp:202-216): while cur has
   * children, the first child of least value is found; unless it is smaller
   * than the travelling key the loop returns early (`stopped`), otherwise the
   * two are swapped. The heap is ordered again either way, and a root m
   * other than c keeps its value. The loop returned early exactly when the
   * node that now holds the travelling key, found through its buffer, has
   * children.
   */
  method SiftDown(ns0: seq<Node>, bs0: seq<Buffer>, ghost kids: seq<seq<int>>, ghost h: int, ghost m: int, ghost r: seq<int>, ghost e: set<int>, c: int)
    returns (ns: seq<Node>, bs: seq<Buffer>, stopped: bool)
    requires Linked(ns0, bs0) && SiftingDown(ns0, kids, bs0, h, m, r, e, c)
    ensures Linked(ns, bs) && HeapOk(ns, kids, bs, h, m, r, e) && Permuted(ns0, bs0, ns, bs, e)
    ensures m != c ==> ns[m].value == ns0[m].value
    ensures stopped <==> ns[bs[ns0[c].buffer].node].child != NIL
  {
    ns, bs := ns0, bs0;
    var cur := c;
    PermutedStart(ns, bs, e);
    stopped := false;
    while ns[cur].child != NIL
      invariant Linked(ns, bs) && SiftingDown(ns, kids, bs, h, m, r, e, cur)
      invariant ns[cur].value == ns0[c].value && ns[cur].buffer == ns0[c].buffer
      invariant Permuted(ns0, bs0, ns, bs, e)
      invariant m != c ==> m != cur && ns[m].value == ns0[m].value
      decreases ns[cur].degree
    {
      assert KidsOk(ns, kids, e, cur);
      KidsDistinct(ns, kids, e, cur);
      var smallest := ScanMinimum(ns, ns[cur].child, kids[cur]);
      if ns[smallest].value >= ns0[c].value {
        SiftDownDone(ns, kids, bs, h, m, r, e, cur);
        stopped := true;
        return;
      }
      SiftDownStep(ns, kids, bs, h, m, r, e, cur, smallest);
      PermutedSwap(ns0, bs0, ns, bs, e, cur, smallest);
      SwapKeeps(ns, bs, cur, smallest);
      assert m != smallest by {
        assert m in r;
        assert ns[smallest].parent == cur;
      }
      ns, bs := SwapValues(ns, bs, cur, smallest);
      cur := smallest;
    }
    assert KidsOk(ns, kids, e, cur);
    SiftDownDone(ns, kids, bs, h, m, r, e, cur);
  }

  /**
   * The minimum scan (BinomialHeap.cpp:158-165, and again at 217-226 and
   * 246-253): walking the chain from h, the first root of least value.
   */
  method ScanMinimum(ns: seq<Node>, h: int, ghost r: seq<int>) returns (m: int)
    requires Chain(ns, h, r) && Distinct(r) && r != []
    ensures LeastFirst(ns, r, m)
  {
    m := h;
    var cur := h;
    ghost var i, k := 0, 0;
    while cur != NIL
      invariant 0 <= k < |r| && k <= i <= |r| && cur == At(r, i) && m == r[k]
      invariant cur == NIL <==> i == |r|
      invariant forall j :: 0 <= j < i ==> ns[m].value <= ns[r[j]].value
      invariant forall j :: 0 <= j < k ==> ns[r[j]].value > ns[m].value
      decreases |r| - i
    {
      ChainStep(ns, h, r, i);
      if ns[m].value > ns[cur].value {
        m, k := cur, i;
      }
      cur := ns[cur].sibling;
      i := i + 1;
      if i < |r| {
        ChainStep(ns, h, r, i);
      }
    }
    forall a, j | 0 <= a < j < |r| && r[j] == m ensures ns[r[a]].value > ns[m].value {
      assert j == k;
    }
  }

  /**
   * The loop of the list constructor (BinomialHeap.cpp:246-253): along the
   * sibling chain r from node, every parent is cleared and the first member
   * of least value is kept.
   */
  method ClearParents(ns0: seq<Node>, node: int, ghost r: seq<int>) returns (ns: seq<Node>, mi: int)
    requires Chain(ns0, node, r) && Increasing(ns0, r)
    ensures ns == Orphaned(ns0, r)
    ensures r == [] ==> mi == NIL
    ensures r != [] ==> LeastFirst(ns, r, mi)
  {
    ns, mi := ns0, node;
    var cur := node;
    ghost var i, k, P := 0, 0, [];
    while cur != NIL
      invariant Cleared(ns0, ns, r, P, i) && Scanned(ns0, r, i, k, mi) && cur == At(r, i)
      decreases |r| - i
    {
      ns, mi, cur, P, i, k := ClearStep(ns0, ns, node, r, P, i, k, mi, cur);
    }
    ClearDone(ns0, ns, r, P, k, mi);
  }

  /** When the loop of the list constructor stops, all of r is cleared and scanned. */
  lemma ClearDone(ns0: seq<Node>, ns: seq<Node>, r: seq<int>, P: seq<int>, k: int, mi: int)
    requires Increasing(ns0, r) && Cleared(ns0, ns, r, P, |r|) && Scanned(ns0, r, |r|, k, mi)
    ensures ns == Orphaned(ns0, r)
    ensures r == [] ==> mi == NIL
    ensures r != [] ==> LeastFirst(ns, r, mi)
  {
    assert P == r;
    if r != [] {
      assert Distinct(r) by {
        forall a, j | 0 <= a < j < |r| ensures r[a] != r[j] {
          assert ns0[r[a]].degree < ns0[r[j]].degree;
        }
      }
      ScanDone(ns0, r, k, mi);
    }
  }

  /** The list constructor has cleared the parents of the first i members of the chain r. */
  ghost predicate Cleared(ns0: seq<Node>, ns: seq<Node>, r: seq<int>, P: seq<int>, i: int)
  {
    && 0 <= i <= |r| && |P| == i && (forall j :: 0 <= j < i ==> P[j] == r[j]) && ns == Orphaned(ns0, P)
    && (At(r, i) == NIL <==> i == |r|)
  }

  /** One round of the list constructor's loop (BinomialHeap.cpp:247-252). */
  method ClearStep(ghost ns0: seq<Node>, ns: seq<Node>, ghost node: int, ghost r: seq<int>, ghost P: seq<int>,
                   ghost i: int, ghost k: int, mi: int, cur: int)
    returns (ns': seq<Node>, mi': int, cur': int, ghost P': seq<int>, ghost i': int, ghost k': int)
    requires Chain(ns0, node, r) && Cleared(ns0, ns, r, P, i) && Scanned(ns0, r, i, k, mi)
    requires cur == At(r, i) && cur != NIL
    ensures Cleared(ns0, ns', r, P', i') && Scanned(ns0, r, i', k', mi') && cur' == At(r, i')
    ensures i' == i + 1
  {
    ChainStep(ns0, node, r, i);
    ScanStep(ns0, r, i, k, mi);
    assert ns[cur].sibling == ns0[cur].sibling && ns[cur].value == ns0[cur].value && ns[mi].value == ns0[mi].value;
    mi', k' := mi, k;
    if ns[mi].value > ns[cur].value {
      mi', k' := cur, i;
    }
    OrphanedStep(ns0, P, cur);
    ns', P' := ns[cur := ns[cur].(parent := NIL)], P + [cur];
    cur', i' := ns[cur].sibling, i + 1;
    if i' < |r| {
      ChainStep(ns0, node, r, i');
    }
  }

  /**
   * The first part of extractMin (BinomialHeap.cpp:64-75): the root x leaves
   * the root list, either as its head or by a walk to the root before it,
   * whose sibling becomes x's sibling.
   */
  method UnlinkRoot(ns: seq<Node>, h: int, x: int, ghost r: seq<int>) returns (ns': seq<Node>, h': int, ghost i: int)
    requires Chain(ns, h, r) && Distinct(r) && x in r
    ensures 0 <= i < |r| && r[i] == x
    ensures Chain(ns', h', Remove(r, i))
    ensures i == 0 ==> ns' == ns
    ensures i > 0 ==> ns' == SetSibling(ns, r[i - 1], At(r, i + 1))
  {
    i :| 0 <= i < |r| && r[i] == x;
    ChainStep(ns, h, r, i);
    if h == x {
      assert i == 0;
      ns', h' := ns, ns[h].sibling;
      if |r| > 1 {
        RemoveChain(ns, ns', r, 0);
      }
      return;
    }
    var prev := h;
    ghost var j := 0;
    while ns[prev].sibling != x
      invariant 0 <= j < i && prev == r[j]
      decreases i - j
    {
      ChainStep(ns, h, r, j);
      prev := ns[prev].sibling;
      j := j + 1;
    }
    ChainStep(ns, h, r, j);
    assert j == i - 1;
    var next := ns[x].sibling;
    ns', h' := SetSibling(ns, prev, next), h;
    RemoveChain(ns, ns', r, i);
  }

  /**
   * The unlinking of extractMin (BinomialHeap.cpp:63-75) on the records: the
   * root x leaves the root list r, which becomes r1 from h1, and t is the
   * tree of x; the other trees form a heap over e - t, also once the parents
   * of x's children are cleared, and those children form a forest over the
   * rest of t.
   */
  method DetachRoot(ns0: seq<Node>, ghost kids: seq<seq<int>>, ghost bs: seq<Buffer>, h: int, x: int, ghost r: seq<int>, ghost e: set<int>)
    returns (ns1: seq<Node>, h1: int, ghost r1: seq<int>, ghost t: set<int>)
    requires |kids| == |ns0| && Linked(ns0, bs) && HeapOk(ns0, kids, bs, h, x, r, e) && e != {}
    ensures SameKeys(ns0, ns1) && x in t && t <= e && ns1[x] == ns0[x] && Linked(ns1, bs)
    ensures 0 <= ns1[x].buffer < |bs|
    ensures TreeList(ns1, kids, bs, ns1[x].child, kids[x], t - {x})
    ensures kids[x] == [] <==> t - {x} == {}
    ensures HeapOk(Orphaned(ns1, kids[x]), kids, bs, h1, h1, r1, e - t)
    ensures RecordsKept(ns0, kids, ns1, kids, e)
  {
    EmptyHead(ns0, kids, bs, h, x, r, e);
    ghost var i;
    ns1, h1, i := UnlinkRoot(ns0, h, x, r);
    r1 := Remove(r, i);
    t := SplitAtRoot(ns0, ns1, kids, bs, r, e, i, h1);
  }

  /**
   * After x = r[i] leaves the root list (ns1, as UnlinkRoot leaves it) and
   * the list constructor clears the parents of x's children, the other trees
   * form a heap over e - t with the root list from h1, and x's children form
   * a forest over t - {x}, where t is the tree of x.
   */
  lemma SplitAtRoot(ns0: seq<Node>, ns1: seq<Node>, kids: seq<seq<int>>, bs: seq<Buffer>, r: seq<int>, e: set<int>, i: int, h1: int)
    returns (t: set<int>)
    requires Forest(ns0, kids, r, e) && Buffered(ns0, bs, e) && Linked(ns0, bs)
    requires Distinct(r) && Increasing(ns0, r) && 0 <= i < |r|
    requires i == 0 ==> ns1 == ns0
    requires i > 0 ==> ns1 == SetSibling(ns0, r[i - 1], At(r, i + 1))
    requires Chain(ns1, h1, Remove(r, i))
    ensures r[i] in t && t <= e && ns1[r[i]] == ns0[r[i]] && Linked(ns1, bs)
    ensures SameKeys(ns0, ns1)
    ensures Chain(ns1, ns1[r[i]].child, kids[r[i]]) && Increasing(ns1, kids[r[i]])
    ensures Forest(Orphaned(ns1, kids[r[i]]), kids, kids[r[i]], t - {r[i]}) && Buffered(ns1, bs, t - {r[i]})
    ensures kids[r[i]] == [] <==> t - {r[i]} == {}
    ensures HeapOk(Orphaned(ns1, kids[r[i]]), kids, bs, h1, h1, Remove(r, i), e - t)
  {
    t := Tree(ns0, kids, r, e, r[i]);
    SplitChildren(ns0, ns1, kids, bs, r, e, i, t);
    SplitRest(ns0, ns1, kids, bs, r, e, i, h1, t);
  }

  /** The children half of SplitAtRoot. */
  lemma SplitChildren(ns0: seq<Node>, ns1: seq<Node>, kids: seq<seq<int>>, bs: seq<Buffer>, r: seq<int>, e: set<int>, i: int, t: set<int>)
    requires Forest(ns0, kids, r, e) && Buffered(ns0, bs, e) && Distinct(r) && 0 <= i < |r|
    requires i == 0 ==> ns1 == ns0
    requires i > 0 ==> ns1 == SetSibling(ns0, r[i - 1], At(r, i + 1))
    requires t == Tree(ns0, kids, r, e, r[i])
    ensures r[i] in t && t <= e && ns1[r[i]] == ns0[r[i]]
    ensures Chain(ns1, ns1[r[i]].child, kids[r[i]]) && Increasing(ns1, kids[r[i]])
    ensures Forest(Orphaned(ns1, kids[r[i]]), kids, kids[r[i]], t - {r[i]}) && Buffered(ns1, bs, t - {r[i]})
    ensures kids[r[i]] == [] <==> t - {r[i]} == {}
  {
    var x := r[i];
    ChildForest(ns0, kids, r, e, x);
    assert x in e && KidsOk(ns0, kids, e, x);
    if i > 0 {
      var y := r[i - 1];
      assert y in e && RootOf(ns0, kids, r, e, y) == y && y != x;
      RootsAreNotKids(ns0, kids, r, e, y);
      assert forall j :: 0 <= j < |kids[x]| ==> kids[x][j] != y;
      assert y !in t;
    }
    ForestFrame(Orphaned(ns0, kids[x]), Orphaned(ns1, kids[x]), kids, kids[x], t - {x});
    if kids[x] == [] {
      forall n | n in t - {x} ensures false {
        RootBelow(Orphaned(ns1, kids[x]), kids, kids[x], t - {x}, n);
      }
    } else {
      assert kids[x][0] in t - {x};
    }
  }

  /** The half of SplitAtRoot about the trees that stay. */
  lemma SplitRest(ns0: seq<Node>, ns1: seq<Node>, kids: seq<seq<int>>, bs: seq<Buffer>, r: seq<int>, e: set<int>, i: int, h1: int, t: set<int>)
    requires Forest(ns0, kids, r, e) && Buffered(ns0, bs, e) && Linked(ns0, bs)
    requires Distinct(r) && Increasing(ns0, r) && 0 <= i < |r|
    requires i == 0 ==> ns1 == ns0
    requires i > 0 ==> ns1 == SetSibling(ns0, r[i - 1], At(r, i + 1))
    requires Chain(ns1, h1, Remove(r, i))
    requires t == Tree(ns0, kids, r, e, r[i])
    ensures Linked(ns1, bs)
    ensures SameKeys(ns0, ns1)
    ensures HeapOk(Orphaned(ns1, kids[r[i]]), kids, bs, h1, h1, Remove(r, i), e - t)
  {
    var x, r' := r[i], Remove(r, i);
    RestForest(ns0, kids, r, e, i);
    RemoveMembers(r, i);
    if i > 0 {
      var y := r[i - 1];
      assert y in r';
      RootSiblingKeepsForest(ns0, kids, r', e - t, y, At(r, i + 1));
      SiblingKeepsKeys(ns0, bs, y, At(r, i + 1));
    }
    RemoveIncreasing(ns0, ns1, r, i);
    SameKeysKeepBuffers(ns0, ns1, bs, e - t);
    assert HeapOk(ns1, kids, bs, h1, h1, r', e - t) by {
      if r' != [] {
        assert r'[0] in e - t;
      }
    }
    OutsideTree(ns0, kids, r, e, x);
    HeapFrame(ns1, Orphaned(ns1, kids[x]), kids, bs, h1, h1, r', e - t);
  }

  /**
   * deleteMinimumFromMemory on a node x outside e (BinomialHeap.cpp:331-339)
   * leaves every heap over e as it was: x's record and x's buffer, now
   * deleted, belong to no element of e.
   */
  lemma DeleteKeepsHeap(ns: seq<Node>, kids: seq<seq<int>>, bs: seq<Buffer>, h: int, m: int, r: seq<int>, e: set<int>, x: int)
    requires Linked(ns, bs) && HeapOk(ns, kids, bs, h, m, r, e)
    requires 0 <= x < |ns| && x !in e && 0 <= ns[x].buffer < |bs|
    ensures var ns', bs' := ns[x := ns[x].(sibling := NIL, child := NIL, buffer := NIL)], bs[ns[x].buffer := Buffer(NIL, true)];
      Linked(ns', bs') && HeapOk(ns', kids, bs', h, m, r, e) && HandleMap(ns', bs', e) == HandleMap(ns, bs, e)
  {
    var b := ns[x].buffer;
    var ns', bs' := ns[x := ns[x].(sibling := NIL, child := NIL, buffer := NIL)], bs[b := Buffer(NIL, true)];
    assert bs[b].node == x;
    ForestFrame(ns, ns', kids, r, e);
    assert Chain(ns', h, r) by {
      forall k | 0 <= k < |r| ensures r[k] != x {
        assert r[k] in e;
      }
    }
    forall n | n in e ensures ns[n].buffer != b {
    }
  }

  /** A lone node with no links and a live buffer is a list of one tree for the list constructor. */
  lemma SingletonList(ns: seq<Node>, kids: seq<seq<int>>, bs: seq<Buffer>, n: int)
    requires 0 <= n < |ns| == |kids| && kids[n] == []
    requires ns[n].parent == NIL && ns[n].child == NIL && ns[n].sibling == NIL && ns[n].degree == 0
    requires 0 <= ns[n].buffer < |bs| && bs[ns[n].buffer] == Buffer(n, false)
    ensures TreeList(ns, kids, bs, n, [n], {n})
  {
    var ns' := Orphaned(ns, [n]);
    assert ns'[n] == ns[n];
    assert KidsOk(ns', kids, {n}, n) && Placed(ns', kids, [n], {n}, n);
  }

  /** The handle of a single element is its buffer, reading its value. */
  lemma SingleHandle(ns: seq<Node>, bs: seq<Buffer>, n: int)
    requires Linked(ns, bs) && 0 <= n < |ns| && 0 <= ns[n].buffer < |bs| && !bs[ns[n].buffer].deleted
    ensures HandleMap(ns, bs, {n}) == map[ns[n].buffer := ns[n].value]
  {
  }

  /** A new buffer that does not point into e adds no handle of e. */
  lemma GrowHandles(ns: seq<Node>, bs: seq<Buffer>, e: set<int>, x: Node, y: Buffer)
    requires (forall n :: n in e ==> 0 <= n < |ns|) && y.node !in e
    ensures HandleMap(ns + [x], bs + [y], e) == HandleMap(ns, bs, e)
  {
    var ns', bs' := ns + [x], bs + [y];
    var H, H' := HandleMap(ns, bs, e), HandleMap(ns', bs', e);
    assert forall b :: b in H' <==> b in H by {
      forall b ensures b in H' <==> b in H {
        if b == |bs| {
          assert bs'[b] == y;
        } else if 0 <= b < |bs| {
          assert bs'[b] == bs[b];
        }
      }
    }
    forall b | b in H ensures H'[b] == H[b] {
      assert bs'[b] == bs[b];
    }
  }

  /** A new node and buffer appended to the store leave every heap over the old nodes, and its handles, as they were. */
  lemma GrowKeepsHeap(ns: seq<Node>, kids: seq<seq<int>>, bs: seq<Buffer>, h: int, m: int, r: seq<int>, e: set<int>, x: Node, y: Buffer)
    requires HeapOk(ns, kids, bs, h, m, r, e) && y.node !in e
    ensures HeapOk(ns + [x], kids + [[]], bs + [y], h, m, r, e)
    ensures HandleMap(ns + [x], bs + [y], e) == HandleMap(ns, bs, e)
  {
    ForestGrow(ns, kids, r, e, x);
    GrowHandles(ns, bs, e, x, y);
    assert Chain(ns + [x], h, r);
  }

  /** A new node appended to the store leaves every forest over the old nodes as it was. */
  lemma ForestGrow(ns: seq<Node>, kids: seq<seq<int>>, r: seq<int>, e: set<int>, x: Node)
    requires Forest(ns, kids, r, e)
    ensures Forest(ns + [x], kids + [[]], r, e)
  {
    var ns', kids' := ns + [x], kids + [[]];
    forall n | n in e ensures KidsOk(ns', kids', e, n) && Placed(ns', kids', r, e, n) {
      assert KidsOk(ns, kids, e, n) && Placed(ns, kids, r, e, n);
      assert Chain(ns', ns'[n].child, kids'[n]);
    }
  }

  lemma SameKeysKeepBuffers(ns0: seq<Node>, ns: seq<Node>, bs: seq<Buffer>, e: set<int>)
    requires SameKeys(ns0, ns) && Linked(ns0, bs)
    requires forall m :: m in e ==> 0 <= m < |ns0|
    requires Buffered(ns0, bs, e)
    ensures Linked(ns, bs) && Buffered(ns, bs, e)
    ensures HandleMap(ns, bs, e) == HandleMap(ns0, bs, e)
  {
  }

  /** insert adds one record and one buffer past the end of the store and touches nothing else. */
  lemma GrownKept(ns0: seq<Node>, kids0: seq<seq<int>>, bs0: seq<Buffer>, nd: Node, bd: Buffer)
    ensures KeptOutside(ns0, kids0, bs0, Orphaned(ns0 + [nd], [|ns0|]), kids0 + [[]], bs0 + [bd], {})
  {
    forall n | 0 <= n < |ns0| ensures Orphaned(ns0 + [nd], [|ns0|])[n] == ns0[n] {
      assert n !in [|ns0|];
    }
  }

  /** The list constructor clears the parents of the roots r, members of e0 within e, and touches nothing outside e. */
  lemma OrphanedKept(ns: seq<Node>, kids: seq<seq<int>>, bs: seq<Buffer>, r: seq<int>, e0: set<int>, e: set<int>)
    requires Forest(Orphaned(ns, r), kids, r, e0) && e0 <= e
    ensures KeptOutside(ns, kids, bs, Orphaned(ns, r), kids, bs, e)
  {
    forall n | 0 <= n < |ns| && n !in e ensures Orphaned(ns, r)[n] == ns[n] {
      assert n !in r;
    }
  }

  /** Deleting x from the store keeps every other node's value and buffer. */
  lemma DeletedKeys(ns0: seq<Node>, ns1: seq<Node>, ns2: seq<Node>, x: int)
    requires SameKeys(ns0, ns1) && 0 <= x < |ns1|
    requires ns2 == ns1[x := ns1[x].(sibling := NIL, child := NIL, buffer := NIL)]
    ensures |ns2| == |ns0|
    ensures forall n :: 0 <= n < |ns0| && n != x ==> ns2[n].value == ns0[n].value && ns2[n].buffer == ns0[n].buffer
  {
  }

  /** The rest of the heap and the children of x together hold all elements but x. */
  lemma SplitElems(e: set<int>, t: set<int>, x: int)
    requires x in t && t <= e
    ensures (e - t) !! (t - {x}) && (e - t) + (t - {x}) == e - {x}
  {
  }

  /** Extracting x and deleting its buffer drops exactly x's handle. */
  lemma ExtractedHandles(ns1: seq<Node>, bs1: seq<Buffer>, e: set<int>, x: int, ns2: seq<Node>, bs2: seq<Buffer>)
    requires Linked(ns1, bs1) && x in e && (forall n :: n in e ==> 0 <= n < |ns1|)
    requires Buffered(ns1, bs1, e)
    requires forall n :: n in e - {x} ==> 0 <= n < |ns2| && ns2[n].value == ns1[n].value
    requires bs2 == bs1[ns1[x].buffer := Buffer(NIL, true)]
    ensures HandleMap(ns2, bs2, e - {x}) == HandleMap(ns1, bs1, e) - {ns1[x].buffer}
  {
  }

  /** Removing a member leaves a smaller set. */
  lemma RemoveOne(e: set<int>, x: int)
    requires x in e
    ensures e - {x} < e && |e - {x}| == |e| - 1
  {
  }

  /** Removing an updated key forgets the update. */
  lemma MapUpdateRemove(m: map<int, int>, k: int, v: int)
    ensures m[k := v] - {k} == m - {k}
  {
  }

  /** Joining a one-entry map is an update. */
  lemma MapAddOne(m: map<int, int>, k: int, v: int)
    ensures m + map[k := v] == m[k := v]
  {
  }

  /**
   * After a merge that keeps every node's value and buffer, the handles of
   * the merged elements are those of both heaps, each reading the same value.
   */
  lemma MergedHandles(ns0: seq<Node>, ns: seq<Node>, bs: seq<Buffer>, e1: set<int>, e2: set<int>)
    requires SameKeys(ns0, ns)
    ensures HandleMap(ns, bs, e1 + e2) == HandleMap(ns0, bs, e1) + HandleMap(ns0, bs, e2)
  {
  }
}
