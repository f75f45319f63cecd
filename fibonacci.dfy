/**
 * FibonacciHeap (Fibonacci-heap/FibonacciHeap.cpp): a mergeable min-heap of
 * `int` keys whose `insert` hands out a ManipulationPointer through which a
 * key can later be read or decreased.
 *
 * All heaps share one `Memory`: the C++ free store, with node records
 * addressed by index. A handle is the index of its node (NIL for an empty
 * ManipulationPointer); a node extracted from a heap stays in the store with
 * its `deleted` flag, as the `shared_ptr` held by a handle keeps it alive.
 */
module Fibonacci {
  import opened Results
  import opened FibonacciRing
  import opened FibonacciForest
  import opened FibonacciLists
  import opened FibonacciConsolidate
  import opened FibonacciCut
  import opened FibonacciOps
  import opened FibonacciFrame

  /** The free store shared by all heaps. */
  class Memory {
    var nodes: seq<Node>
    /** The child ring of every node, in `right` order from its `child`. */
    ghost var kids: seq<seq<int>>

    ghost predicate Valid()
      reads this
    {
      |kids| == |nodes| && Arena(nodes)
    }

    constructor ()
      ensures Valid() && nodes == [] && kids == []
    {
      nodes, kids := [], [];
    }

    /**
     * The allocation of insert (FibonacciHeap.cpp:60-62): a new node holding
     * key, with no parent, child or degree, unmarked and not deleted, whose
     * `left` and `right` point at itself.
     */
    method Allocate(key: int) returns (n: int)
      requires Valid()
      modifies this
      ensures Valid() && n == |old(nodes)|
      ensures nodes == old(nodes) + [Node(key, NIL, NIL, n, n, 0, false, false)] && kids == old(kids) + [[]]
    {
      n := |nodes|;
      GrowArena(nodes, Node(key, NIL, NIL, n, n, 0, false, false));
      nodes := nodes + [Node(key, NIL, NIL, n, n, 0, false, false)];
      kids := kids + [[]];
    }
  }

  /** Growing the arena by a record whose pointers are in the grown arena keeps it an arena. */
  lemma GrowArena(ns: seq<Node>, x: Node)
    requires Arena(ns) && Pointers(ns + [x], x)
    ensures Arena(ns + [x])
  {
    var ns' := ns + [x];
    forall n | 0 <= n < |ns'| ensures Pointers(ns', ns'[n]) {
      if n < |ns| {
        assert Pointers(ns, ns[n]);
      }
    }
  }

  /** A heap over the old arena is the same heap over the grown one, and the new node is fresh. */
  lemma GrowHeap(ns: seq<Node>, kids: seq<seq<int>>, list: int, R: seq<int>, e: set<int>, key: int)
    requires HeapOk(ns, kids, list, R, e)
    ensures
      var n := |ns|;
      var ns', kids' := ns + [Node(key, NIL, NIL, n, n, 0, false, false)], kids + [[]];
      && HeapOk(ns', kids', list, R, e) && Fresh(ns', kids', n) && n !in e
      && (Least(ns, list, e) ==> Least(ns', list, e))
  {
    var n := |ns|;
    var ns', kids' := ns + [Node(key, NIL, NIL, n, n, 0, false, false)], kids + [[]];
    ForestGrow(ns, kids, Members(R), e, ns'[n]);
    if R != [] {
      forall i | 0 <= i < |R| ensures RingAt(ns', R, i) {
        assert RingAt(ns, R, i);
      }
    }
  }

  /** A new element adds its own handle. */
  lemma KeysAdd(ns0: seq<Node>, ns: seq<Node>, e: set<int>, h: int)
    requires |ns0| <= h < |ns| && forall n :: 0 <= n < |ns0| ==> ns[n].key == ns0[n].key
    requires forall n :: n in e ==> 0 <= n < |ns0|
    ensures KeyMap(ns, e + {h}) == KeyMap(ns0, e)[h := ns[h].key]
  {
  }

  /** An element removed with every other key kept loses its handle only. */
  lemma KeysRemove(ns0: seq<Node>, ns: seq<Node>, e: set<int>, x: int)
    requires |ns| == |ns0| && forall n :: 0 <= n < |ns0| && n != x ==> ns[n].key == ns0[n].key
    ensures KeyMap(ns, e - {x}) == KeyMap(ns0, e) - {x}
  {
  }

  /** One key changed reads through its own handle only. */
  lemma KeysRekeyed(ns0: seq<Node>, ns: seq<Node>, e: set<int>, x: int, k: int)
    requires 0 <= x < |ns0| && x in e && SameKeys(Rekeyed(ns0, x, k), ns)
    ensures KeyMap(ns, e) == KeyMap(ns0, e)[x := k]
  {
  }

  /** The handles of two heaps joined. */
  lemma KeysUnion(ns0: seq<Node>, ns: seq<Node>, e1: set<int>, e2: set<int>)
    requires SameKeys(ns0, ns)
    ensures KeyMap(ns, e1 + e2) == KeyMap(ns0, e1) + KeyMap(ns0, e2)
  {
  }

  /**
   * A heap o is undisturbed by an operation of another heap over the same
   * store, which took the store from (ns0, kids0) to its present state
   * changing nothing outside the elements e, when e and o's elements are
   * disjoint: o, a heap before, is still one, with the same records, the
   * same handles and a least list node if it had one.
   */
  lemma Undisturbed(ns0: seq<Node>, kids0: seq<seq<int>>, o: FibonacciHeap, e: set<int>)
    requires o.mem.Valid() && HeapOk(ns0, kids0, o.list, o.Roots, o.Elems)
    requires KeptOutside(ns0, kids0, o.mem.nodes, o.mem.kids, e) && e !! o.Elems
    ensures o.Valid() && o.Keys() == KeyMap(ns0, o.Elems)
    ensures forall n :: n in o.Elems ==> o.mem.nodes[n] == ns0[n]
    ensures o.Elems != {} && Least(ns0, o.list, o.Elems) ==> o.MinExact()
  {
    OtherHeapKept(ns0, kids0, o.mem.nodes, o.mem.kids, e, o.list, o.Roots, o.Elems);
    if o.Elems != {} {
      assert o.Roots[0] in Members(o.Roots);
    }
  }


  class FibonacciHeap {
    const mem: Memory
    /** fib_trees_list_: the root at which the root ring is entered; NIL when the heap is empty. */
    var list: int
    /** The root ring, in `right` order from list. */
    ghost var Roots: seq<int>
    /** The nodes of this heap. */
    ghost var Elems: set<int>

    /** The heap invariant, on the current contents of the fields and the store. */
    ghost predicate Valid()
      reads this, mem
    {
      mem.Valid() && HeapOk(mem.nodes, mem.kids, list, Roots, Elems)
    }

    /** Every element of this heap with the key getValue reads through its handle. */
    ghost function Keys(): map<int, int>
      reads this, mem
    {
      KeyMap(mem.nodes, Elems)
    }

    /** fib_trees_list_ really is a root of least key. */
    ghost predicate MinExact()
      reads this, mem
    {
      Elems != {} ==> Least(mem.nodes, list, Elems)
    }

    /** FibonacciHeap() (FibonacciHeap.cpp:29): an empty heap over the given store. */
    constructor (m: Memory)
      requires m.Valid()
      ensures Valid() && MinExact() && mem == m && Elems == {} && Roots == [] && list == NIL
    {
      mem := m;
      list := NIL;
      Roots, Elems := [], {};
    }

    /** isEmpty (FibonacciHeap.cpp:48-50). */
    method IsEmpty() returns (r: bool)
      requires Valid()
      ensures r <==> Elems == {}
      ensures r <==> Keys() == map[]
    {
      r := list == NIL;
      if !r {
        assert Roots[0] in Members(Roots) && list in Keys();
      }
    }

    /** getMin (FibonacciHeap.cpp:52-57): the key at fib_trees_list_; an error on an empty heap. */
    method GetMin() returns (r: Result<int>)
      requires Valid()
      ensures Elems == {} <==> r == Err(EmptyHeap)
      ensures r.Ok? ==> list in Keys() && r.value == Keys()[list]
      ensures r.Ok? && MinExact() ==> forall h :: h in Keys() ==> r.value <= Keys()[h]
    {
      if list == NIL {
        return Err(EmptyHeap);
      }
      assert Roots[0] in Members(Roots);
      r := Ok(mem.nodes[list].key);
    }

    /**
     * getValue (FibonacciHeap.cpp:145-153): the key of the handle's node; an
     * error for an empty handle or a node marked deleted.
     */
    method GetValue(h: int) returns (r: Result<int>)
      requires mem.Valid() && (h == NIL || 0 <= h < |mem.nodes|)
      ensures h == NIL ==> r == Err(EmptyHandle)
      ensures h != NIL && mem.nodes[h].deleted ==> r == Err(DeletedElement)
      ensures h != NIL && !mem.nodes[h].deleted ==> r == Ok(mem.nodes[h].key)
      ensures Valid() && h in Keys() ==> r == Ok(Keys()[h])
    {
      if h == NIL {
        return Err(EmptyHandle);
      }
      if mem.nodes[h].deleted {
        return Err(DeletedElement);
      }
      r := Ok(mem.nodes[h].key);
    }

    /**
     * insert (FibonacciHeap.cpp:59-75): a new node for key becomes a root;
     * fib_trees_list_ moves to it when the heap was empty or key is below
     * the key at fib_trees_list_. The handle returned is the new node; it
     * reads key and every other handle reads what it read before.
     */
    method Insert(key: int) returns (h: int)
      requires Valid()
      modifies this, mem
      ensures Valid() && h == |old(mem.nodes)| && |mem.nodes| == h + 1
      ensures Elems == old(Elems) + {h} && Members(Roots) == Members(old(Roots)) + {h}
      ensures Keys() == old(Keys())[h := key]
      ensures list == if old(list) == NIL || key < old(mem.nodes[list].key) then h else old(list)
      ensures old(MinExact()) ==> MinExact()
      ensures KeptOutside(old(mem.nodes), old(mem.kids), mem.nodes, mem.kids, old(Elems))
    {
      ghost var ns0, e0, K0 := mem.nodes, Elems, Keys();
      ghost var least := old(MinExact()) && e0 != {};
      GrowHeap(mem.nodes, mem.kids, list, Roots, Elems, key);
      var n := mem.Allocate(key);
      ghost var ns1 := mem.nodes;
      var ns, l;
      ghost var R;
      ns, l, R := AddRoot(mem.nodes, mem.kids, list, Roots, Elems, n);
      RelinkedKeys(ns1, ns, Members(Roots) + {n});
      KeysAdd(ns0, ns, e0, n);
      Install(ns, mem.kids, l, R, e0 + {n});
      h := n;
    }

    /**
     * extractMin (FibonacciHeap.cpp:77-100): the key at fib_trees_list_; the
     * node's children join the root ring and the node leaves the heap. With
     * other roots left the node is marked deleted and consolidate links the
     * roots, leaving one root per degree and fib_trees_list_ at a least key;
     * a node that was the only element leaves an empty heap and is not
     * marked deleted. An error on an empty heap, which then is left
     * unchanged; Undefined when consolidate indexes past its degree table,
     * which needs more than MERGE_ARRAY_SIZE + 1 elements.
     */
    method ExtractMin() returns (res: Result<int>)
      requires Valid()
      modifies this, mem
      ensures old(Elems) == {} <==> res == Err(EmptyHeap)
      ensures old(Elems) == {} ==> mem.nodes == old(mem.nodes) && list == old(list) && Elems == old(Elems)
      ensures |old(Elems)| <= MERGE_ARRAY_SIZE + 1 ==> res != Err(Undefined)
      ensures res.Ok? ==>
        && Valid() && MinExact()
        && res.value == old(mem.nodes[list].key)
        && 0 <= old(list) < |mem.nodes|
        && Elems == old(Elems) - {old(list)}
        && Keys() == old(Keys()) - {old(list)}
        && mem.nodes[old(list)].deleted == (old(Elems) != {old(list)})
        && forall x, y :: x in Members(Roots) && y in Members(Roots) && mem.nodes[x].degree == mem.nodes[y].degree ==> x == y
      ensures mem.Valid() && |mem.nodes| == |old(mem.nodes)|
      ensures KeptOutside(old(mem.nodes), old(mem.kids), mem.nodes, mem.kids, old(Elems))
    {
      if list == NIL {
        return Err(EmptyHeap);
      }
      assert Roots[0] in Members(Roots);
      ghost var ns0, e0, x := mem.nodes, Elems, list;
      var v := mem.nodes[list].key;
      var ns, l, ok;
      ghost var kids, R;
      ns, kids, l, R, ok := TakeMin(mem.nodes, mem.kids, list, Roots, Elems);
      Install(ns, kids, l, R, e0 - {x});
      if !ok {
        return Err(Undefined);
      }
      KeysRemove(ns0, ns, e0, x);
      res := Ok(v);
    }

    /**
     * decreaseKey (FibonacciHeap.cpp:102-128): an empty handle, a node
     * marked deleted and a key above the node's are errors that change
     * nothing. Otherwise the node's key becomes key and no other key
     * changes. A node without a parent is a root, and fib_trees_list_ moves
     * to it when key is below the key there. Under a parent of smaller key
     * only the key changes. Otherwise the node is cut and the cascade
     * climbs from its former parent; when the node was its parent's only
     * child and the cascade stops at that parent, the heap invariant holds
     * again with the node among the roots. Undefined marks a cut that
     * dereferences nullptr or a climb that does not stop.
     */
    method DecreaseKey(h: int, key: int) returns (res: Outcome)
      requires Valid() && (h == NIL || 0 <= h < |mem.nodes|)
      requires h != NIL && !mem.nodes[h].deleted ==> h in Elems
      modifies this, mem
      ensures h == NIL ==> res == Fail(EmptyHandle)
      ensures h != NIL && old(mem.nodes[h].deleted) ==> res == Fail(DeletedElement)
      ensures h != NIL && !old(mem.nodes[h].deleted) && old(mem.nodes[h].key) < key ==> res == Fail(KeyIncrease)
      ensures h in old(Keys()) && key <= old(Keys())[h] ==> res == Pass || res == Fail(Undefined)
      ensures res == Fail(Undefined) ==>
        h != NIL && old(mem.nodes[h].parent) != NIL && !(old(mem.nodes[mem.nodes[h].parent].key) < key)
      ensures mem.Valid() && |mem.nodes| == |old(mem.nodes)|
      ensures res.Fail? && res.error != Undefined ==>
        mem.nodes == old(mem.nodes) && mem.kids == old(mem.kids) && list == old(list) && Roots == old(Roots) && Elems == old(Elems) && Valid()
      ensures res.Pass? ==>
        && |mem.nodes| == |old(mem.nodes)| && mem.nodes[h].key == key
        && forall n :: 0 <= n < |mem.nodes| && n != h ==> mem.nodes[n].key == old(mem.nodes[n].key) && mem.nodes[n].deleted == old(mem.nodes[n].deleted)
      ensures res.Pass? && old(mem.nodes[h].parent) == NIL ==>
        && Valid() && Elems == old(Elems) && Members(Roots) == Members(old(Roots)) && Keys() == old(Keys())[h := key]
        && mem.nodes == Rekeyed(old(mem.nodes), h, key) && mem.kids == old(mem.kids)
        && KeptOutside(old(mem.nodes), old(mem.kids), mem.nodes, mem.kids, old(Elems))
        && list == (if key < old(mem.nodes[list].key) then h else old(list))
        && (old(MinExact()) ==> MinExact())
      ensures res.Pass? && old(mem.nodes[h].parent) != NIL && old(mem.nodes[mem.nodes[h].parent].key) < key ==>
        && Valid() && Elems == old(Elems) && Roots == old(Roots) && Keys() == old(Keys())[h := key] && list == old(list)
        && mem.nodes == Rekeyed(old(mem.nodes), h, key) && mem.kids == old(mem.kids)
        && KeptOutside(old(mem.nodes), old(mem.kids), mem.nodes, mem.kids, old(Elems))
        && (old(MinExact()) && h !in Members(old(Roots)) ==> MinExact())
      ensures h in old(Elems) && key <= old(mem.nodes[h].key) && old(ShortCut(mem.nodes, mem.kids, Roots, h)) &&
              key <= old(mem.nodes[mem.nodes[h].parent].key) ==>
        && res.Pass? && Valid() && Elems == old(Elems) && Members(Roots) == Members(old(Roots)) + {h}
        && Keys() == old(Keys())[h := key]
        && list == (if key < old(mem.nodes[list].key) then h else old(list))
        && (old(MinExact()) ==> MinExact())
        && mem.kids == old(mem.kids)[old(mem.nodes[h].parent) := []]
        && KeptOutside(old(mem.nodes), old(mem.kids), mem.nodes, mem.kids, old(Elems))
      ensures h in old(Elems) && key <= old(mem.nodes[h].key) && old(StaleRoot(mem.nodes, Roots, Elems, h)) &&
              key <= old(mem.nodes[mem.nodes[h].parent].key) ==>
        var p := old(mem.nodes[h].parent);
        && res.Pass? && Valid() && Elems == old(Elems) && Roots == old(Roots) && list == h
        && Keys() == old(Keys())[h := key]
        && (old(MinExact()) ==> MinExact())
        && mem.kids == old(mem.kids)
        && mem.nodes == Rekeyed(old(mem.nodes), h, key)[p := old(mem.nodes[p]).(child := NIL, degree := old(mem.nodes[p].degree) - 1, marked := true)]
    {
      if h == NIL {
        return Fail(EmptyHandle);
      }
      if mem.nodes[h].deleted {
        return Fail(DeletedElement);
      }
      if mem.nodes[h].key < key {
        return Fail(KeyIncrease);
      }
      assert Pointers(mem.nodes, mem.nodes[h]);
      if mem.nodes[h].parent == NIL {
        LowerAtRoot(h, key);
      } else if mem.nodes[mem.nodes[h].parent].key < key {
        LowerUnderParent(h, key);
      } else {
        var ok := LowerWithCut(h, key);
        if !ok {
          return Fail(Undefined);
        }
      }
      res := Pass;
    }

    /** The root branch of decreaseKey (FibonacciHeap.cpp:113-119). */
    method LowerAtRoot(h: int, key: int)
      requires Valid() && h in Elems && mem.nodes[h].parent == NIL && key <= mem.nodes[h].key
      modifies this, mem
      ensures Valid() && Elems == old(Elems) && Members(Roots) == Members(old(Roots))
      ensures mem.nodes == Rekeyed(old(mem.nodes), h, key) && Keys() == old(Keys())[h := key] && mem.kids == old(mem.kids)
      ensures list == if key < old(mem.nodes[list].key) then h else old(list)
      ensures old(MinExact()) ==> MinExact()
    {
      ghost var ns0, e := mem.nodes, Elems;
      var ns, l;
      ghost var R;
      ns, l, R := LowerRoot(mem.nodes, mem.kids, list, Roots, Elems, h, key);
      KeysRekeyed(ns0, ns, e, h, key);
      Install(ns, mem.kids, l, R, e);
    }

    /** The branch of decreaseKey under a parent of smaller key (FibonacciHeap.cpp:120-123). */
    method LowerUnderParent(h: int, key: int)
      requires Valid() && h in Elems && key <= mem.nodes[h].key
      requires 0 <= mem.nodes[h].parent < |mem.nodes| && mem.nodes[mem.nodes[h].parent].key < key
      modifies this, mem
      ensures Valid() && Elems == old(Elems) && Roots == old(Roots) && list == old(list)
      ensures mem.nodes == Rekeyed(old(mem.nodes), h, key) && Keys() == old(Keys())[h := key] && mem.kids == old(mem.kids)
      ensures old(MinExact()) && h !in Members(Roots) ==> MinExact()
    {
      ghost var ns0, e := mem.nodes, Elems;
      var ns := LowerKey(mem.nodes, mem.kids, list, Roots, Elems, h, key);
      KeysRekeyed(ns0, ns, e, h, key);
      Install(ns, mem.kids, list, Roots, e);
    }

    /** The cut branch of decreaseKey (FibonacciHeap.cpp:124-127). */
    method LowerWithCut(h: int, key: int) returns (ok: bool)
      requires Valid() && h in Elems && key <= mem.nodes[h].key && 0 <= mem.nodes[h].parent < |mem.nodes|
      modifies this, mem
      ensures mem.Valid() && SameKeys(Rekeyed(old(mem.nodes), h, key), mem.nodes)
      ensures old(ShortCut(mem.nodes, mem.kids, Roots, h)) ==>
        && ok && Valid() && Elems == old(Elems) && Members(Roots) == Members(old(Roots)) + {h}
        && Keys() == old(Keys())[h := key]
        && list == (if key < old(mem.nodes[list].key) then h else old(list))
        && (old(MinExact()) ==> MinExact())
        && mem.kids == old(mem.kids)[old(mem.nodes[h].parent) := []]
        && KeptOutside(old(mem.nodes), old(mem.kids), mem.nodes, mem.kids, old(Elems))
      ensures old(StaleRoot(mem.nodes, Roots, Elems, h)) ==>
        var p := old(mem.nodes[h].parent);
        && ok && Valid() && Elems == old(Elems) && Roots == old(Roots) && list == h
        && Keys() == old(Keys())[h := key]
        && (old(MinExact()) ==> MinExact())
        && mem.kids == old(mem.kids)
        && mem.nodes == Rekeyed(old(mem.nodes), h, key)[p := old(mem.nodes[p]).(child := NIL, degree := old(mem.nodes[p].degree) - 1, marked := true)]
    {
      ghost var ns0, e, good := mem.nodes, Elems, ShortCut(mem.nodes, mem.kids, Roots, h);
      var ns, l;
      ghost var kids, R;
      ns, kids, l, R, ok := LowerCut(mem.nodes, mem.kids, list, Roots, Elems, h, key);
      KeysRekeyed(ns0, ns, e, h, key);
      Install(ns, kids, l, R, e);
    }

    /**
     * merge (FibonacciHeap.cpp:130-143). Into an empty heap, this heap takes
     * other's list and other keeps it too. From an empty other nothing
     * changes. Otherwise the root rings are spliced, fib_trees_list_ moves
     * to other's when its key is smaller, and other is left empty. In every
     * case this heap then holds the elements and handles of both.
     */
    method Merge(other: FibonacciHeap)
      requires Valid() && other.Valid() && other != this && other.mem == mem && Elems !! other.Elems
      modifies this, other, mem
      ensures Valid() && other.Valid()
      ensures Elems == old(Elems) + old(other.Elems) && Keys() == old(Keys()) + old(other.Keys())
      ensures old(MinExact()) && old(other.MinExact()) ==> MinExact()
      ensures old(list) == NIL ==>
        && list == old(other.list) && Roots == old(other.Roots) && mem.nodes == old(mem.nodes)
        && other.list == old(other.list) && other.Roots == old(other.Roots) && other.Elems == old(other.Elems)
      ensures old(list) != NIL && old(other.list) == NIL ==> list == old(list) && Roots == old(Roots) && mem.nodes == old(mem.nodes)
      ensures old(list) != NIL && old(other.list) != NIL ==>
        && other.list == NIL && other.Elems == {} && other.Roots == []
        && list == (if old(mem.nodes[other.list].key) < old(mem.nodes[list].key) then old(other.list) else old(list))
        && Members(Roots) == Members(old(Roots)) + Members(old(other.Roots))
      ensures |mem.nodes| == |old(mem.nodes)| && mem.kids == old(mem.kids)
      ensures KeptOutside(old(mem.nodes), old(mem.kids), mem.nodes, mem.kids, old(Elems) + old(other.Elems))
    {
      ghost var K1, K2 := Keys(), other.Keys();
      if list == NIL {
        assert Elems == {};
        Install(mem.nodes, mem.kids, other.list, other.Roots, other.Elems);
        return;
      }
      if other.list == NIL {
        assert other.Elems == {};
        assert Elems + other.Elems == Elems;
        return;
      }
      ghost var ns0, e1, e2 := mem.nodes, Elems, other.Elems;
      assert Roots[0] in Members(Roots) && other.Roots[0] in Members(other.Roots);
      var ns, l;
      ghost var R;
      ns, l, R := JoinHeaps(mem.nodes, mem.kids, list, Roots, Elems, other.list, other.Roots, other.Elems);
      RelinkedKeys(ns0, ns, Members(Roots) + Members(other.Roots));
      KeysUnion(ns0, ns, e1, e2);
      Install(ns, mem.kids, l, R, e1 + e2);
      other.Clear();
    }

    /** Installs a new node store, list and root ring: the pointer updates that end an operation. */
    method Install(ns: seq<Node>, ghost kids: seq<seq<int>>, l: int, ghost r: seq<int>, ghost e: set<int>)
      modifies this, mem
      ensures mem.nodes == ns && mem.kids == kids
      ensures list == l && Roots == r && Elems == e
    {
      mem.nodes, mem.kids := ns, kids;
      list, Roots, Elems := l, r, e;
    }

    /** `otherHeap.fib_trees_list_.reset()`: the heap is left without elements. */
    method Clear()
      modifies this
      ensures list == NIL && Roots == [] && Elems == {}
    {
      list, Roots, Elems := NIL, [], {};
    }
  }
}
