/**
 * The node records of a Fibonacci heap stored in an arena, and the circular
 * doubly-linked lists (`left`/`right`) that hold its roots and, under every
 * node, its children. `shared_ptr<Node>` links become indices into a
 * sequence of records and `nullptr` becomes NIL; a ring is described by the
 * sequence of its members in `right` order.
 */
module FibonacciRing {

  /** The index that stands for `nullptr`. */
  const NIL: int := -1

  /** FibonacciHeap::Node (FibonacciHeap.cpp:157-179). */
  datatype Node = Node(key: int, parent: int, child: int, left: int, right: int, degree: int, marked: bool, deleted: bool)

  /** A pointer field: nullptr or a node of the arena. */
  predicate Ptr(ns: seq<Node>, p: int)
  {
    p == NIL || 0 <= p < |ns|
  }

  predicate Pointers(ns: seq<Node>, x: Node)
  {
    Ptr(ns, x.parent) && Ptr(ns, x.child) && Ptr(ns, x.left) && Ptr(ns, x.right)
  }

  /** Every pointer field of every record is nullptr or a node of the arena. */
  ghost predicate Arena(ns: seq<Node>)
  {
    forall n :: 0 <= n < |ns| ==> Pointers(ns, ns[n])
  }

  ghost predicate InRange(ns: seq<Node>, s: seq<int>)
  {
    forall i :: 0 <= i < |s| ==> 0 <= s[i] < |ns|
  }

  ghost predicate Distinct(s: seq<int>)
  {
    forall i, j :: 0 <= i < j < |s| ==> s[i] != s[j]
  }

  function Members(s: seq<int>): set<int>
  {
    set x | x in s
  }

  /** The member after position i, going round. */
  function Succ(s: seq<int>, i: int): int
    requires 0 <= i < |s|
  {
    if i + 1 < |s| then s[i + 1] else s[0]
  }

  /** The member before position i, going round. */
  function Pred(s: seq<int>, i: int): int
    requires 0 <= i < |s|
  {
    if 0 < i then s[i - 1] else s[|s| - 1]
  }

  /** The member at position i of r links to its neighbours in r. */
  ghost predicate RingAt(ns: seq<Node>, r: seq<int>, i: int)
    requires 0 <= i < |r| && InRange(ns, r)
  {
    ns[r[i]].right == Succ(r, i) && ns[r[i]].left == Pred(r, i)
  }

  /** r is a circular list: each member's `right` is the next member and its `left` the previous. */
  ghost predicate Ring(ns: seq<Node>, r: seq<int>)
  {
    && r != [] && InRange(ns, r) && Distinct(r)
    && forall i :: 0 <= i < |r| ==> RingAt(ns, r, i)
  }

  /** The record without its ring links. */
  function Bare(x: Node): Node
  {
    x.(left := NIL, right := NIL)
  }

  /** ns differs from ns0 at most in the ring links of the members of s. */
  ghost predicate Relinked(ns0: seq<Node>, ns: seq<Node>, s: set<int>)
  {
    && |ns| == |ns0|
    && forall n :: 0 <= n < |ns0| ==> if n in s then Bare(ns[n]) == Bare(ns0[n]) else ns[n] == ns0[n]
  }

  /** A ring depends only on the links of its members. */
  lemma RingFrame(ns0: seq<Node>, ns: seq<Node>, r: seq<int>)
    requires Ring(ns0, r) && |ns| == |ns0|
    requires forall i :: 0 <= i < |r| ==> ns[r[i]].left == ns0[r[i]].left && ns[r[i]].right == ns0[r[i]].right
    ensures Ring(ns, r)
  {
    forall i | 0 <= i < |r| ensures RingAt(ns, r, i) {
      assert RingAt(ns0, r, i);
    }
  }

  /** A list of distinct members has as many members as entries. */
  lemma {:induction false} DistinctCard(s: seq<int>)
    requires Distinct(s)
    ensures |Members(s)| == |s|
    decreases |s|
  {
    if s != [] {
      var t := s[1..];
      assert Distinct(t) by {
        forall i, j | 0 <= i < j < |t| ensures t[i] != t[j] {
          assert s[i + 1] != s[j + 1];
        }
      }
      DistinctCard(t);
      assert s[0] !in Members(t) by {
        forall i | 0 <= i < |t| ensures t[i] != s[0] {
          assert s[i + 1] != s[0];
        }
      }
      assert Members(s) == Members(t) + {s[0]} by {
        assert s == [s[0]] + t;
      }
    }
  }

  /** A node whose links point at itself is a ring of one. */
  lemma Single(ns: seq<Node>, x: int)
    requires 0 <= x < |ns| && ns[x].left == x && ns[x].right == x
    ensures Ring(ns, [x])
  {
    assert RingAt(ns, [x], 0);
  }

  /** Left and right of a member of a ring are members too. */
  lemma RingNeighbours(ns: seq<Node>, r: seq<int>, i: int)
    requires Ring(ns, r) && 0 <= i < |r|
    ensures ns[r[i]].right in r && ns[r[i]].left in r
    ensures ns[r[i]].right == r[i] <==> |r| == 1
    ensures ns[r[i]].left == r[i] <==> |r| == 1
  {
    assert RingAt(ns, r, i);
    if |r| > 1 {
      if i + 1 < |r| { assert r[i + 1] != r[i]; } else { assert r[0] != r[i]; }
      if 0 < i { assert r[i - 1] != r[i]; } else { assert r[|r| - 1] != r[i]; }
    }
  }

  /** Position i of the rotation r[k..] + r[..k] holds r at position Rotated(|r|, k, i). */
  function Rotated(n: int, k: int, i: int): int
  {
    if i < n - k then i + k else i + k - n
  }

  lemma RotateAt(r: seq<int>, k: int)
    requires 0 <= k < |r|
    ensures forall i :: 0 <= i < |r| ==> (r[k..] + r[..k])[i] == r[Rotated(|r|, k, i)]
  {
  }

  lemma RotateDistinct(r: seq<int>, k: int)
    requires Distinct(r) && 0 <= k < |r|
    ensures Distinct(r[k..] + r[..k])
  {
    var s, n := r[k..] + r[..k], |r|;
    RotateAt(r, k);
    forall i, j | 0 <= i < j < n ensures s[i] != s[j] {
      var a, b := Rotated(n, k, i), Rotated(n, k, j);
      if a < b { assert r[a] != r[b]; } else { assert r[b] != r[a]; }
    }
  }

  lemma RotateMembers(r: seq<int>, k: int)
    requires 0 <= k < |r|
    ensures Members(r[k..] + r[..k]) == Members(r)
  {
    var s, n := r[k..] + r[..k], |r|;
    forall x | x in r ensures x in s {
      var a :| 0 <= a < n && r[a] == x;
      if a >= k { assert s[a - k] == x; } else { assert s[a + n - k] == x; }
    }
  }

  /** Going round a ring from any member gives the same ring. */
  lemma RingRotate(ns: seq<Node>, r: seq<int>, k: int)
    requires Ring(ns, r) && 0 <= k < |r|
    ensures Ring(ns, r[k..] + r[..k]) && Members(r[k..] + r[..k]) == Members(r)
    ensures (r[k..] + r[..k])[0] == r[k] && |r[k..] + r[..k]| == |r|
  {
    var s, n := r[k..] + r[..k], |r|;
    RotateAt(r, k);
    RotateDistinct(r, k);
    RotateMembers(r, k);
    forall i | 0 <= i < n ensures RingAt(ns, s, i) {
      assert RingAt(ns, r, Rotated(n, k, i));
    }
  }

  /** The arena after the four writes of mergeNodes, stated field by field. */
  ghost predicate AfterSplice(ns0: seq<Node>, ns: seq<Node>, a: seq<int>, b: seq<int>)
    requires a != [] && b != []
  {
    && |ns| == |ns0|
    && forall n :: 0 <= n < |ns| ==>
      && Bare(ns[n]) == Bare(ns0[n])
      && ns[n].right == (if n == b[0] then a[0] else if n == a[|a| - 1] then Succ(b, 0) else ns0[n].right)
      && ns[n].left == (if n == a[0] then b[0] else if n == Succ(b, 0) then a[|a| - 1] else ns0[n].left)
  }

  /** Position i of a + b[1..] + b[..1]. */
  lemma SpliceAt(a: seq<int>, b: seq<int>)
    requires b != []
    ensures forall i :: 0 <= i < |a| + |b| ==>
      (a + b[1..] + b[..1])[i] == (if i < |a| then a[i] else if i < |a| + |b| - 1 then b[i - |a| + 1] else b[0])
  {
  }

  lemma SpliceDistinct(a: seq<int>, b: seq<int>)
    requires b != [] && Distinct(a) && Distinct(b) && Members(a) !! Members(b)
    ensures Distinct(a + b[1..] + b[..1])
  {
    var c, A, B := a + b[1..] + b[..1], |a|, |b|;
    SpliceAt(a, b);
    forall i, j | 0 <= i < j < |c| ensures c[i] != c[j] {
      if j < A {
        assert a[i] != a[j];
      } else if i >= A {
        var x, y := (if i < A + B - 1 then i - A + 1 else 0), (if j < A + B - 1 then j - A + 1 else 0);
        if x < y { assert b[x] != b[y]; } else { assert b[y] != b[x]; }
      } else {
        assert c[i] in Members(a);
      }
    }
  }

  lemma SpliceMembers(a: seq<int>, b: seq<int>)
    requires b != []
    ensures Members(a + b[1..] + b[..1]) == Members(a) + Members(b)
  {
    var c, A, B := a + b[1..] + b[..1], |a|, |b|;
    SpliceAt(a, b);
    forall x | x in b ensures x in c {
      var y :| 0 <= y < B && b[y] == x;
      if y == 0 { assert c[A + B - 1] == x; } else { assert c[A + y - 1] == x; }
    }
  }

  /** Splicing ring b into ring a before a[0] gives the ring a, then b from b[1] round to b[0]. */
  lemma SpliceRing(ns0: seq<Node>, ns: seq<Node>, a: seq<int>, b: seq<int>)
    requires Ring(ns0, a) && Ring(ns0, b) && Members(a) !! Members(b)
    requires AfterSplice(ns0, ns, a, b)
    ensures Ring(ns, a + b[1..] + b[..1])
    ensures Members(a + b[1..] + b[..1]) == Members(a) + Members(b)
  {
    var c, A, B := a + b[1..] + b[..1], |a|, |b|;
    SpliceAt(a, b);
    SpliceDistinct(a, b);
    SpliceMembers(a, b);
    assert InRange(ns, c);
    forall i | 0 <= i < |c| ensures RingAt(ns, c, i) {
      if i < A {
        assert c[i] !in Members(b);
        assert RingAt(ns0, a, i);
        if i < A - 1 { assert a[i] != a[A - 1]; }
        if 0 < i { assert a[i] != a[0]; }
      } else {
        var x := if i < A + B - 1 then i - A + 1 else 0;
        assert c[i] == b[x] && c[i] !in Members(a);
        assert RingAt(ns0, b, x);
        if x != 0 { assert b[x] != b[0]; }
        if B > 1 && x != 1 { assert b[x] != b[1]; }
      }
    }
  }

  /** The four writes of mergeNodes, in their order, leave the arena described by AfterSplice. */
  lemma SpliceWrites(ns0: seq<Node>, ns: seq<Node>, a: seq<int>, b: seq<int>)
    requires Ring(ns0, a) && Ring(ns0, b) && Members(a) !! Members(b)
    requires
      var f, s, l, r := a[0], b[0], a[|a| - 1], Succ(b, 0);
      var ns1 := ns0[s := ns0[s].(right := f)];
      var ns2 := ns1[f := ns1[f].(left := s)];
      var ns3 := ns2[l := ns2[l].(right := r)];
      ns == ns3[r := ns3[r].(left := l)]
    ensures AfterSplice(ns0, ns, a, b)
  {
    var f, s, l, r := a[0], b[0], a[|a| - 1], Succ(b, 0);
    assert f in Members(a) && l in Members(a) && s in Members(b) && r in Members(b);
    assert f != s && f != r && l != s && l != r;
    forall n | 0 <= n < |ns|
      ensures Bare(ns[n]) == Bare(ns0[n])
      ensures ns[n].right == (if n == s then f else if n == l then r else ns0[n].right)
      ensures ns[n].left == (if n == f then s else if n == r then l else ns0[n].left)
    {
    }
  }

  /** Only ring links differ between ns0 and ns. */
  ghost predicate LinksOnly(ns0: seq<Node>, ns: seq<Node>)
  {
    |ns| == |ns0| && forall n :: 0 <= n < |ns| ==> Bare(ns[n]) == Bare(ns0[n])
  }

  /** first and second head the disjoint rings a and b. */
  ghost predicate Spliceable(ns: seq<Node>, first: int, second: int, a: seq<int>, b: seq<int>)
  {
    && first != NIL && second != NIL
    && Ring(ns, a) && a[0] == first && Ring(ns, b) && b[0] == second
    && Members(a) !! Members(b)
  }

  /** Setting the `right` or the `left` of one node to a pointer of the arena. */
  function SetLink(ns: seq<Node>, x: int, right: bool, v: int): seq<Node>
    requires 0 <= x < |ns|
  {
    ns[x := if right then ns[x].(right := v) else ns[x].(left := v)]
  }

  lemma SetLinkFrame(ns: seq<Node>, x: int, right: bool, v: int)
    requires Arena(ns) && 0 <= x < |ns| && Ptr(ns, v)
    ensures LinksOnly(ns, SetLink(ns, x, right, v)) && Arena(SetLink(ns, x, right, v))
  {
    var ns' := SetLink(ns, x, right, v);
    forall n | 0 <= n < |ns'| ensures Bare(ns'[n]) == Bare(ns[n]) && Pointers(ns', ns'[n]) {
      assert Pointers(ns, ns[n]);
    }
  }

  lemma LinksOnlyTrans(ns0: seq<Node>, ns1: seq<Node>, ns2: seq<Node>)
    requires LinksOnly(ns0, ns1) && LinksOnly(ns1, ns2)
    ensures LinksOnly(ns0, ns2)
  {
  }

  /** The four writes of mergeNodes change ring links only and keep every pointer in the arena. */
  lemma SpliceFrame(ns0: seq<Node>, ns: seq<Node>, f: int, s: int, l: int, r: int)
    requires Arena(ns0) && 0 <= f < |ns0| && 0 <= s < |ns0| && 0 <= l < |ns0| && 0 <= r < |ns0|
    requires ns == SetLink(SetLink(SetLink(SetLink(ns0, s, true, f), f, false, s), l, true, r), r, false, l)
    ensures LinksOnly(ns0, ns) && Arena(ns)
  {
    var ns1 := SetLink(ns0, s, true, f);
    SetLinkFrame(ns0, s, true, f);
    var ns2 := SetLink(ns1, f, false, s);
    SetLinkFrame(ns1, f, false, s);
    var ns3 := SetLink(ns2, l, true, r);
    SetLinkFrame(ns2, l, true, r);
    SetLinkFrame(ns3, r, false, l);
    LinksOnlyTrans(ns0, ns1, ns2);
    LinksOnlyTrans(ns0, ns2, ns3);
    LinksOnlyTrans(ns0, ns3, ns);
  }

  /** On two rings, left of `first` is the last of a and right of `second` the member after it. */
  lemma SpliceEnds(ns: seq<Node>, first: int, second: int, a: seq<int>, b: seq<int>)
    requires Spliceable(ns, first, second, a, b) || first == NIL || second == NIL || (0 <= first < |ns| && 0 <= second < |ns|)
    ensures Spliceable(ns, first, second, a, b) ==> ns[first].left == a[|a| - 1] >= 0 && ns[second].right == Succ(b, 0) >= 0
  {
    if Spliceable(ns, first, second, a, b) {
      assert RingAt(ns, a, 0) && RingAt(ns, b, 0);
    }
  }

  /**
   * mergeNodes (FibonacciHeap.cpp:181-196): the ring of `second` is spliced
   * into the ring of `first` just before `first`. Going right from `first`
   * then meets the ring of `first` and after it the ring of `second`, from
   * the member right of `second` round to `second`. With a nullptr argument
   * nothing changes: the assignment `first = second` only rebinds the
   * parameter. ok is false when the code would follow a nullptr `left` of
   * `first` or `right` of `second`, which cannot happen on two rings.
   */
  method MergeNodes(ns0: seq<Node>, first: int, second: int, ghost a: seq<int>, ghost b: seq<int>) returns (ns: seq<Node>, ok: bool)
    requires Arena(ns0) && Ptr(ns0, first) && Ptr(ns0, second)
    ensures LinksOnly(ns0, ns) && Arena(ns)
    ensures first == NIL || second == NIL ==> ok && ns == ns0
    ensures first != NIL && first == second && ns0[first].left == first && ns0[first].right == first ==> ok && ns == ns0
    ensures Spliceable(ns0, first, second, a, b) ==>
      && ok
      && Ring(ns, a + b[1..] + b[..1])
      && Members(a + b[1..] + b[..1]) == Members(a) + Members(b)
      && Relinked(ns0, ns, Members(a) + Members(b))
  {
    if first == NIL || second == NIL {
      return ns0, true;
    }
    var leftF := ns0[first].left;
    var rightS := ns0[second].right;
    SpliceEnds(ns0, first, second, a, b);
    if leftF == NIL || rightS == NIL {
      return ns0, false;
    }
    ns := ns0[second := ns0[second].(right := first)];
    ns := ns[first := ns[first].(left := second)];
    ns := ns[leftF := ns[leftF].(right := rightS)];
    ns := ns[rightS := ns[rightS].(left := leftF)];
    SpliceFrame(ns0, ns, first, second, leftF, rightS);
    ok := true;
    if Spliceable(ns0, first, second, a, b) {
      SpliceWrites(ns0, ns, a, b);
      SpliceRing(ns0, ns, a, b);
    }
  }

  /**
   * Unlinking x, the first member of ring r, as extractMin and consolidate
   * do (FibonacciHeap.cpp:91-92, 208-209): the neighbours of x point at each
   * other, so the rest of r is a ring; x keeps its own links.
   */
  method Unlink(ns0: seq<Node>, x: int, ghost r: seq<int>) returns (ns: seq<Node>)
    requires Arena(ns0) && Ring(ns0, r) && r[0] == x && |r| >= 2
    ensures Arena(ns) && Ring(ns, r[1..]) && Members(r[1..]) == Members(r) - {x}
    ensures Relinked(ns0, ns, Members(r[1..])) && ns[x] == ns0[x]
  {
    assert RingAt(ns0, r, 0);
    var l, rt := ns0[x].left, ns0[x].right;
    ns := ns0[l := ns0[l].(right := rt)];
    ns := ns[rt := ns[rt].(left := l)];
    var s := r[1..];
    assert l == s[|s| - 1] && rt == s[0];
    forall i | 0 <= i < |s| ensures RingAt(ns, s, i) {
      assert s[i] == r[i + 1] && r[i + 1] != r[0];
      assert RingAt(ns0, r, i + 1);
      if i + 1 < |s| { assert s[i] != s[|s| - 1]; }
      if 0 < i { assert s[i] != s[0]; }
    }
    assert Ring(ns, s);
    assert Members(s) == Members(r) - {x} by {
      forall y | y in r && y != x ensures y in s {
        var j :| 0 <= j < |r| && r[j] == y;
      }
      forall y | y in s ensures y != x {
        var j :| 0 <= j < |s| && s[j] == y;
        assert r[j + 1] != r[0];
      }
    }
  }
}
