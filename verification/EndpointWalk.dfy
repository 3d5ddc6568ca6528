/** The endpoint array of a proof and the walk over it: from an endpoint to the only other
    endpoint at the same node, then across that endpoint's edge.
 */
module EndpointWalk {
  import opened BipartiteGraph
  import opened Sequences

  /** Endpoint 2i is the first-side end of edge i, endpoint 2i + 1 its second-side end. */
  ghost predicate Endpoints(ep: seq<Id>, es: seq<Edge>) {
    |ep| == 2 * |es| && forall i :: 0 <= i < |es| ==> ep[2 * i] == es[i].u && ep[2 * i + 1] == es[i].v
  }

  function NodeAt(ep: seq<Id>, i: nat): Node
    requires i < |ep|
  {
    if i % 2 == 0 then U(ep[i]) else V(ep[i])
  }

  /** The endpoint at the other end of the same edge. */
  function Flip(i: nat): nat {
    if i % 2 == 0 then i + 1 else i - 1
  }

  /** m is the one other endpoint at c's node. */
  ghost predicate Mate(ep: seq<Id>, c: nat, m: nat) {
    && c < |ep| && m < |ep| && m != c && NodeAt(ep, m) == NodeAt(ep, c)
    && forall i: nat :: i < |ep| && NodeAt(ep, i) == NodeAt(ep, c) ==> i == c || i == m
  }

  lemma MateSym(ep: seq<Id>, c: nat, m: nat)
    requires Mate(ep, c, m)
    ensures Mate(ep, m, c)
  {
  }

  lemma MateUnique(ep: seq<Id>, c: nat, m: nat, m': nat)
    requires Mate(ep, c, m) && Mate(ep, c, m')
    ensures m == m'
  {
  }

  /** The endpoints visited so far, from endpoint 0. */
  ghost predicate Visits(ep: seq<Id>, tr: seq<nat>) {
    && |ep| % 2 == 0 && |tr| > 0 && tr[0] == 0
    && (forall k :: 0 <= k < |tr| ==> tr[k] < |ep|)
    && (forall i, j :: 0 <= i < j < |tr| && j == i + 1 ==> Mate(ep, tr[i], Flip(tr[j])))
  }

  lemma {:induction false} VisitParity(ep: seq<Id>, tr: seq<nat>, k: nat)
    requires Visits(ep, tr) && k < |tr|
    ensures tr[k] % 2 == k % 2
  {
    if k > 0 {
      VisitParity(ep, tr, k - 1);
      assert Mate(ep, tr[k - 1], Flip(tr[k]));
    }
  }

  /** The next-endpoint map is injective, so the walk can only repeat its start. */
  lemma {:induction false} NoRepeat(ep: seq<Id>, tr: seq<nat>, a: nat, b: nat)
    requires Visits(ep, tr) && a < b < |tr| && tr[a] == tr[b]
    ensures tr[b - a] == 0
    decreases a
  {
    if a > 0 {
      var m := Flip(tr[a]);
      assert Mate(ep, tr[a - 1], Flip(tr[a])) && Mate(ep, tr[b - 1], Flip(tr[b]));
      MateSym(ep, tr[a - 1], m);
      MateSym(ep, tr[b - 1], m);
      MateUnique(ep, m, tr[a - 1], tr[b - 1]);
      NoRepeat(ep, tr, a - 1, b - 1);
    }
  }

  /** A walk that has not come back to 0 repeats nothing; so it is no longer than the array. */
  lemma OpenWalkDistinct(ep: seq<Id>, tr: seq<nat>)
    requires Visits(ep, tr) && forall k :: 1 <= k < |tr| ==> tr[k] != 0
    ensures Distinct(tr) && |tr| <= |ep|
  {
    forall a, b | 0 <= a < b < |tr|
      ensures tr[a] != tr[b]
    {
      if tr[a] == tr[b] {
        NoRepeat(ep, tr, a, b);
        assert false;
      }
    }
    DistinctBound(tr, |ep|);
  }

  /** The walk never crosses an edge back: it would need an endpoint that is its own mate. */
  lemma {:induction false} NoCrossBack(ep: seq<Id>, tr: seq<nat>, a: nat, b: nat)
    requires Visits(ep, tr) && a < b < |tr|
    ensures tr[b] != Flip(tr[a])
    decreases b - a
  {
    VisitParity(ep, tr, a);
    VisitParity(ep, tr, b);
    if tr[b] == Flip(tr[a]) {
      assert Mate(ep, tr[b - 1], Flip(tr[b]));
      if b > a + 1 {
        assert Mate(ep, tr[a], Flip(tr[a + 1]));
        MateSym(ep, tr[b - 1], tr[a]);
        MateUnique(ep, tr[a], Flip(tr[a + 1]), tr[b - 1]);
        NoCrossBack(ep, tr, a + 1, b - 1);
      }
      assert false;
    }
  }

  // ---------- a closed walk visits distinct edges and nodes ----------

  /** The walk came back to its start after |tr| steps; `tr` lists where it was before each. */
  ghost predicate Closed(ep: seq<Id>, tr: seq<nat>) {
    && Visits(ep, tr)
    && (forall k :: 1 <= k < |tr| ==> tr[k] != 0)
    && Mate(ep, tr[|tr| - 1], Flip(0))
  }

  function EdgesVisited(tr: seq<nat>): (r: seq<nat>)
    ensures |r| == |tr| && forall k :: 0 <= k < |tr| ==> r[k] == tr[k] / 2
  {
    seq(|tr|, k requires 0 <= k < |tr| => tr[k] / 2)
  }

  lemma HalfOrFlip(i: nat, j: nat)
    requires i / 2 == j / 2
    ensures i == j || j == Flip(i)
  {
  }

  lemma EdgesDistinct(ep: seq<Id>, tr: seq<nat>)
    requires Closed(ep, tr)
    ensures Distinct(EdgesVisited(tr)) && |tr| <= |ep| / 2
  {
    OpenWalkDistinct(ep, tr);
    var r := EdgesVisited(tr);
    forall a, b | 0 <= a < b < |r|
      ensures r[a] != r[b]
    {
      if tr[a] / 2 == tr[b] / 2 {
        HalfOrFlip(tr[a], tr[b]);
        NoCrossBack(ep, tr, a, b);
        assert false;
      }
    }
    DistinctBound(r, |ep| / 2);
  }

  lemma ClosedLengthEven(ep: seq<Id>, tr: seq<nat>)
    requires Closed(ep, tr)
    ensures |tr| % 2 == 0
  {
    VisitParity(ep, tr, |tr| - 1);
  }

  /** The nodes at which the walk was before each step. */
  ghost function NodesVisited(ep: seq<Id>, tr: seq<nat>): (ns: seq<Node>)
    requires forall k :: 0 <= k < |tr| ==> tr[k] < |ep|
    ensures |ns| == |tr| && forall k :: 0 <= k < |tr| ==> ns[k] == NodeAt(ep, tr[k])
  {
    seq(|tr|, k requires 0 <= k < |tr| => NodeAt(ep, tr[k]))
  }

  lemma NodesDistinct(ep: seq<Id>, tr: seq<nat>)
    requires Closed(ep, tr)
    ensures Distinct(NodesVisited(ep, tr))
  {
    OpenWalkDistinct(ep, tr);
    var ns := NodesVisited(ep, tr);
    forall a, b | 0 <= a < b < |ns|
      ensures ns[a] != ns[b]
    {
      if ns[a] == ns[b] {
        assert tr[a] != tr[b];
        assert Mate(ep, tr[a], Flip(tr[a + 1]));
        assert tr[b] == Flip(tr[a + 1]);
        if b == a + 1 {
          assert false;
        } else {
          NoCrossBack(ep, tr, a + 1, b);
          assert false;
        }
      }
    }
  }

  /** Where the walk goes after step k. */
  lemma StepMate(ep: seq<Id>, tr: seq<nat>, k: nat)
    requires Closed(ep, tr) && k < |tr|
    ensures Mate(ep, tr[k], Flip(tr[Next(|tr|, k)]))
  {
    if k + 1 < |tr| {
      assert Mate(ep, tr[k], Flip(tr[k + 1]));
    }
  }

  lemma AlternatingCycle(ns: seq<Node>)
    requires |ns| > 0 && |ns| % 2 == 0 && Distinct(ns)
    requires forall k :: 0 <= k < |ns| ==> (ns[k].U? <==> k % 2 == 0)
    ensures CycleNodes(ns)
  {
  }

  lemma ClosedNodesAreCycle(ep: seq<Id>, tr: seq<nat>)
    requires Closed(ep, tr)
    ensures CycleNodes(NodesVisited(ep, tr))
  {
    var ns := NodesVisited(ep, tr);
    NodesDistinct(ep, tr);
    ClosedLengthEven(ep, tr);
    forall k | 0 <= k < |ns|
      ensures ns[k].U? <==> k % 2 == 0
    {
      VisitParity(ep, tr, k);
    }
    AlternatingCycle(ns);
  }

  /** Crossing from node k to node k + 1 uses the edge of the next visited endpoint. */
  lemma StepEdge(ep: seq<Id>, es: seq<Edge>, tr: seq<nat>, k: nat)
    requires Closed(ep, tr) && Endpoints(ep, es) && k < |tr|
    ensures var n := Next(|tr|, k);
      es[tr[n] / 2] == Joining(NodeAt(ep, tr[k]), NodeAt(ep, tr[n]))
  {
    StepMate(ep, tr, k);
    var n := Next(|tr|, k);
    var m, e := Flip(tr[n]), tr[n] / 2;
    assert NodeAt(ep, m) == NodeAt(ep, tr[k]);
    assert ep[2 * e] == es[e].u && ep[2 * e + 1] == es[e].v;
    assert {tr[n], m} == {2 * e, 2 * e + 1};
  }

  /** If the closed walk is as long as the edge list, the edges form one simple cycle. */
  lemma FullWalkIsCycle(ep: seq<Id>, es: seq<Edge>, tr: seq<nat>)
    requires Closed(ep, tr) && Endpoints(ep, es) && |tr| == |es|
    ensures FormsOneCycle(es)
  {
    var n, ns := |tr|, NodesVisited(ep, tr);
    ClosedNodesAreCycle(ep, tr);
    EdgesDistinct(ep, tr);
    var perm := seq(n, k requires 0 <= k < n => tr[Next(n, k)] / 2);
    forall a, b | 0 <= a < b < n
      ensures perm[a] != perm[b]
    {
      var r := EdgesVisited(tr);
      assert r[Next(n, a)] != r[Next(n, b)];
    }
    assert Permutation(perm, n);
    forall k | 0 <= k < n
      ensures CycleEdges(ns)[k] == es[perm[k]]
    {
      StepEdge(ep, es, tr, k);
    }
    PermutedMultiset(es, perm, CycleEdges(ns));
  }

  // ---------- the endpoints of a simple cycle ----------

  /** Edge perm[k] is the k-th edge of the cycle through the nodes `ns`. */
  ghost predicate LaidOut(ep: seq<Id>, es: seq<Edge>, ns: seq<Node>, perm: seq<nat>) {
    && Endpoints(ep, es) && CycleNodes(ns) && |ns| == |es| && Permutation(perm, |es|)
    && forall k :: 0 <= k < |es| ==> es[perm[k]] == CycleEdges(ns)[k]
  }

  lemma LayOut(ep: seq<Id>, es: seq<Edge>) returns (ns: seq<Node>, perm: seq<nat>)
    requires Endpoints(ep, es) && FormsOneCycle(es)
    ensures LaidOut(ep, es, ns, perm)
  {
    ns :| CycleNodes(ns) && multiset(CycleEdges(ns)) == multiset(es);
    perm := Rearrange(CycleEdges(ns), es);
  }

  /** The endpoint at node ns[q] of the k-th cycle edge. */
  ghost function EndAt(ns: seq<Node>, perm: seq<nat>, k: nat, q: nat): nat
    requires k < |perm| && q < |ns|
  {
    2 * perm[k] + (if ns[q].U? then 0 else 1)
  }

  lemma EndAtNode(ep: seq<Id>, es: seq<Edge>, ns: seq<Node>, perm: seq<nat>, k: nat, q: nat)
    requires LaidOut(ep, es, ns, perm) && k < |ns| && (q == k || q == Next(|ns|, k))
    ensures EndAt(ns, perm, k, q) < |ep| && NodeAt(ep, EndAt(ns, perm, k, q)) == ns[q]
  {
    var n, e := Next(|ns|, k), perm[k];
    assert es[e] == Joining(ns[k], ns[n]) && Opposite(ns[k], ns[n]);
    assert ep[2 * e] == es[e].u && ep[2 * e + 1] == es[e].v;
  }

  /** Every endpoint is the end of some cycle edge at one of its two nodes. */
  lemma EndpointPlace(ep: seq<Id>, es: seq<Edge>, ns: seq<Node>, perm: seq<nat>, c: nat) returns (k: nat, q: nat)
    requires LaidOut(ep, es, ns, perm) && c < |ep|
    ensures k < |ns| && (q == k || q == Next(|ns|, k)) && c == EndAt(ns, perm, k, q)
  {
    DistinctBound(perm, |es|);
    assert c / 2 in perm;
    k :| k < |perm| && perm[k] == c / 2;
    var n := Next(|ns|, k);
    assert Opposite(ns[k], ns[n]);
    q := if ns[k].U? == (c % 2 == 0) then k else n;
  }

  /** The two ends at a cycle node are mates. */
  lemma EndsAreMates(ep: seq<Id>, es: seq<Edge>, ns: seq<Node>, perm: seq<nat>, k: nat)
    requires LaidOut(ep, es, ns, perm) && k < |ns|
    ensures var n := Next(|ns|, k);
      Mate(ep, EndAt(ns, perm, k, n), EndAt(ns, perm, n, n))
  {
    var n := Next(|ns|, k);
    var c, m := EndAt(ns, perm, k, n), EndAt(ns, perm, n, n);
    EndAtNode(ep, es, ns, perm, k, n);
    EndAtNode(ep, es, ns, perm, n, n);
    assert perm[k] != perm[n];
    forall i: nat | i < |ep| && NodeAt(ep, i) == NodeAt(ep, c)
      ensures i == c || i == m
    {
      var k', q' := EndpointPlace(ep, es, ns, perm, i);
      EndAtNode(ep, es, ns, perm, k', q');
      assert ns[q'] == ns[n];
      assert q' == n;
    }
  }

  /** In a simple cycle every endpoint has its mate. */
  lemma CycleHasMates(ep: seq<Id>, es: seq<Edge>, c: nat)
    requires Endpoints(ep, es) && FormsOneCycle(es) && c < |ep|
    ensures exists m :: Mate(ep, c, m)
  {
    var ns, perm := LayOut(ep, es);
    var k, q := EndpointPlace(ep, es, ns, perm, c);
    if q == k {
      var before := if k == 0 then |ns| - 1 else k - 1;
      EndsAreMates(ep, es, ns, perm, before);
      MateSym(ep, EndAt(ns, perm, before, k), c);
    } else {
      EndsAreMates(ep, es, ns, perm, k);
    }
  }

  // ---------- a closed walk over a simple cycle is complete ----------

  ghost predicate Visited(tr: seq<nat>, e: nat) {
    exists a :: 0 <= a < |tr| && tr[a] / 2 == e
  }

  /** With an edge, the walk visits the edge of the mate of either of its ends. */
  lemma MateVisited(ep: seq<Id>, tr: seq<nat>, c: nat, m: nat)
    requires Closed(ep, tr) && Visited(tr, c / 2) && Mate(ep, c, m)
    ensures Visited(tr, m / 2)
  {
    var a :| 0 <= a < |tr| && tr[a] / 2 == c / 2;
    HalfOrFlip(tr[a], c);
    if c == tr[a] {
      var n := Next(|tr|, a);
      StepMate(ep, tr, a);
      MateUnique(ep, c, m, Flip(tr[n]));
      assert tr[n] / 2 == m / 2;
    } else {
      var before := if a == 0 then |tr| - 1 else a - 1;
      StepMate(ep, tr, before);
      MateSym(ep, tr[before], c);
      MateUnique(ep, c, m, tr[before]);
    }
  }

  lemma NextVisited(ep: seq<Id>, es: seq<Edge>, ns: seq<Node>, perm: seq<nat>, tr: seq<nat>, k: nat)
    requires LaidOut(ep, es, ns, perm) && Closed(ep, tr) && k < |ns| && Visited(tr, perm[k])
    ensures Visited(tr, perm[Next(|ns|, k)])
  {
    var n := Next(|ns|, k);
    EndsAreMates(ep, es, ns, perm, k);
    assert EndAt(ns, perm, k, n) / 2 == perm[k];
    MateVisited(ep, tr, EndAt(ns, perm, k, n), EndAt(ns, perm, n, n));
  }

  lemma {:induction false} AllVisitedFrom(ep: seq<Id>, es: seq<Edge>, ns: seq<Node>, perm: seq<nat>, tr: seq<nat>, a: nat, b: nat)
    requires LaidOut(ep, es, ns, perm) && Closed(ep, tr) && a <= b < |ns| && Visited(tr, perm[a])
    ensures Visited(tr, perm[b])
    decreases b - a
  {
    if a < b {
      NextVisited(ep, es, ns, perm, tr, a);
      AllVisitedFrom(ep, es, ns, perm, tr, a + 1, b);
    }
  }

  /** A walk that closes on a simple cycle has used all of its edges. */
  lemma ClosedWalkIsFull(ep: seq<Id>, es: seq<Edge>, tr: seq<nat>)
    requires Endpoints(ep, es) && FormsOneCycle(es) && Closed(ep, tr)
    ensures |tr| == |es|
  {
    var ns, perm := LayOut(ep, es);
    var n := |ns|;
    DistinctBound(perm, n);
    assert 0 in perm;
    var start: nat :| start < n && perm[start] == 0;
    assert Visited(tr, perm[start]) by { assert tr[0] / 2 == 0; }
    AllVisitedFrom(ep, es, ns, perm, tr, start, n - 1);
    NextVisited(ep, es, ns, perm, tr, n - 1);
    forall e | e in Below(n)
      ensures e in ToSet(EdgesVisited(tr))
    {
      assert e in perm;
      var k: nat :| k < n && perm[k] == e;
      AllVisitedFrom(ep, es, ns, perm, tr, 0, k);
      var a :| 0 <= a < |tr| && tr[a] / 2 == e;
      assert EdgesVisited(tr)[a] == e;
    }
    BelowSize(n);
    EdgesDistinct(ep, tr);
    DistinctSize(EdgesVisited(tr));
    SubsetSize(Below(n), ToSet(EdgesVisited(tr)));
  }
}
