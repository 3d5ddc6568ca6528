/** The undirected two-sided graph that the Cuckaroo cycle searches work on, together with
    the reference definitions of connectivity, of the greedy spanning forest and of a simple
    cycle.  Nothing here mentions parent links: this is what the searches are measured against.
 */
module BipartiteGraph {
  import opened Sequences

  /** A 32-bit endpoint number.  The two sides have separate number spaces. */
  type Id = x: int | 0 <= x < 0x1_0000_0000

  datatype Node = U(id: Id) | V(id: Id)

  /** An undirected edge, written with its first-side endpoint first. */
  datatype Edge = Edge(u: Id, v: Id)

  predicate Opposite(x: Node, y: Node) {
    x.U? != y.U?
  }

  /** The edge between two nodes of opposite sides. */
  function Joining(x: Node, y: Node): Edge {
    if x.U? then Edge(x.id, y.id) else Edge(y.id, x.id)
  }

  predicate Adj(es: set<Edge>, x: Node, y: Node) {
    Opposite(x, y) && Joining(x, y) in es
  }

  ghost predicate IsWalk(es: set<Edge>, s: seq<Node>) {
    |s| > 0 && forall i, j :: 0 <= i < j < |s| && j == i + 1 ==> Adj(es, s[i], s[j])
  }

  ghost predicate Joins(es: set<Edge>, s: seq<Node>, x: Node, y: Node) {
    IsWalk(es, s) && s[0] == x && s[|s| - 1] == y
  }

  ghost predicate Connected(es: set<Edge>, x: Node, y: Node) {
    exists s :: Joins(es, s, x, y)
  }

  /** A path: a walk that visits no node twice. */
  ghost predicate IsPath(es: set<Edge>, s: seq<Node>, x: Node, y: Node) {
    Joins(es, s, x, y) && Distinct(s)
  }

  // ---------- connectivity is an equivalence, monotone in the edges ----------

  lemma ConnectedRefl(es: set<Edge>, x: Node)
    ensures Connected(es, x, x)
  {
    assert Joins(es, [x], x, x);
  }

  lemma ConnectedStep(es: set<Edge>, x: Node, y: Node)
    requires Adj(es, x, y)
    ensures Connected(es, x, y)
  {
    assert Joins(es, [x, y], x, y);
  }

  lemma ConnectedSym(es: set<Edge>, x: Node, y: Node)
    requires Connected(es, x, y)
    ensures Connected(es, y, x)
  {
    var s :| Joins(es, s, x, y);
    assert Joins(es, Reverse(s), y, x);
  }

  lemma ConnectedTrans(es: set<Edge>, x: Node, y: Node, z: Node)
    requires Connected(es, x, y) && Connected(es, y, z)
    ensures Connected(es, x, z)
  {
    var s :| Joins(es, s, x, y);
    var t :| Joins(es, t, y, z);
    var w := s + t[1..];
    forall i, j | 0 <= i < j < |w| && j == i + 1
      ensures Adj(es, w[i], w[j])
    {
      if j < |s| {
        assert w[i] == s[i] && w[j] == s[j];
      } else {
        assert w[j] == t[j - |s| + 1] && w[i] == t[i - |s| + 1];
      }
    }
    assert Joins(es, w, x, z);
  }

  /** If every edge of `small` joins two nodes that `big` connects, `big` connects whatever
      `small` connects. */
  lemma ConnectedLift(small: set<Edge>, big: set<Edge>, x: Node, y: Node)
    requires forall e :: e in small ==> Connected(big, U(e.u), V(e.v))
    requires Connected(small, x, y)
    ensures Connected(big, x, y)
  {
    var s :| Joins(small, s, x, y);
    WalkLift(small, big, s);
  }

  lemma {:induction false} WalkLift(small: set<Edge>, big: set<Edge>, s: seq<Node>)
    requires forall e :: e in small ==> Connected(big, U(e.u), V(e.v))
    requires IsWalk(small, s)
    ensures Connected(big, s[0], s[|s| - 1])
    decreases |s|
  {
    if |s| == 1 {
      ConnectedRefl(big, s[0]);
    } else {
      var t := s[..|s| - 1];
      WalkLift(small, big, t);
      var a, b := s[|s| - 2], s[|s| - 1];
      assert Adj(small, a, b);
      if a.V? {
        ConnectedSym(big, b, a);
      }
      ConnectedTrans(big, s[0], a, b);
    }
  }

  lemma ConnectedMono(small: set<Edge>, big: set<Edge>, x: Node, y: Node)
    requires small <= big
    requires Connected(small, x, y)
    ensures Connected(big, x, y)
  {
    var s :| Joins(small, s, x, y);
    assert Joins(big, s, x, y);
  }

  // ---------- the greedy forest ----------

  /** Take the edges in order and keep exactly those whose ends are not connected yet. */
  ghost function Greedy(edges: seq<Edge>): set<Edge> {
    if |edges| == 0 then {}
    else
      var kept := Greedy(edges[..|edges| - 1]);
      var e := edges[|edges| - 1];
      if Connected(kept, U(e.u), V(e.v)) then kept else kept + {e}
  }

  lemma {:induction false} GreedyWithin(edges: seq<Edge>)
    ensures Greedy(edges) <= ToSet(edges)
    decreases |edges|
  {
    if |edges| > 0 {
      GreedyWithin(edges[..|edges| - 1]);
    }
  }

  /** The greedy forest connects exactly what all the edges connect. */
  lemma {:induction false} GreedySpans(edges: seq<Edge>, x: Node, y: Node)
    ensures Connected(Greedy(edges), x, y) <==> Connected(ToSet(edges), x, y)
  {
    if Connected(Greedy(edges), x, y) {
      GreedyWithin(edges);
      ConnectedMono(Greedy(edges), ToSet(edges), x, y);
    }
    if Connected(ToSet(edges), x, y) {
      forall e | e in ToSet(edges)
        ensures Connected(Greedy(edges), U(e.u), V(e.v))
      {
        var i :| 0 <= i < |edges| && edges[i] == e;
        GreedyConnects(edges, i);
      }
      ConnectedLift(ToSet(edges), Greedy(edges), x, y);
    }
  }

  lemma {:induction false} GreedyConnects(edges: seq<Edge>, i: nat)
    requires i < |edges|
    ensures Connected(Greedy(edges), U(edges[i].u), V(edges[i].v))
    decreases |edges|
  {
    var last := |edges| - 1;
    var kept := Greedy(edges[..last]);
    var x, y := U(edges[i].u), V(edges[i].v);
    if i < last {
      GreedyConnects(edges[..last], i);
      ConnectedMono(kept, Greedy(edges), x, y);
    } else if !Connected(kept, x, y) {
      ConnectedStep(Greedy(edges), x, y);
    }
  }

  // ---------- simple cycles ----------

  /** The nodes of a simple cycle in order: no repeats, neighbours (cyclically) on opposite sides. */
  ghost predicate CycleNodes(ns: seq<Node>) {
    && |ns| >= 2
    && Distinct(ns)
    && (forall i, j :: 0 <= i < j < |ns| && j == i + 1 ==> Opposite(ns[i], ns[j]))
    && Opposite(ns[|ns| - 1], ns[0])
  }

  function Next(n: nat, k: nat): nat
    requires k < n
  {
    if k + 1 == n then 0 else k + 1
  }

  /** The edge list of a cycle: one edge from each node to its successor. */
  ghost function CycleEdges(ns: seq<Node>): (es: seq<Edge>)
    requires CycleNodes(ns)
    ensures |es| == |ns|
    ensures forall k :: 0 <= k < |ns| ==>
      Opposite(ns[k], ns[Next(|ns|, k)]) && es[k] == Joining(ns[k], ns[Next(|ns|, k)])
  {
    seq(|ns|, k requires 0 <= k < |ns| => Joining(ns[k], ns[Next(|ns|, k)]))
  }

  /** The edges, in whatever order, are exactly the edges of one simple cycle. */
  ghost predicate FormsOneCycle(es: seq<Edge>) {
    exists ns :: CycleNodes(ns) && multiset(CycleEdges(ns)) == multiset(es)
  }
}
