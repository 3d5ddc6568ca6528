/** What the path cap costs: for every cap there is an input on which the parent links stop being
    a forest.  A chain longer than the cap hides the place where two root paths meet, so the
    search links a tree under itself.
 */
module CappedRun {
  import opened BipartiteGraph
  import opened ParentForest
  import opened CycleRun
  import opened Sequences

  /** The k-th node of the chain V0, U1, V1, U2, V2, ... */
  function ChainNode(k: nat): Node
    requires k < 0x1_0000_0000
  {
    if k % 2 == 0 then V(k / 2) else U((k + 1) / 2)
  }

  /** The first edge hangs U0 under V0; the others lengthen the chain one node at a time. */
  function Chain(m: nat): (es: seq<Edge>)
    requires m < 0x1_0000_0000
    ensures |es| == m + 1
  {
    if m == 0 then [Edge(0, 0)] else Chain(m - 1) + [Joining(ChainNode(m - 1), ChainNode(m))]
  }

  /** U0 and every chain node but the first hang under their predecessor. */
  ghost predicate ChainLinks(p: Links, m: nat)
    requires m < 0x1_0000_0000
  {
    && (forall k: nat :: 1 <= k <= m ==> Under(p, ChainNode(k), ChainNode(k - 1)))
    && Under(p, U(0), V(0))
    && (forall x :: x in p ==> x == U(0) || exists k: nat :: 1 <= k <= m && x == ChainNode(k))
  }

  /** A climb from chain node k runs down the chain. */
  lemma {:induction false} ChainClimb(p: Links, m: nat, k: nat, s: seq<Node>, i: nat)
    requires m < 0x1_0000_0000 && k <= m && ChainLinks(p, m)
    requires Climb(p, s) && s[0] == ChainNode(k) && i < |s|
    ensures i <= k && s[i] == ChainNode(k - i)
  {
    if i > 0 {
      ChainClimb(p, m, k, s, i - 1);
      assert Under(p, s[i - 1], s[i]);
      if k - (i - 1) == 0 {
        RootHasNoLink(p, m);
        assert false;
      }
      assert Under(p, ChainNode(k - (i - 1)), ChainNode(k - i));
    }
  }

  lemma RootHasNoLink(p: Links, m: nat)
    requires m < 0x1_0000_0000 && ChainLinks(p, m)
    ensures V(0) !in p
  {
  }

  lemma PathAtLeastTwo(p: Links, x: Node, cap: nat)
    requires x in p && cap >= 2
    ensures |PathOf(p, x, cap)| >= 2
  {
    var s := [x, p[x]];
    assert [x] + [p[x]] == s;
    PathGrows(p, s, cap);
  }

  lemma {:induction false} PathGrows(p: Links, s: seq<Node>, cap: nat)
    requires |s| > 0
    ensures |PathFrom(p, s, cap)| >= |s|
    decreases cap - |s|
  {
    var top := s[|s| - 1];
    if |s| < cap && top in p {
      PathGrows(p, s + [p[top]], cap);
    }
  }

  /** The new chain node starts without a link, and the path from its neighbour avoids it. */
  lemma ChainPaths(p: Links, m: nat, cap: nat)
    requires 1 <= m < 0x1_0000_0000 && cap >= 3 && ChainLinks(p, m - 1)
    ensures var x, y := ChainNode(m - 1), ChainNode(m);
      && !Under(p, x, y) && !Under(p, y, x)
      && PathOf(p, y, cap) == [y] && y !in PathOf(p, x, cap)
      && (m > 1 ==> |PathOf(p, x, cap)| >= 2)
  {
    var x, y := ChainNode(m - 1), ChainNode(m);
    var sx := PathOf(p, x, cap);
    assert y !in p;
    PathClimbs(p, x, cap);
    forall i | 0 <= i < |sx|
      ensures sx[i] != y
    {
      ChainClimb(p, m - 1, m - 1, sx, i);
    }
    if m > 1 {
      assert Under(p, ChainNode(m - 1), ChainNode(m - 2));
      PathAtLeastTwo(p, x, cap);
    }
  }

  lemma ChainStep(p: Links, m: nat, cap: nat)
    requires 1 <= m < 0x1_0000_0000 && cap >= 3 && ChainLinks(p, m - 1)
    ensures ChainLinks(Grow(p, Joining(ChainNode(m - 1), ChainNode(m)), cap), m)
  {
    var x, y := ChainNode(m - 1), ChainNode(m);
    ChainPaths(p, m, cap);
    HangLast(p, x, y, cap);
    var q := p[y := x];
    forall k: nat | 1 <= k <= m
      ensures Under(q, ChainNode(k), ChainNode(k - 1))
    {
      if k < m {
        assert Under(p, ChainNode(k), ChainNode(k - 1));
      }
    }
  }

  lemma HangLast(p: Links, x: Node, y: Node, cap: nat)
    requires Opposite(x, y) && !Under(p, x, y) && !Under(p, y, x)
    requires PathOf(p, y, cap) == [y] && y !in PathOf(p, x, cap)
    requires y.V? ==> |PathOf(p, x, cap)| >= 2
    ensures Grow(p, Joining(x, y), cap) == p[y := x]
  {
    var sx, sy := PathOf(p, x, cap), PathOf(p, y, cap);
    PathClimbs(p, x, cap);
    assert !Meets(sx, sy) && !Meets(sy, sx);
    assert TurnRound(p, sy) == p;
  }

  lemma {:induction false} ChainRun(m: nat, cap: nat)
    requires m < 0x1_0000_0000 && cap >= 3
    ensures ChainLinks(LinksAfter(Chain(m), cap), m)
    decreases m
  {
    if m == 0 {
      var p: Links := map[];
      assert PathOf(p, U(0), cap) == [U(0)] && PathOf(p, V(0), cap) == [V(0)];
      assert LinksAfter(Chain(0)[..0], cap) == p;
      assert LinksAfter(Chain(0), cap) == p[U(0) := V(0)];
    } else {
      ChainRun(m - 1, cap);
      assert Chain(m)[..m] == Chain(m - 1);
      ChainStep(LinksAfter(Chain(m - 1), cap), m, cap);
    }
  }

  /** The chain of twice the cap, closed by an edge from its far end to U0. */
  function ClosedChain(cap: nat): seq<Edge>
    requires cap < 0x8000_0000
  {
    Chain(2 * cap) + [Edge(0, cap)]
  }

  /** On the closed chain the links run in a circle, whatever the cap. */
  lemma CapBreaksForest(cap: nat)
    requires 3 <= cap < 0x8000_0000
    ensures !Forest(LinksAfter(ClosedChain(cap), cap)) && !Uncapped(ClosedChain(cap), cap)
  {
    var m, es := 2 * cap, ClosedChain(cap);
    var e := Edge(0, cap);
    ChainRun(m, cap);
    assert es[..|es| - 1] == Chain(m);
    var p := LinksAfter(Chain(m), cap);
    var q := LinksAfter(es, cap);
    assert q == Grow(p, e, cap);
    CloseChain(p, cap);
    if Forest(q) {
      assert HasRoot(q, U(0));
      var up := Up(q, U(0));
      CircleClimb(q, m, up, |up| - 1);
      assert false;
    }
    if Uncapped(es, cap) {
      LinksAreGreedyForest(es, cap);
    }
  }

  ghost predicate Circle(q: Links, m: nat)
    requires m < 0x1_0000_0000
  {
    && (forall k: nat :: 1 <= k <= m ==> Under(q, ChainNode(k), ChainNode(k - 1)))
    && Under(q, V(0), U(0)) && Under(q, U(0), ChainNode(m))
  }

  lemma CloseChain(p: Links, cap: nat)
    requires 3 <= cap < 0x8000_0000 && ChainLinks(p, 2 * cap)
    ensures Circle(Grow(p, Edge(0, cap), cap), 2 * cap)
  {
    var m, e := 2 * cap, Edge(0, cap);
    var s, t := PathOf(p, U(0), cap), PathOf(p, V(cap), cap);
    assert ChainNode(m) == V(cap);
    RootHasNoLink(p, m);
    ShortPath(p, cap);
    PathClimbs(p, V(cap), cap);
    assert Under(p, ChainNode(m), ChainNode(m - 1));
    PathAtLeastTwo(p, V(cap), cap);
    forall i | 0 <= i < |t|
      ensures t[i] != U(0) && t[i] != V(0)
    {
      ChainClimb(p, m, m, t, i);
    }
    assert !Meets(s, t);
    assert !Known(p, e);
    var r := (p - {U(0)})[V(0) := U(0)];
    assert TurnRound(p, s) == TurnRound(r, s[..1]) == r;
    var q := Grow(p, e, cap);
    assert q == r[U(0) := V(cap)];
    forall k: nat | 1 <= k <= m
      ensures Under(q, ChainNode(k), ChainNode(k - 1))
    {
      assert Under(p, ChainNode(k), ChainNode(k - 1));
    }
  }

  lemma ShortPath(p: Links, cap: nat)
    requires cap >= 3 && Under(p, U(0), V(0)) && V(0) !in p
    ensures PathOf(p, U(0), cap) == [U(0), V(0)]
  {
    assert [U(0)] + [V(0)] == [U(0), V(0)];
    assert PathFrom(p, [U(0), V(0)], cap) == [U(0), V(0)];
  }

  /** A climb on the circle never reaches a node without a parent. */
  lemma {:induction false} CircleClimb(q: Links, m: nat, s: seq<Node>, i: nat)
    requires m < 0x1_0000_0000 && Circle(q, m)
    requires Climb(q, s) && s[0] == U(0) && i < |s|
    ensures s[i] in q && (s[i] == U(0) || exists k: nat :: k <= m && s[i] == ChainNode(k))
  {
    if i > 0 {
      CircleClimb(q, m, s, i - 1);
      assert Under(q, s[i - 1], s[i]);
      if s[i - 1] == U(0) {
        OnCircle(q, m, m);
      } else {
        var k: nat :| k <= m && s[i - 1] == ChainNode(k);
        OnCircle(q, m, k);
        if k > 0 {
          OnCircle(q, m, k - 1);
        }
      }
    }
  }

  lemma OnCircle(q: Links, m: nat, k: nat)
    requires k <= m < 0x1_0000_0000 && Circle(q, m)
    ensures if k == 0 then Under(q, V(0), U(0)) else Under(q, ChainNode(k), ChainNode(k - 1))
    ensures ChainNode(k) in q
  {
  }

  // ---------- when exactly the links stay a forest ----------

  /** The path upward from x to its root avoids t. */
  ghost predicate Avoids(p: Links, x: Node, t: seq<Node>) {
    exists s :: RootPath(p, s, x) && !Touches(s, t)
  }

  /** The edge changes nothing, or the end that stays in place hangs clear of the path that is
      turned round, which may have been cut. */
  ghost predicate Safe(p: Links, e: Edge, cap: nat) {
    var s, t := PathOf(p, U(e.u), cap), PathOf(p, V(e.v), cap);
    Known(p, e) || Meets(s, t) || if |s| > |t| then Avoids(p, U(e.u), t) else Avoids(p, V(e.v), s)
  }

  /** What the links lose when the edge is taken up: the link above a path that was cut. */
  ghost function Dropped(p: Links, e: Edge, cap: nat): set<Edge> {
    var s, t := PathOf(p, U(e.u), cap), PathOf(p, V(e.v), cap);
    PathClimbs(p, U(e.u), cap);
    PathClimbs(p, V(e.v), cap);
    Above(p, if |s| > |t| then t else s)
  }

  /** Turn a path that may have been cut, and hang its start under a node. */
  lemma HangCutPath(p: Links, t: seq<Node>, a: Node)
    requires Forest(p) && Climb(p, t) && Opposite(t[0], a)
    ensures var q := TurnRound(p, t)[t[0] := a];
      && (Forest(q) <==> Avoids(p, a, t))
      && Bipartite(q) && EdgesOf(q) == EdgesOf(p) - Above(p, t) + {Joining(t[0], a)}
  {
    var b, r := t[0], TurnRound(p, t) - {t[0]};
    TurnsToReversal(p, t);
    assert TurnRound(p, t)[b := a] == r[b := a];
    ReversedForest(p, t, r);
    ReversedEdges(p, t, r);
    LinkForestIff(r, b, a);
    LinkEdges(r, b, a);
    assert HasRoot(p, a);
    var s := Up(p, a);
    var w := ReversedRoot(p, t, r, a, s);
    RootOf(r, w, a);
    if Avoids(p, a, t) {
      var s' :| RootPath(p, s', a) && !Touches(s', t);
      RootPathUnique(p, s, s', a);
      if Root(r, a) == b {
        assert s[|s| - 1] in t;
        assert Touches(s, t);
      }
    }
  }

  lemma TurnsToReversal(p: Links, t: seq<Node>)
    requires Forest(p) && Climb(p, t)
    ensures Reversed(p, t, TurnRound(p, t) - {t[0]})
  {
    ClimbDistinct(p, t);
    if |t| > 1 || t[0] !in p {
      TurnRoundReverses(p, t);
      assert TurnRound(p, t) - {t[0]} == TurnRound(p, t);
    }
  }

  /** One edge keeps the forest exactly when it is safe, whatever the cap; and unless it changes
      nothing the links gain that edge and lose the dropped one. */
  lemma GrowForestIff(p: Links, e: Edge, cap: nat)
    requires Forest(p)
    ensures Forest(Grow(p, e, cap)) <==> Safe(p, e, cap)
    ensures Bipartite(Grow(p, e, cap))
    ensures EdgesOf(Grow(p, e, cap)) ==
      if Known(p, e) || Meets(PathOf(p, U(e.u), cap), PathOf(p, V(e.v), cap)) then EdgesOf(p)
      else EdgesOf(p) - Dropped(p, e, cap) + {e}
  {
    var s, t := PathOf(p, U(e.u), cap), PathOf(p, V(e.v), cap);
    PathClimbs(p, U(e.u), cap);
    PathClimbs(p, V(e.v), cap);
    if !Known(p, e) && !Meets(s, t) {
      if |s| > |t| {
        HangCutPath(p, t, U(e.u));
      } else {
        HangCutPath(p, s, V(e.v));
      }
    }
  }

  /** So the links gain exactly that edge when the path that is turned reaches its root. */
  lemma GrowGainsIff(p: Links, e: Edge, cap: nat)
    requires Forest(p) && !Known(p, e) && !Meets(PathOf(p, U(e.u), cap), PathOf(p, V(e.v), cap))
    ensures Bipartite(Grow(p, e, cap))
    ensures EdgesOf(Grow(p, e, cap)) == EdgesOf(p) + {e} <==> Dropped(p, e, cap) == {}
  {
    GrowForestIff(p, e, cap);
    AdjIsLink(p, U(e.u), V(e.v));
    var s, t := PathOf(p, U(e.u), cap), PathOf(p, V(e.v), cap);
    PathClimbs(p, U(e.u), cap);
    PathClimbs(p, V(e.v), cap);
    var turned := if |s| > |t| then t else s;
    var top := turned[|turned| - 1];
    if top in p {
      assert Joining(top, p[top]) in EdgesOf(p);
      assert e !in EdgesOf(p);
    }
  }

  ghost predicate ForestAt(edges: seq<Edge>, cap: nat, k: nat)
    requires k <= |edges|
  {
    Forest(LinksAfter(edges[..k], cap))
  }

  ghost predicate SafeAt(edges: seq<Edge>, cap: nat, k: nat)
    requires k < |edges|
  {
    Safe(LinksAfter(edges[..k], cap), edges[k], cap)
  }

  ghost predicate AlwaysForest(edges: seq<Edge>, cap: nat) {
    forall k: nat :: k <= |edges| ==> ForestAt(edges, cap, k)
  }

  ghost predicate AlwaysSafe(edges: seq<Edge>, cap: nat) {
    forall k: nat :: k < |edges| ==> SafeAt(edges, cap, k)
  }

  lemma AtPrefix(before: seq<Edge>, e: Edge, cap: nat, k: nat)
    requires k <= |before|
    ensures ForestAt(before + [e], cap, k) <==> ForestAt(before, cap, k)
    ensures k < |before| ==> (SafeAt(before + [e], cap, k) <==> SafeAt(before, cap, k))
  {
    assert (before + [e])[..k] == before[..k];
  }

  lemma OneMoreEdge(before: seq<Edge>, e: Edge, cap: nat)
    ensures AlwaysForest(before + [e], cap) <==>
      AlwaysForest(before, cap) && ForestAt(before + [e], cap, |before| + 1)
    ensures AlwaysSafe(before + [e], cap) <==> AlwaysSafe(before, cap) && SafeAt(before + [e], cap, |before|)
  {
    forall k: nat | k <= |before|
      ensures ForestAt(before + [e], cap, k) <==> ForestAt(before, cap, k)
      ensures k < |before| ==> (SafeAt(before + [e], cap, k) <==> SafeAt(before, cap, k))
    {
      AtPrefix(before, e, cap, k);
    }
  }

  /** The links are a forest throughout a run exactly when every edge of it is safe. */
  lemma {:induction false} RunForestIff(edges: seq<Edge>, cap: nat)
    ensures AlwaysForest(edges, cap) <==> AlwaysSafe(edges, cap)
  {
    if |edges| == 0 {
      var p: Links := map[];
      assert edges[..0] == [];
      forall x ensures HasRoot(p, x) {
        assert RootPath(p, [x], x);
      }
      assert ForestAt(edges, cap, 0);
    } else {
      var before, e := edges[..|edges| - 1], edges[|edges| - 1];
      assert before + [e] == edges && edges[..|edges|] == edges && before[..|before|] == before;
      RunForestIff(before, cap);
      OneMoreEdge(before, e, cap);
      assert ForestAt(before, cap, |before|) == Forest(LinksAfter(before, cap));
      if Forest(LinksAfter(before, cap)) {
        GrowForestIff(LinksAfter(before, cap), e, cap);
      }
    }
  }
}
