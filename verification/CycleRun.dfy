/** One run of the cycle search, on nodes instead of on storage.  Both stored forms of the
    search (dense array and hash maps) are proved to compute these functions, path cap included;
    the lemmas here say what the run means for the graph.
 */
module CycleRun {
  import opened BipartiteGraph
  import opened ParentForest
  import opened Sequences

  // ---------- the steps ----------

  function PathFrom(p: Links, s: seq<Node>, cap: nat): seq<Node>
    requires |s| > 0
    decreases cap - |s|
  {
    var top := s[|s| - 1];
    if |s| < cap && top in p then PathFrom(p, s + [p[top]], cap) else s
  }

  /** Follow the links from `x`, stopping after `cap` nodes. */
  function PathOf(p: Links, x: Node, cap: nat): seq<Node> {
    PathFrom(p, [x], cap)
  }

  /** Turn the links along `t` round, last link first. */
  function TurnRound(p: Links, t: seq<Node>): Links
    requires |t| > 0
    decreases |t|
  {
    if |t| == 1 then p
    else
      var n := |t|;
      TurnRound((p - {t[n - 2]})[t[n - 1] := t[n - 2]], t[..n - 1])
  }

  /** The first n edges along a node sequence, each with its first-side endpoint first. */
  function Along(s: seq<Node>, n: nat): (es: seq<Edge>)
    requires n < |s|
    ensures |es| == n && forall k :: 0 <= k < n ==> es[k] == Joining(s[k], s[k + 1])
  {
    seq(n, k requires 0 <= k < n => Joining(s[k], s[k + 1]))
  }

  /** All the edges along a node sequence. */
  function Trail(s: seq<Node>): seq<Edge>
    requires |s| > 0
  {
    Along(s, |s| - 1)
  }

  predicate Known(p: Links, e: Edge) {
    Under(p, U(e.u), V(e.v)) || Under(p, V(e.v), U(e.u))
  }

  ghost predicate Meets(s: seq<Node>, t: seq<Node>) {
    exists i: nat, j: nat :: Meet(s, t, i, j)
  }

  /** The links after looking at edge `e`. */
  ghost function Grow(p: Links, e: Edge, cap: nat): Links {
    var a, b := U(e.u), V(e.v);
    var s, t := PathOf(p, a, cap), PathOf(p, b, cap);
    PathClimbs(p, a, cap); PathClimbs(p, b, cap);
    if Known(p, e) || Meets(s, t) then p
    else if |s| > |t| then TurnRound(p, t)[b := a]
    else TurnRound(p, s)[a := b]
  }

  /** What looking at edge `e` emits: at most one closed sequence of `target` edges. */
  ghost function Emit(p: Links, e: Edge, target: nat, cap: nat): seq<seq<Edge>> {
    var s, t := PathOf(p, U(e.u), cap), PathOf(p, V(e.v), cap);
    if Known(p, e) || !Meets(s, t) then []
    else
      var i: nat, j: nat :| Meet(s, t, i, j);
      if 1 + i + j == target then [[e] + Along(s, i) + Along(t, j)] else []
  }

  ghost function LinksAfter(edges: seq<Edge>, cap: nat): Links
    decreases |edges|
  {
    if |edges| == 0 then map[]
    else Grow(LinksAfter(edges[..|edges| - 1], cap), edges[|edges| - 1], cap)
  }

  /** Everything the run emits, in order. */
  ghost function Cycles(edges: seq<Edge>, target: nat, cap: nat): seq<seq<Edge>>
    decreases |edges|
  {
    if |edges| == 0 then []
    else
      var before := edges[..|edges| - 1];
      Cycles(before, target, cap) + Emit(LinksAfter(before, cap), edges[|edges| - 1], target, cap)
  }

  lemma EmitAt(p: Links, e: Edge, target: nat, cap: nat, i: nat, j: nat)
    requires !Known(p, e) && Meet(PathOf(p, U(e.u), cap), PathOf(p, V(e.v), cap), i, j)
    ensures Emit(p, e, target, cap) ==
      if 1 + i + j == target
      then [[e] + Along(PathOf(p, U(e.u), cap), i) + Along(PathOf(p, V(e.v), cap), j)]
      else []
  {
    var s, t := PathOf(p, U(e.u), cap), PathOf(p, V(e.v), cap);
    assert Meets(s, t);
    forall i': nat, j': nat | Meet(s, t, i', j')
      ensures i' == i && j' == j
    {
      MeetUnique(s, t, i, j, i', j');
    }
  }

  // ---------- paths ----------

  lemma {:induction false} PathFromClimbs(p: Links, s: seq<Node>, cap: nat)
    requires Climb(p, s)
    ensures var r := PathFrom(p, s, cap); Climb(p, r) && r[0] == s[0] && (|s| <= cap ==> |r| <= cap)
    ensures |PathFrom(p, s, cap)| < cap ==> RootPath(p, PathFrom(p, s, cap), s[0])
    decreases cap - |s|
  {
    var top := s[|s| - 1];
    if |s| < cap && top in p {
      PathFromClimbs(p, s + [p[top]], cap);
    }
  }

  lemma PathClimbs(p: Links, x: Node, cap: nat)
    ensures var s := PathOf(p, x, cap); Climb(p, s) && s[0] == x && (cap >= 1 ==> |s| <= cap)
    ensures |PathOf(p, x, cap)| < cap ==> RootPath(p, PathOf(p, x, cap), x)
  {
    PathFromClimbs(p, [x], cap);
  }

  /** Turning a path upward round gives exactly the reversed links. */
  lemma {:induction false} TurnRoundReverses(p: Links, t: seq<Node>)
    requires Climb(p, t) && Distinct(t) && (|t| == 1 ==> t[0] !in p)
    ensures Reversed(p, t, TurnRound(p, t))
    decreases |t|
  {
    if |t| > 1 {
      var n := |t|;
      var p', t' := (p - {t[n - 2]})[t[n - 1] := t[n - 2]], t[..n - 1];
      assert forall i :: 0 <= i < n - 1 ==> t'[i] == t[i];
      forall i, j | 0 <= i < j < |t'| && j == i + 1
        ensures Under(p', t'[i], t'[j])
      {
        assert Under(p, t[i], t[j]);
      }
      TurnRoundReverses(p', t');
      var q := TurnRound(p', t');
      assert ToSet(t) == ToSet(t') + {t[n - 1]};
      assert t[n - 2] in t';
      assert q[t[n - 1]] == t[n - 2];
      forall i, j | 0 <= i < j < |t| && j == i + 1
        ensures Under(q, t[j], t[i])
      {
        if j < n - 1 {
          assert Under(q, t'[j], t'[i]);
        }
      }
    }
  }

  // ---------- whatever the cap: links are input edges ----------

  ghost predicate LinksWithin(p: Links, es: set<Edge>) {
    forall x :: x in p ==> Adj(es, x, p[x])
  }

  lemma {:induction false} TurnRoundWithin(p: Links, t: seq<Node>, es: set<Edge>)
    requires LinksWithin(p, es) && IsWalk(es, t)
    ensures LinksWithin(TurnRound(p, t), es)
    decreases |t|
  {
    if |t| > 1 {
      var n := |t|;
      assert Adj(es, t[n - 2], t[n - 1]);
      TurnRoundWithin((p - {t[n - 2]})[t[n - 1] := t[n - 2]], t[..n - 1], es);
    }
  }

  lemma ClimbWithin(p: Links, s: seq<Node>, es: set<Edge>)
    requires LinksWithin(p, es) && Climb(p, s)
    ensures IsWalk(es, s)
  {
    forall i, j | 0 <= i < j < |s| && j == i + 1
      ensures Adj(es, s[i], s[j])
    {
      assert Under(p, s[i], s[j]);
    }
  }

  /** Every parent link is one of the processed edges, between opposite sides, even when paths
      were cut at the cap. */
  lemma {:induction false} LinksAreEdges(edges: seq<Edge>, cap: nat)
    ensures LinksWithin(LinksAfter(edges, cap), ToSet(edges))
    decreases |edges|
  {
    if |edges| > 0 {
      var before, e := edges[..|edges| - 1], edges[|edges| - 1];
      LinksAreEdges(before, cap);
      var p, es := LinksAfter(before, cap), ToSet(edges);
      var a, b := U(e.u), V(e.v);
      PathClimbs(p, a, cap);
      PathClimbs(p, b, cap);
      ClimbWithin(p, PathOf(p, a, cap), es);
      ClimbWithin(p, PathOf(p, b, cap), es);
      TurnRoundWithin(p, PathOf(p, a, cap), es);
      TurnRoundWithin(p, PathOf(p, b, cap), es);
      assert e in es;
    }
  }

  /** `c` is, up to the order of its members, the edge list of a closed walk within `es`. */
  ghost predicate ClosedWalk(es: set<Edge>, c: seq<Edge>) {
    exists ns: seq<Node> ::
      && |ns| == |c| && IsWalk(es, ns) && Adj(es, ns[|ns| - 1], ns[0])
      && multiset(c) == multiset(Trail(ns)) + multiset{Joining(ns[|ns| - 1], ns[0])}
  }

  lemma BridgeStep(s: seq<Node>, t: seq<Node>, i: nat, j: nat, k: nat)
    requires i < |s| && j < |t| && s[i] == t[j] && k < i + j
    requires forall k, l :: 0 <= k < l <= j && l == k + 1 ==> Opposite(t[k], t[l])
    ensures var b := Bridge(s, t, i, j);
      Joining(b[k], b[k + 1]) ==
      if k < i then Joining(s[k], s[k + 1]) else Joining(t[i + j - k - 1], t[i + j - k])
  {
    var b := Bridge(s, t, i, j);
    if k >= i {
      var m := i + j - k;
      assert Opposite(t[m - 1], t[m]);
      assert b[k] == t[m];
    }
  }

  lemma AlongBridge(s: seq<Node>, t: seq<Node>, i: nat, j: nat)
    requires i < |s| && j < |t| && s[i] == t[j]
    requires forall k, l :: 0 <= k < l <= j && l == k + 1 ==> Opposite(t[k], t[l])
    ensures Trail(Bridge(s, t, i, j)) == Along(s, i) + Reverse(Along(t, j))
  {
    var lhs, up, down := Trail(Bridge(s, t, i, j)), Along(s, i), Reverse(Along(t, j));
    forall k | 0 <= k < i + j
      ensures lhs[k] == if k < i then up[k] else down[k - i]
    {
      BridgeStep(s, t, i, j, k);
    }
    assert lhs[..i] == up;
    assert lhs[i..] == down;
  }

  /** The edges up one path and up the other are the edges of the bridge. */
  lemma BridgeEdges(s: seq<Node>, t: seq<Node>, i: nat, j: nat)
    requires i < |s| && j < |t| && s[i] == t[j]
    requires forall k, l :: 0 <= k < l <= j && l == k + 1 ==> Opposite(t[k], t[l])
    ensures multiset(Along(s, i)) + multiset(Along(t, j)) == multiset(Trail(Bridge(s, t, i, j)))
  {
    AlongBridge(s, t, i, j);
    ReverseMultiset(Along(t, j));
  }

  lemma BridgeIsWalk(es: set<Edge>, s: seq<Node>, t: seq<Node>, i: nat, j: nat)
    requires IsWalk(es, s) && IsWalk(es, t)
    requires i < |s| && j < |t| && s[i] == t[j]
    ensures IsWalk(es, Bridge(s, t, i, j))
  {
    var b := Bridge(s, t, i, j);
    forall k, l | 0 <= k < l < |b| && l == k + 1
      ensures Adj(es, b[k], b[l])
    {
      if l <= i {
        assert Adj(es, s[k], s[l]);
      } else {
        assert Adj(es, t[i + j - l], t[i + j - k]);
        assert b[k] == t[i + j - k] && b[l] == t[i + j - l];
      }
    }
  }

  lemma WalkOpposite(es: set<Edge>, t: seq<Node>)
    requires IsWalk(es, t)
    ensures forall k, l :: 0 <= k < l < |t| && l == k + 1 ==> Opposite(t[k], t[l])
  {
    forall k, l | 0 <= k < l < |t| && l == k + 1
      ensures Opposite(t[k], t[l])
    {
      assert Adj(es, t[k], t[l]);
    }
  }

  lemma PrependMultiset<T>(e: T, u: seq<T>, v: seq<T>, w: seq<T>)
    requires multiset(u) + multiset(v) == multiset(w)
    ensures multiset([e] + u + v) == multiset(w) + multiset{e}
  {
  }

  /** The emitted members are the edges along the bridge and the edge that closes it. */
  lemma ClosedEdges(e: Edge, s: seq<Node>, t: seq<Node>, i: nat, j: nat)
    requires i < |s| && j < |t| && s[i] == t[j]
    requires forall k, l :: 0 <= k < l <= j && l == k + 1 ==> Opposite(t[k], t[l])
    ensures var ns := Bridge(s, t, i, j);
      multiset([e] + Along(s, i) + Along(t, j)) == multiset(Trail(ns)) + multiset{e}
  {
    BridgeEdges(s, t, i, j);
    PrependMultiset(e, Along(s, i), Along(t, j), Trail(Bridge(s, t, i, j)));
  }

  lemma JoinedIsClosedWalk(es: set<Edge>, e: Edge, s: seq<Node>, t: seq<Node>, i: nat, j: nat)
    requires e in es && IsWalk(es, s) && IsWalk(es, t) && s[0] == U(e.u) && t[0] == V(e.v)
    requires i < |s| && j < |t| && s[i] == t[j]
    ensures ClosedWalk(es, [e] + Along(s, i) + Along(t, j))
  {
    var ns := Bridge(s, t, i, j);
    BridgeIsWalk(es, s, t, i, j);
    WalkOpposite(es, t);
    ClosedEdges(e, s, t, i, j);
    EndsOfBridge(s, t, i, j);
    assert Joining(ns[|ns| - 1], ns[0]) == e;
  }

  /** Whatever is emitted has the target length, starts with the edge just read, and closes up
      within the edges read so far. */
  lemma EmitIsClosedWalk(p: Links, e: Edge, target: nat, cap: nat, es: set<Edge>, c: seq<Edge>)
    requires LinksWithin(p, es) && e in es
    requires c in Emit(p, e, target, cap)
    ensures |c| == target && target > 0 && c[0] == e && ClosedWalk(es, c)
    ensures ToSet(c) <= es
  {
    var a, b := U(e.u), V(e.v);
    var s, t := PathOf(p, a, cap), PathOf(p, b, cap);
    PathClimbs(p, a, cap);
    PathClimbs(p, b, cap);
    ClimbWithin(p, s, es);
    ClimbWithin(p, t, es);
    var i: nat, j: nat :| Meet(s, t, i, j);
    EmitAt(p, e, target, cap, i, j);
    JoinedIsClosedWalk(es, e, s, t, i, j);
    WalkTrail(es, s, i);
    WalkTrail(es, t, j);
  }

  lemma WalkTrail(es: set<Edge>, s: seq<Node>, n: nat)
    requires IsWalk(es, s) && n < |s|
    ensures ToSet(Along(s, n)) <= es
  {
    forall k | 0 <= k < n
      ensures Along(s, n)[k] in es
    {
      assert Adj(es, s[k], s[k + 1]);
    }
  }

  lemma EndsOfBridge(s: seq<Node>, t: seq<Node>, i: nat, j: nat)
    requires i < |s| && j < |t| && s[i] == t[j]
    ensures var b := Bridge(s, t, i, j); b[0] == s[0] && b[|b| - 1] == t[0]
  {
  }

  /** All emitted sequences are closed walks of the target length, path cap or not. */
  lemma {:induction false} CyclesAreClosedWalks(edges: seq<Edge>, target: nat, cap: nat, k: nat)
    requires k < |Cycles(edges, target, cap)|
    ensures var c := Cycles(edges, target, cap)[k];
      |c| == target && ClosedWalk(ToSet(edges), c)
    decreases |edges|
  {
    var before, e := edges[..|edges| - 1], edges[|edges| - 1];
    var p := LinksAfter(before, cap);
    var c := Cycles(edges, target, cap)[k];
    if k < |Cycles(before, target, cap)| {
      CyclesAreClosedWalks(before, target, cap, k);
      ClosedWalkMono(ToSet(before), ToSet(edges), c);
    } else {
      LinksAreEdges(before, cap);
      EmitIsClosedWalk(p, e, target, cap, ToSet(edges), c);
    }
  }

  lemma ClosedWalkMono(small: set<Edge>, big: set<Edge>, c: seq<Edge>)
    requires small <= big && ClosedWalk(small, c)
    ensures ClosedWalk(big, c)
  {
    var ns: seq<Node> :|
      && |ns| == |c| && IsWalk(small, ns) && Adj(small, ns[|ns| - 1], ns[0])
      && multiset(c) == multiset(Trail(ns)) + multiset{Joining(ns[|ns| - 1], ns[0])};
    assert IsWalk(big, ns);
  }

  // ---------- while no path reaches the cap ----------

  /** Both paths that edge `e` asks for stop at a root before the cap. */
  ghost predicate ShortPaths(p: Links, e: Edge, cap: nat) {
    Known(p, e) || (|PathOf(p, U(e.u), cap)| < cap && |PathOf(p, V(e.v), cap)| < cap)
  }

  ghost predicate Uncapped(edges: seq<Edge>, cap: nat)
    decreases |edges|
  {
    |edges| == 0 ||
    (var before := edges[..|edges| - 1];
     Uncapped(before, cap) && ShortPaths(LinksAfter(before, cap), edges[|edges| - 1], cap))
  }

  lemma GrowForest(p: Links, e: Edge, cap: nat)
    requires Forest(p) && ShortPaths(p, e, cap)
    ensures var q, kept := Grow(p, e, cap), EdgesOf(p);
      && Forest(q)
      && EdgesOf(q) == if Connected(kept, U(e.u), V(e.v)) then kept else kept + {e}
  {
    var a, b := U(e.u), V(e.v);
    var s, t := PathOf(p, a, cap), PathOf(p, b, cap);
    if Known(p, e) {
      AdjIsLink(p, a, b);
      ConnectedStep(EdgesOf(p), a, b);
    } else {
      PathClimbs(p, a, cap);
      PathClimbs(p, b, cap);
      RootOf(p, s, a);
      RootOf(p, t, b);
      ConnectedIffSameRoot(p, a, b);
      MeetIffSameRoot(p, s, a, t, b);
      if !Meets(s, t) {
        if |s| > |t| {
          HangUnder(p, t, b, a);
        } else {
          ConnectedIffSameRoot(p, b, a);
          HangUnder(p, s, a, b);
        }
      }
    }
  }

  /** Re-root b's tree at b and hang it under a node of another tree. */
  lemma HangUnder(p: Links, t: seq<Node>, b: Node, a: Node)
    requires Forest(p) && RootPath(p, t, b) && Opposite(b, a)
    requires HasRoot(p, a) && HasRoot(p, b) && Root(p, a) != Root(p, b)
    ensures var q := TurnRound(p, t)[b := a];
      Forest(q) && EdgesOf(q) == EdgesOf(p) + {Joining(b, a)}
  {
    var r := TurnRound(p, t);
    ClimbDistinct(p, t);
    TurnRoundReverses(p, t);
    ReversedForest(p, t, r);
    ReversedEdges(p, t, r);
    assert EdgesOf(p) - Above(p, t) == EdgesOf(p);
    ConnectedIffSameRoot(p, a, b);
    ConnectedIffSameRoot(r, a, b);
    assert RootPath(r, [b], b);
    RootOf(r, [b], b);
    LinkForest(r, b, a);
  }

  /** While no path reaches the cap, the parent links are an acyclic forest, and its undirected
      edges are exactly the greedy spanning forest of the edges read so far. */
  lemma {:induction false} LinksAreGreedyForest(edges: seq<Edge>, cap: nat)
    requires Uncapped(edges, cap)
    ensures Forest(LinksAfter(edges, cap)) && EdgesOf(LinksAfter(edges, cap)) == Greedy(edges)
    decreases |edges|
  {
    var p := LinksAfter(edges, cap);
    if |edges| == 0 {
      forall x
        ensures HasRoot(p, x)
      {
        assert RootPath(p, [x], x);
      }
    } else {
      var before, e := edges[..|edges| - 1], edges[|edges| - 1];
      LinksAreGreedyForest(before, cap);
      GrowForest(LinksAfter(before, cap), e, cap);
    }
  }

  lemma {:induction false} LinksSize(edges: seq<Edge>, cap: nat)
    requires Uncapped(edges, cap)
    ensures |LinksAfter(edges, cap)| <= |edges|
    decreases |edges|
  {
    if |edges| > 0 {
      var before, e := edges[..|edges| - 1], edges[|edges| - 1];
      LinksSize(before, cap);
      LinksAreGreedyForest(before, cap);
      GrowSize(LinksAfter(before, cap), e, cap);
    }
  }

  lemma GrowSize(p: Links, e: Edge, cap: nat)
    requires Forest(p) && ShortPaths(p, e, cap)
    ensures |Grow(p, e, cap)| <= |p| + 1
  {
    var a, b := U(e.u), V(e.v);
    if !Known(p, e) {
      PathClimbs(p, a, cap);
      PathClimbs(p, b, cap);
      ReversedSize(p, PathOf(p, a, cap), a);
      ReversedSize(p, PathOf(p, b, cap), b);
    }
  }

  lemma ReversedSize(p: Links, t: seq<Node>, b: Node)
    requires RootPath(p, t, b)
    ensures |TurnRound(p, t)| == |p| && b !in TurnRound(p, t)
  {
    RootPathDistinct(p, t, b);
    TurnRoundReverses(p, t);
    ReversedKeys(p, t, TurnRound(p, t), b);
  }

  /** Reversal frees the start and gives the old root a parent; the number of links stays. */
  lemma ReversedKeys(p: Links, t: seq<Node>, q: Links, b: Node)
    requires RootPath(p, t, b) && Reversed(p, t, q)
    ensures b !in q && |q| == |p|
  {
    var root := t[|t| - 1];
    forall x | x in t && x != root
      ensures x in p.Keys
    {
      var i :| 0 <= i < |t| && t[i] == x;
      assert Under(p, t[i], t[i + 1]);
    }
    SwapSize(p.Keys, q.Keys, root, b);
  }

  /** With fewer edges than the cap no path can reach it. */
  lemma {:induction false} FewEdgesUncapped(edges: seq<Edge>, cap: nat)
    requires |edges| < cap
    ensures Uncapped(edges, cap)
    decreases |edges|
  {
    if |edges| > 0 {
      var before, e := edges[..|edges| - 1], edges[|edges| - 1];
      FewEdgesUncapped(before, cap);
      var p := LinksAfter(before, cap);
      LinksAreGreedyForest(before, cap);
      LinksSize(before, cap);
      ForestPathShort(p, U(e.u), cap);
      ForestPathShort(p, V(e.v), cap);
    }
  }

  lemma ForestPathShort(p: Links, x: Node, cap: nat)
    requires Forest(p) && |p| + 1 < cap
    ensures |PathOf(p, x, cap)| < cap
  {
    var s := PathOf(p, x, cap);
    PathClimbs(p, x, cap);
    assert HasRoot(p, x);
    ClimbIsPrefix(p, s, Up(p, x));
    RootPathLength(p, Up(p, x), x);
  }

  // ---------- what is emitted ----------

  /** Edge i closes a cycle of `target` edges: its ends are joined by a path of target - 1 edges
      in the greedy forest of the earlier edges.  A repeated forest edge (target 2) is skipped. */
  ghost predicate Closes(edges: seq<Edge>, i: nat, target: nat)
    requires i < |edges|
  {
    target != 2 && exists w :: IsPath(Greedy(edges[..i]), w, U(edges[i].u), V(edges[i].v)) && |w| == target
  }

  /** The indices of the closing edges, in order. */
  ghost function Closing(edges: seq<Edge>, target: nat): (r: seq<nat>)
    ensures forall k :: 0 <= k < |r| ==> r[k] < |edges|
    decreases |edges|
  {
    if |edges| == 0 then []
    else
      var n := |edges| - 1;
      Closing(edges[..n], target) + (if Closes(edges, n, target) then [n] else [])
  }

  lemma {:induction false} ClosingComplete(edges: seq<Edge>, target: nat, i: nat)
    requires i < |edges|
    ensures i in Closing(edges, target) <==> Closes(edges, i, target)
    decreases |edges|
  {
    var n := |edges| - 1;
    if i < n {
      ClosingComplete(edges[..n], target, i);
      assert edges[..n][..i] == edges[..i];
    } else {
      assert i !in Closing(edges[..n], target);
    }
  }

  /** One step emits exactly when the forest has the path, and then a simple cycle. */
  lemma EmitIff(p: Links, e: Edge, target: nat, cap: nat)
    requires Forest(p) && ShortPaths(p, e, cap)
    ensures var found := target != 2 &&
        exists w :: IsPath(EdgesOf(p), w, U(e.u), V(e.v)) && |w| == target;
      |Emit(p, e, target, cap)| == if found then 1 else 0
    ensures forall c :: c in Emit(p, e, target, cap) ==> FormsOneCycle(c)
  {
    var a, b := U(e.u), V(e.v);
    var s, t, es := PathOf(p, a, cap), PathOf(p, b, cap), EdgesOf(p);
    if Known(p, e) {
      if w :| IsPath(es, w, a, b) && |w| == target {
        KnownPathLength(p, e, w);
      }
    } else {
      PathClimbs(p, a, cap);
      PathClimbs(p, b, cap);
      RootOf(p, s, a);
      RootOf(p, t, b);
      ConnectedIffSameRoot(p, a, b);
      MeetIffSameRoot(p, s, a, t, b);
      forall w | IsPath(es, w, a, b)
        ensures Connected(es, a, b)
      {
        assert Joins(es, w, a, b);
      }
      if Meets(s, t) {
        var i: nat, j: nat :| Meet(s, t, i, j);
        MeetingEmits(p, e, target, cap, i, j);
      }
    }
  }

  /** Where the root paths meet, the bridge decides: it is the only path, and not a single edge. */
  lemma MeetingEmits(p: Links, e: Edge, target: nat, cap: nat, i: nat, j: nat)
    requires Forest(p) && !Known(p, e)
    requires RootPath(p, PathOf(p, U(e.u), cap), U(e.u)) && RootPath(p, PathOf(p, V(e.v), cap), V(e.v))
    requires Meet(PathOf(p, U(e.u), cap), PathOf(p, V(e.v), cap), i, j)
    ensures var found := target != 2 &&
        exists w :: IsPath(EdgesOf(p), w, U(e.u), V(e.v)) && |w| == target;
      |Emit(p, e, target, cap)| == if found then 1 else 0
    ensures forall c :: c in Emit(p, e, target, cap) ==> FormsOneCycle(c)
  {
    var a, b := U(e.u), V(e.v);
    var s, t, es := PathOf(p, a, cap), PathOf(p, b, cap), EdgesOf(p);
    EmitAt(p, e, target, cap, i, j);
    var ns := Bridge(s, t, i, j);
    BridgeIsPath(p, s, a, t, b, i, j);
    assert |ns| == 2 ==> Adj(es, ns[0], ns[1]);
    AdjIsLink(p, a, b);
    assert |ns| != 2;
    if w :| IsPath(es, w, a, b) && |w| == target {
      BridgeIsOnlyPath(p, s, a, t, b, i, j, w);
    }
    BridgeIsCycle(p, e, s, t, i, j);
  }

  /** An edge that is a parent link is the only path between its ends. */
  lemma KnownPathLength(p: Links, e: Edge, w: seq<Node>)
    requires Forest(p) && Known(p, e) && IsPath(EdgesOf(p), w, U(e.u), V(e.v))
    ensures |w| == 2
  {
    var a, b := U(e.u), V(e.v);
    assert HasRoot(p, a) && HasRoot(p, b);
    var s, t := Up(p, a), Up(p, b);
    if Under(p, a, b) {
      assert |s| > 1 && Under(p, s[0], s[1]);
      RootPathSuffix(p, s, a, 1);
      RootPathUnique(p, s[1..], t, b);
      RootPathDistinct(p, s, a);
      assert Meet(s, t, 1, 0) by {
        assert s[0] !in s[1..];
      }
      BridgeIsOnlyPath(p, s, a, t, b, 1, 0, w);
    } else {
      assert |t| > 1 && Under(p, t[0], t[1]);
      RootPathSuffix(p, t, b, 1);
      RootPathUnique(p, t[1..], s, a);
      assert Meet(s, t, 0, 1);
      BridgeIsOnlyPath(p, s, a, t, b, 0, 1, w);
    }
  }

  /** A path between the ends of `e`, closed by `e`, is a simple cycle. */
  lemma ClosedPathIsCycle(es: set<Edge>, e: Edge, ns: seq<Node>, c: seq<Edge>)
    requires IsPath(es, ns, U(e.u), V(e.v))
    requires multiset(c) == multiset(Trail(ns)) + multiset{e}
    ensures FormsOneCycle(c)
  {
    WalkOpposite(es, ns);
    assert |ns| >= 2;
    assert CycleNodes(ns);
    assert CycleEdges(ns) == Trail(ns) + [e];
  }

  /** The bridge between the ends of `e`, closed by `e`, is a simple cycle. */
  lemma BridgeIsCycle(p: Links, e: Edge, s: seq<Node>, t: seq<Node>, i: nat, j: nat)
    requires Bipartite(p) && RootPath(p, s, U(e.u)) && RootPath(p, t, V(e.v)) && Meet(s, t, i, j)
    ensures FormsOneCycle([e] + Along(s, i) + Along(t, j))
  {
    BridgeIsPath(p, s, U(e.u), t, V(e.v), i, j);
    ClimbIsWalk(p, t);
    WalkOpposite(EdgesOf(p), t);
    ClosedEdges(e, s, t, i, j);
    ClosedPathIsCycle(EdgesOf(p), e, Bridge(s, t, i, j), [e] + Along(s, i) + Along(t, j));
  }

  /** What the run must emit for the closing edge `e`: one simple cycle of the target length
      that consists of `e` and edges of the forest. */
  ghost predicate CycleThrough(c: seq<Edge>, e: Edge, target: nat, forest: set<Edge>) {
    |c| == target > 0 && c[0] == e && ToSet(c) <= forest + {e} && FormsOneCycle(c)
  }

  lemma EmitThrough(edges: seq<Edge>, e: Edge, target: nat, cap: nat)
    requires Uncapped(edges + [e], cap)
    ensures var out := Emit(LinksAfter(edges, cap), e, target, cap);
      && |out| == (if Closes(edges + [e], |edges|, target) then 1 else 0)
      && (forall c :: c in out ==> CycleThrough(c, e, target, Greedy(edges)))
  {
    assert (edges + [e])[..|edges|] == edges;
    LinksAreGreedyForest(edges, cap);
    var p := LinksAfter(edges, cap);
    EmitIff(p, e, target, cap);
    var es := Greedy(edges) + {e};
    forall x | x in p
      ensures Adj(es, x, p[x])
    {
      AdjIsLink(p, x, p[x]);
    }
    forall c | c in Emit(p, e, target, cap)
      ensures CycleThrough(c, e, target, Greedy(edges))
    {
      EmitIsClosedWalk(p, e, target, cap, es, c);
    }
  }

  /** `cs` lists one cycle for each of the edges with the indices `idx`, in the same order. */
  ghost predicate OneCycleEach(edges: seq<Edge>, target: nat, cs: seq<seq<Edge>>, idx: seq<nat>) {
    && |cs| == |idx|
    && forall k :: 0 <= k < |cs| ==>
         idx[k] < |edges| && CycleThrough(cs[k], edges[idx[k]], target, Greedy(edges[..idx[k]]))
  }

  lemma OneCycleEachExtend(edges: seq<Edge>, e: Edge, target: nat, cs: seq<seq<Edge>>, idx: seq<nat>)
    requires OneCycleEach(edges, target, cs, idx)
    ensures OneCycleEach(edges + [e], target, cs, idx)
  {
    forall k | 0 <= k < |cs|
      ensures CycleThrough(cs[k], (edges + [e])[idx[k]], target, Greedy((edges + [e])[..idx[k]]))
    {
      assert (edges + [e])[..idx[k]] == edges[..idx[k]];
    }
  }

  lemma OneCycleEachAppend(edges: seq<Edge>, target: nat, cs: seq<seq<Edge>>, idx: seq<nat>, c: seq<Edge>, n: nat)
    requires OneCycleEach(edges, target, cs, idx)
    requires n < |edges| && CycleThrough(c, edges[n], target, Greedy(edges[..n]))
    ensures OneCycleEach(edges, target, cs + [c], idx + [n])
  {
  }

  /** While no path reaches the cap, the run emits one cycle for each closing edge and nothing
      else, in order; each is one simple cycle of the target length through that edge. */
  lemma {:induction false} CyclesAreExactlyTheClosing(edges: seq<Edge>, target: nat, cap: nat)
    requires Uncapped(edges, cap)
    ensures OneCycleEach(edges, target, Cycles(edges, target, cap), Closing(edges, target))
    decreases |edges|
  {
    if |edges| > 0 {
      var n := |edges| - 1;
      var before, e := edges[..n], edges[n];
      CyclesAreExactlyTheClosing(before, target, cap);
      assert before + [e] == edges;
      EmitThrough(before, e, target, cap);
      var cs, idx := Cycles(before, target, cap), Closing(before, target);
      OneCycleEachExtend(before, e, target, cs, idx);
      var out := Emit(LinksAfter(before, cap), e, target, cap);
      if Closes(edges, n, target) {
        assert out[0] in out;
        OneCycleEachAppend(edges, target, cs, idx, out[0], n);
        assert cs + [out[0]] == cs + out;
      } else {
        assert cs + out == cs && idx + [] == idx;
      }
    }
  }

  /** The greedy forest has no cycle: a path between two nodes is the only one. */
  lemma GreedyPathUnique(edges: seq<Edge>, x: Node, y: Node, v: seq<Node>, w: seq<Node>)
    requires IsPath(Greedy(edges), v, x, y) && IsPath(Greedy(edges), w, x, y)
    ensures v == w
  {
    var cap := |edges| + 1;
    FewEdgesUncapped(edges, cap);
    LinksAreGreedyForest(edges, cap);
    var p := LinksAfter(edges, cap);
    assert HasRoot(p, x) && HasRoot(p, y);
    var s, t := Up(p, x), Up(p, y);
    assert Connected(EdgesOf(p), x, y);
    ConnectedIffSameRoot(p, x, y);
    MeetIffSameRoot(p, s, x, t, y);
    var i: nat, j: nat :| Meet(s, t, i, j);
    BridgeIsOnlyPath(p, s, x, t, y, i, j, v);
    BridgeIsOnlyPath(p, s, x, t, y, i, j, w);
  }
}
