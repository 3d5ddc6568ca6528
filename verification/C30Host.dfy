/** The Cortex host search: the same forest kept as two hash maps, one a side, and the step from
    a found cycle back to a proof made of input nonces.
 */
module C30Host {
  import opened Basics
  import opened BipartiteGraph
  import opened ParentForest
  import opened CycleRun
  import opened ProofVerify
  import opened Sequences

  const PROOF_SIZE: nat := 42

  /** 2^22: larger inputs are refused. */
  const MAX_EDGES: nat := 0x40_0000

  function NodeOf(inU: bool, id: Id): Node {
    if inU then U(id) else V(id)
  }

  /** Side of position i on a path that starts on the given side. */
  function SideAt(startsInU: bool, i: nat): bool {
    if i % 2 == 0 then startsInU else !startsInU
  }

  /** The nodes of a path of endpoint numbers. */
  ghost function NodesAlong(path: seq<Id>, startsInU: bool): (s: seq<Node>)
    ensures |s| == |path| && forall i :: 0 <= i < |path| ==> s[i] == NodeOf(SideAt(startsInU, i), path[i])
  {
    seq(|path|, i requires 0 <= i < |path| => NodeOf(SideAt(startsInU, i), path[i]))
  }

  /** The links after turning the link between positions i - 1 and i. */
  ghost function Turned(q: Links, path: seq<Id>, startsInU: bool, i: nat): Links
    requires 0 < i < |path|
  {
    var lower := SideAt(startsInU, i - 1);
    (q - {NodeOf(lower, path[i - 1])})[NodeOf(!lower, path[i]) := NodeOf(lower, path[i - 1])]
  }

  lemma TurnStep(q: Links, path: seq<Id>, startsInU: bool, i: nat)
    requires 0 < i < |path|
    ensures TurnRound(q, NodesAlong(path[..i + 1], startsInU)) ==
      TurnRound(Turned(q, path, startsInU, i), NodesAlong(path[..i], startsInU))
  {
    var t := NodesAlong(path[..i + 1], startsInU);
    assert t[..i] == NodesAlong(path[..i], startsInU);
    assert t[i - 1] == NodeOf(SideAt(startsInU, i - 1), path[i - 1]);
    assert t[i] == NodeOf(!SideAt(startsInU, i - 1), path[i]);
  }

  class Graphs {
    var u: map<Id, Id>
    var v: map<Id, Id>

    constructor ()
      ensures Stores(map[])
    {
      u, v := map[], map[];
    }

    /** The two maps store the links `p`. */
    ghost predicate Stores(p: Links)
      reads this
    {
      && (forall a: Id :: a in u <==> U(a) in p)
      && (forall a: Id :: a in u ==> p[U(a)] == V(u[a]))
      && (forall b: Id :: b in v <==> V(b) in p)
      && (forall b: Id :: b in v ==> p[V(b)] == U(v[b]))
    }

    method CreatePath(startsInU: bool, start: Id, cap: nat, ghost p: Links) returns (path: seq<Id>)
      requires Stores(p)
      ensures |path| > 0 && path[0] == start
      ensures NodesAlong(path, startsInU) == PathOf(p, NodeOf(startsInU, start), cap)
    {
      path := [start];
      assert NodesAlong(path, startsInU) == [NodeOf(startsInU, start)];
      var inU := startsInU;
      while |path| < cap && (if inU then path[|path| - 1] in u else path[|path| - 1] in v)
        invariant |path| > 0 && path[0] == start && inU == SideAt(startsInU, |path| - 1)
        invariant PathFrom(p, NodesAlong(path, startsInU), cap) == PathOf(p, NodeOf(startsInU, start), cap)
        decreases cap - |path|
      {
        var last := path[|path| - 1];
        var next := if inU then u[last] else v[last];
        ghost var s := NodesAlong(path, startsInU);
        assert s[|s| - 1] == NodeOf(inU, last) && p[NodeOf(inU, last)] == NodeOf(!inU, next);
        assert NodesAlong(path + [next], startsInU) == s + [NodeOf(!inU, next)];
        path := path + [next];
        inU := !inU;
      }
    }

    /** Make `above` the parent of the node numbered `child` on the given side. */
    method SetLink(childInU: bool, child: Id, above: Id, ghost p: Links)
      requires Stores(p)
      modifies this
      ensures Stores(p[NodeOf(childInU, child) := NodeOf(!childInU, above)])
    {
      if childInU {
        u := u[child := above];
      } else {
        v := v[child := above];
      }
    }

    method EraseLink(childInU: bool, child: Id, ghost p: Links)
      requires Stores(p)
      modifies this
      ensures Stores(p - {NodeOf(childInU, child)})
    {
      if childInU {
        u := u - {child};
      } else {
        v := v - {child};
      }
    }

    method ReversePath(path: seq<Id>, startsInU: bool, ghost p: Links)
      requires Stores(p) && |path| > 0
      modifies this
      ensures Stores(TurnRound(p, NodesAlong(path, startsInU)))
    {
      var i := |path| - 1;
      ghost var q := p;
      assert path[..i + 1] == path;
      while i > 0
        invariant 0 <= i < |path|
        invariant Stores(q)
        invariant TurnRound(q, NodesAlong(path[..i + 1], startsInU)) == TurnRound(p, NodesAlong(path, startsInU))
      {
        var lowerInU := SideAt(startsInU, i - 1);
        TurnStep(q, path, startsInU, i);
        EraseLink(lowerInU, path[i - 1], q);
        ghost var r := q - {NodeOf(lowerInU, path[i - 1])};
        SetLink(!lowerInU, path[i], path[i - 1], r);
        q := Turned(q, path, startsInU, i);
        i := i - 1;
      }
    }
  }

  /** The first match, near ends first; a match needs opposite position parity because the two
      sides number their endpoints independently. */
  method FindJoin(pathU: seq<Id>, pathV: seq<Id>) returns (found: bool, joinU: nat, joinV: nat)
    ensures found ==> Meet(NodesAlong(pathU, true), NodesAlong(pathV, false), joinU, joinV)
    ensures !found ==> !Meets(NodesAlong(pathU, true), NodesAlong(pathV, false))
  {
    ghost var s, t := NodesAlong(pathU, true), NodesAlong(pathV, false);
    found, joinU, joinV := false, |pathU|, |pathV|;
    var i := 0;
    while i < |pathU|
      invariant 0 <= i <= |pathU|
      invariant forall k :: 0 <= k < i ==> s[k] !in t
    {
      var j := 1 - i % 2;
      while j < |pathV|
        invariant 0 <= j && j % 2 != i % 2
        invariant forall k :: 0 <= k < j && k < |pathV| ==> t[k] != s[i]
        decreases |pathV| - j
      {
        if pathV[j] == pathU[i] {
          found, joinU, joinV := true, i, j;
          return;
        }
        assert t[j] != s[i];
        assert j + 1 < |pathV| ==> t[j + 1] != s[i];
        j := j + 2;
      }
      i := i + 1;
    }
  }

  // ---------- emission ----------

  method CollectCycle(e: Edge, pathU: seq<Id>, joinU: nat, pathV: seq<Id>, joinV: nat) returns (cycle: seq<Edge>)
    requires joinU < |pathU| && joinV < |pathV|
    ensures cycle == [e] + Along(NodesAlong(pathU, true), joinU) + Along(NodesAlong(pathV, false), joinV)
  {
    ghost var s, t := NodesAlong(pathU, true), NodesAlong(pathV, false);
    cycle := [e];
    var i := 0;
    while i < joinU
      invariant 0 <= i <= joinU && cycle == [e] + Along(s, i)
    {
      assert Along(s, i + 1) == Along(s, i) + [Joining(s[i], s[i + 1])];
      cycle := cycle + [if i % 2 == 1 then Edge(pathU[i + 1], pathU[i]) else Edge(pathU[i], pathU[i + 1])];
      i := i + 1;
    }
    i := 0;
    while i < joinV
      invariant 0 <= i <= joinV && cycle == [e] + Along(s, joinU) + Along(t, i)
    {
      assert Along(t, i + 1) == Along(t, i) + [Joining(t[i], t[i + 1])];
      cycle := cycle + [if i % 2 == 1 then Edge(pathV[i], pathV[i + 1]) else Edge(pathV[i + 1], pathV[i])];
      i := i + 1;
    }
  }

  /** One round of the search: the cycle closed by `e`, if it has the proof size. */
  method ProcessEdge(graphs: Graphs, e: Edge, proofSize: nat, cap: nat, ghost p: Links)
    returns (cycle: Option<seq<Edge>>)
    requires graphs.Stores(p)
    modifies graphs
    ensures cycle.None? ==> Emit(p, e, proofSize, cap) == [] && graphs.Stores(Grow(p, e, cap))
    ensures cycle.Some? ==> Emit(p, e, proofSize, cap) == [cycle.value]
  {
    if (e.u in graphs.u && graphs.u[e.u] == e.v) || (e.v in graphs.v && graphs.v[e.v] == e.u) {
      assert Known(p, e);
      return None;
    }
    assert !Known(p, e);
    var pathU := graphs.CreatePath(true, e.u, cap, p);
    var pathV := graphs.CreatePath(false, e.v, cap, p);
    ghost var s, t := NodesAlong(pathU, true), NodesAlong(pathV, false);
    var found, joinU, joinV := FindJoin(pathU, pathV);
    if found {
      assert Meets(s, t);
      EmitAt(p, e, proofSize, cap, joinU, joinV);
      if 1 + joinU + joinV != proofSize {
        return None;
      }
      var members := CollectCycle(e, pathU, joinU, pathV, joinV);
      return Some(members);
    }
    if |pathU| > |pathV| {
      graphs.ReversePath(pathV, false, p);
      graphs.SetLink(false, e.v, e.u, TurnRound(p, t));
    } else {
      graphs.ReversePath(pathU, true, p);
      graphs.SetLink(true, e.u, e.v, TurnRound(p, s));
    }
    cycle := None;
  }

  // ---------- the search ----------

  lemma {:induction false} CyclesPrefix(edges: seq<Edge>, n: nat, target: nat, cap: nat)
    requires n <= |edges|
    ensures Cycles(edges[..n], target, cap) <= Cycles(edges, target, cap)
    decreases |edges|
  {
    if n == |edges| {
      assert edges[..n] == edges;
    } else {
      var before := edges[..|edges| - 1];
      CyclesPrefix(before, n, target, cap);
      assert before[..n] == edges[..n];
    }
  }

  /** The first sequence that a run emits. */
  ghost function FirstCycle(edges: seq<Edge>, target: nat, cap: nat): Option<seq<Edge>> {
    var cs := Cycles(edges, target, cap);
    if |cs| == 0 then None else Some(cs[0])
  }

  /** The map search stops at the first cycle; that is the first one the dense search lists. */
  method FindCycleGraph(edges: seq<Edge>, proofSize: nat, cap: nat) returns (cycle: Option<seq<Edge>>)
    ensures |edges| > MAX_EDGES ==> cycle == None
    ensures |edges| <= MAX_EDGES ==> cycle == FirstCycle(edges, proofSize, cap)
    ensures cycle.Some? ==> |cycle.value| == proofSize && ClosedWalk(ToSet(edges), cycle.value)
    ensures |edges| <= MAX_EDGES && Uncapped(edges, cap) ==>
      (cycle.Some? <==> exists i :: 0 <= i < |edges| && Closes(edges, i, proofSize))
    ensures Uncapped(edges, cap) && cycle.Some? ==> FormsOneCycle(cycle.value)
  {
    if |edges| > MAX_EDGES {
      return None;
    }
    var graphs := new Graphs();
    assert LinksAfter(edges[..0], cap) == map[];
    var k := 0;
    while k < |edges|
      invariant 0 <= k <= |edges|
      invariant fresh(graphs) && graphs.Stores(LinksAfter(edges[..k], cap))
      invariant Cycles(edges[..k], proofSize, cap) == []
    {
      assert edges[..k + 1][..k] == edges[..k];
      cycle := ProcessEdge(graphs, edges[k], proofSize, cap, LinksAfter(edges[..k], cap));
      if cycle.Some? {
        assert Cycles(edges[..k + 1], proofSize, cap) == [cycle.value];
        CyclesPrefix(edges, k + 1, proofSize, cap);
        FirstCycleMeaning(edges, proofSize, cap);
        return;
      }
      k := k + 1;
    }
    assert edges[..k] == edges;
    FirstCycleMeaning(edges, proofSize, cap);
    cycle := None;
  }

  lemma FirstCycleMeaning(edges: seq<Edge>, target: nat, cap: nat)
    ensures var c := FirstCycle(edges, target, cap);
      && (c.Some? ==> |c.value| == target && ClosedWalk(ToSet(edges), c.value))
      && (Uncapped(edges, cap) ==>
           && (c.Some? <==> exists i :: 0 <= i < |edges| && Closes(edges, i, target))
           && (c.Some? ==> FormsOneCycle(c.value)))
  {
    var cs, idx := Cycles(edges, target, cap), Closing(edges, target);
    if |cs| > 0 {
      CyclesAreClosedWalks(edges, target, cap, 0);
    }
    if Uncapped(edges, cap) {
      CyclesAreExactlyTheClosing(edges, target, cap);
      if |cs| > 0 {
        assert CycleThrough(cs[0], edges[idx[0]], target, Greedy(edges[..idx[0]]));
        assert idx[0] in idx;
        ClosingComplete(edges, target, idx[0]);
      }
      if i :| 0 <= i < |edges| && Closes(edges, i, target) {
        ClosingComplete(edges, target, i);
      }
    }
  }

  // ---------- from the cycle back to nonces ----------

  function Insert(x: Nonce, s: seq<Nonce>): seq<Nonce> {
    if |s| == 0 || x <= s[0] then [x] + s else [s[0]] + Insert(x, s[1..])
  }

  /** The nonces in ascending order. */
  function Sorted(s: seq<Nonce>): seq<Nonce> {
    if |s| == 0 then [] else Insert(s[0], Sorted(s[1..]))
  }

  ghost predicate NonDescending(s: seq<Nonce>) {
    forall i, j :: 0 <= i < j < |s| ==> s[i] <= s[j]
  }

  lemma PrependKeeps(x: Nonce, r: seq<Nonce>)
    requires NonDescending(r) && forall k :: 0 <= k < |r| ==> x <= r[k]
    ensures NonDescending([x] + r)
  {
  }

  lemma {:induction false} InsertMembers(x: Nonce, s: seq<Nonce>)
    ensures multiset(Insert(x, s)) == multiset(s) + multiset{x}
    decreases |s|
  {
    if |s| == 0 || x <= s[0] {
      assert multiset([x] + s) == multiset{x} + multiset(s);
    } else {
      InsertMembers(x, s[1..]);
      assert s == [s[0]] + s[1..];
    }
  }

  lemma {:induction false} InsertKeeps(x: Nonce, s: seq<Nonce>)
    requires NonDescending(s)
    ensures NonDescending(Insert(x, s))
    decreases |s|
  {
    if |s| == 0 || x <= s[0] {
      PrependKeeps(x, s);
    } else {
      var tail := s[1..];
      var r := Insert(x, tail);
      InsertKeeps(x, tail);
      InsertMembers(x, tail);
      forall k | 0 <= k < |r|
        ensures s[0] <= r[k]
      {
        assert r[k] in multiset(tail) + multiset{x};
        assert r[k] == x || r[k] in tail;
      }
      PrependKeeps(s[0], r);
    }
  }

  lemma {:induction false} SortedKeeps(s: seq<Nonce>)
    ensures NonDescending(Sorted(s)) && multiset(Sorted(s)) == multiset(s)
    decreases |s|
  {
    if |s| > 0 {
      SortedKeeps(s[1..]);
      InsertKeeps(s[0], Sorted(s[1..]));
      InsertMembers(s[0], Sorted(s[1..]));
      assert s == [s[0]] + s[1..];
    }
  }

  /** Index of the first occurrence. */
  ghost function FirstIndex(edges: seq<Edge>, e: Edge): (i: nat)
    requires e in edges
    ensures i < |edges| && edges[i] == e && forall k :: 0 <= k < i ==> edges[k] != e
  {
    if edges[0] == e then 0 else 1 + FirstIndex(edges[1..], e)
  }

  /** The first input edge equal to `e` that is not used yet, or |edges|. */
  method FindUnused(edges: seq<Edge>, used: seq<bool>, e: Edge) returns (index: nat)
    requires |used| == |edges|
    ensures index <= |edges| && (index < |edges| ==> !used[index] && edges[index] == e)
    ensures e in edges && (forall j :: 0 <= j < |used| && used[j] ==> edges[j] != e) ==> index == FirstIndex(edges, e)
  {
    index := 0;
    while index < |edges| && (used[index] || edges[index] != e)
      invariant 0 <= index <= |edges|
      invariant forall j :: 0 <= j < index ==> used[j] || edges[j] != e
    {
      index := index + 1;
    }
  }

  /** `picked` reads back the first members of `cycle` from their first occurrences. */
  ghost predicate PickedFirst(trimmed: seq<Nonce>, edges: seq<Edge>, cycle: seq<Edge>, picked: seq<Nonce>)
    requires |trimmed| == |edges| && |picked| <= |cycle|
  {
    forall k :: 0 <= k < |picked| ==> cycle[k] in edges && picked[k] == trimmed[FirstIndex(edges, cycle[k])]
  }

  /** Replace every cycle edge by an unused input nonce with that edge, first match first. */
  method MapBack(edge: Nonce -> Edge, trimmed: seq<Nonce>, edges: seq<Edge>, cycle: seq<Edge>)
    returns (candidate: Option<seq<Nonce>>)
    requires edges == EdgesAt(edge, trimmed)
    ensures candidate.Some? ==>
      && |candidate.value| == |cycle|
      && (forall k :: 0 <= k < |cycle| ==> candidate.value[k] in trimmed && edge(candidate.value[k]) == cycle[k])
    ensures Distinct(cycle) && ToSet(cycle) <= ToSet(edges) ==>
      candidate.Some? && PickedFirst(trimmed, edges, cycle, candidate.value)
  {
    var used := seq(|edges|, _ => false);
    var picked: seq<Nonce> := [];
    ghost var simple := Distinct(cycle) && ToSet(cycle) <= ToSet(edges);
    var i := 0;
    while i < |cycle|
      invariant 0 <= i <= |cycle| && |picked| == i && |used| == |edges|
      invariant forall k :: 0 <= k < i ==> picked[k] in trimmed && edge(picked[k]) == cycle[k]
      invariant forall j :: 0 <= j < |used| && used[j] ==> edges[j] in cycle[..i]
      invariant simple ==> PickedFirst(trimmed, edges, cycle, picked)
    {
      if simple {
        assert cycle[i] in ToSet(cycle);
        assert cycle[i] !in cycle[..i];
      }
      var index := FindUnused(edges, used, cycle[i]);
      if index == |edges| {
        return None;
      }
      assert cycle[..i + 1] == cycle[..i] + [cycle[i]];
      used := used[index := true];
      picked := picked + [trimmed[index]];
      i := i + 1;
    }
    candidate := Some(picked);
  }

  /** No edge occurs twice in a simple cycle of three or more edges. */
  lemma CycleMembersDistinct(c: seq<Edge>)
    requires FormsOneCycle(c) && |c| >= 3
    ensures Distinct(c)
  {
    var ns :| CycleNodes(ns) && multiset(CycleEdges(ns)) == multiset(c);
    var es := CycleEdges(ns);
    var perm := Rearrange(c, es);
    forall i, j | 0 <= i < j < |c|
      ensures c[i] != c[j]
    {
      CycleEdgesDiffer(ns, perm[i], perm[j]);
    }
  }

  lemma CycleEdgesDiffer(ns: seq<Node>, a: nat, b: nat)
    requires CycleNodes(ns) && |ns| >= 3 && a < |ns| && b < |ns| && a != b
    ensures CycleEdges(ns)[a] != CycleEdges(ns)[b]
  {
    var n := |ns|;
    var a', b' := Next(n, a), Next(n, b);
    assert Opposite(ns[a], ns[a']) && Opposite(ns[b], ns[b']);
    if Joining(ns[a], ns[a']) == Joining(ns[b], ns[b']) {
      // equal edges have the same two ends, so a and b would follow each other
      assert false;
    }
  }

  lemma ClosedWalkMembers(es: set<Edge>, c: seq<Edge>)
    requires ClosedWalk(es, c)
    ensures ToSet(c) <= es
  {
    var ns: seq<Node> :|
      && |ns| == |c| && IsWalk(es, ns) && Adj(es, ns[|ns| - 1], ns[0])
      && multiset(c) == multiset(Trail(ns)) + multiset{Joining(ns[|ns| - 1], ns[0])};
    WalkTrail(es, ns, |ns| - 1);
    forall x | x in c
      ensures x in es
    {
      assert x in multiset(c);
      if x in Trail(ns) {
        assert x in ToSet(Trail(ns));
      }
    }
  }

  /** Ordering the nonces of a cycle gives a strictly ascending list with the same edges. */
  lemma SortedCandidate(edge: Nonce -> Edge, candidate: seq<Nonce>, c: seq<Edge>)
    requires |candidate| == |c| && forall k :: 0 <= k < |c| ==> edge(candidate[k]) == c[k]
    requires Distinct(c)
    ensures var s := Sorted(candidate);
      && |s| == |candidate| && Ascending(s)
      && multiset(EdgesAt(edge, s)) == multiset(c)
      && (AllInRange(s) <==> AllInRange(candidate))
  {
    var s := Sorted(candidate);
    SortedKeeps(candidate);
    var perm := Rearrange(s, candidate);
    forall i, j | 0 <= i < j < |s|
      ensures s[i] < s[j]
    {
      assert s[i] == candidate[perm[i]] && s[j] == candidate[perm[j]];
      assert c[perm[i]] != c[perm[j]];
    }
    PermutedMultiset(c, perm, EdgesAt(edge, s));
    if AllInRange(s) {
      forall k | 0 <= k < |candidate|
        ensures candidate[k] <= EDGE_MASK
      {
        assert candidate[k] in multiset(s);
      }
    }
  }

  lemma SameMembersSameCycle(a: seq<Edge>, b: seq<Edge>)
    requires multiset(a) == multiset(b) && FormsOneCycle(b)
    ensures FormsOneCycle(a)
  {
    var ns :| CycleNodes(ns) && multiset(CycleEdges(ns)) == multiset(b);
  }

  /** The input nonces that stand for the edges of `c`, first occurrences first, are in range. */
  ghost predicate ReadableFrom(trimmed: seq<Nonce>, edges: seq<Edge>, c: seq<Edge>)
    requires |trimmed| == |edges|
  {
    forall k :: 0 <= k < |c| ==> c[k] in edges && trimmed[FirstIndex(edges, c[k])] <= EDGE_MASK
  }

  lemma InRangeReadable(trimmed: seq<Nonce>, edges: seq<Edge>, c: seq<Edge>)
    requires |trimmed| == |edges| && ToSet(c) <= ToSet(edges) && AllInRange(trimmed)
    ensures ReadableFrom(trimmed, edges, c)
  {
    forall k | 0 <= k < |c|
      ensures c[k] in edges && trimmed[FirstIndex(edges, c[k])] <= EDGE_MASK
    {
      assert c[k] in ToSet(c);
    }
  }

  /** For a simple cycle the mapped-back nonces are in range exactly when the first occurrences are. */
  lemma CandidateRange(trimmed: seq<Nonce>, edges: seq<Edge>, c: seq<Edge>, candidate: seq<Nonce>)
    requires |trimmed| == |edges| && |candidate| == |c|
    requires forall k :: 0 <= k < |c| ==> c[k] in edges && candidate[k] == trimmed[FirstIndex(edges, c[k])]
    ensures AllInRange(candidate) <==> ReadableFrom(trimmed, edges, c)
  {
    if ReadableFrom(trimmed, edges, c) {
      forall k | 0 <= k < |candidate|
        ensures candidate[k] <= EDGE_MASK
      {
        assert c[k] in edges;
      }
    }
    if AllInRange(candidate) {
      forall k | 0 <= k < |c|
        ensures c[k] in edges && trimmed[FirstIndex(edges, c[k])] <= EDGE_MASK
      {
        assert candidate[k] <= EDGE_MASK;
      }
    }
  }

  /** Map the cycle back, sort, check. */
  method ProofOfCycle(edge: Nonce -> Edge, trimmed: seq<Nonce>, edges: seq<Edge>, cycle: seq<Edge>)
    returns (proof: Option<seq<Nonce>>)
    requires edges == EdgesAt(edge, trimmed) && |cycle| >= 3 && ToSet(cycle) <= ToSet(edges)
    ensures proof.Some? ==>
      |proof.value| == |cycle| && ValidProof(edge, proof.value) && ToSet(proof.value) <= ToSet(trimmed)
    ensures FormsOneCycle(cycle) ==>
      && (proof.Some? <==> ReadableFrom(trimmed, edges, cycle))
      && (proof.Some? ==> multiset(EdgesAt(edge, proof.value)) == multiset(cycle))
  {
    var candidate := MapBack(edge, trimmed, edges, cycle);
    if FormsOneCycle(cycle) {
      CycleMembersDistinct(cycle);
    }
    if candidate.None? {
      return None;
    }
    var sorted := Sorted(candidate.value);
    SortedFrom(candidate.value, trimmed);
    if FormsOneCycle(cycle) {
      SortedCandidate(edge, candidate.value, cycle);
      SameMembersSameCycle(EdgesAt(edge, sorted), cycle);
      CandidateRange(trimmed, edges, cycle, candidate.value);
    }
    var ok := Verify(edge, sorted);
    proof := if ok then Some(sorted) else None;
  }

  lemma SortedFrom(candidate: seq<Nonce>, trimmed: seq<Nonce>)
    requires forall k :: 0 <= k < |candidate| ==> candidate[k] in trimmed
    ensures |Sorted(candidate)| == |candidate| && ToSet(Sorted(candidate)) <= ToSet(trimmed)
  {
    var s := Sorted(candidate);
    SortedKeeps(candidate);
    assert |multiset(s)| == |s| && |multiset(candidate)| == |candidate|;
    forall x | x in s
      ensures x in trimmed
    {
      assert x in multiset(candidate);
    }
  }

  /** Search, map back, sort, check.  Whatever comes back is a valid proof made of input nonces.
      While no path reaches the cap, a proof comes back exactly when the graph search finds a
      cycle whose input nonces are in range: the last check then never refuses. */
  method FindCycle(edge: Nonce -> Edge, trimmed: seq<Nonce>, proofSize: nat, cap: nat)
    returns (proof: Option<seq<Nonce>>)
    requires proofSize >= 3
    ensures proof.Some? ==>
      |proof.value| == proofSize && ValidProof(edge, proof.value) && ToSet(proof.value) <= ToSet(trimmed)
    ensures var edges := EdgesAt(edge, trimmed);
      var c := FirstCycle(edges, proofSize, cap);
      |trimmed| <= MAX_EDGES && Uncapped(edges, cap) ==>
        && (proof.Some? <==> c.Some? && ReadableFrom(trimmed, edges, c.value))
        && (proof.Some? ==> multiset(EdgesAt(edge, proof.value)) == multiset(c.value))
    ensures |trimmed| <= MAX_EDGES && Uncapped(EdgesAt(edge, trimmed), cap) && AllInRange(trimmed) ==>
      (proof.Some? <==> exists i :: 0 <= i < |trimmed| && Closes(EdgesAt(edge, trimmed), i, proofSize))
  {
    if |trimmed| > MAX_EDGES {
      return None;
    }
    var edges := seq(|trimmed|, i requires 0 <= i < |trimmed| => edge(trimmed[i]));
    assert edges == EdgesAt(edge, trimmed);
    var cycle := FindCycleGraph(edges, proofSize, cap);
    if cycle.None? {
      return None;
    }
    ClosedWalkMembers(ToSet(edges), cycle.value);
    proof := ProofOfCycle(edge, trimmed, edges, cycle.value);
    if AllInRange(trimmed) {
      InRangeReadable(trimmed, edges, cycle.value);
    }
  }
}
