/** The dense form of the cycle search: endpoints are interned as consecutive numbers and the
    forest is an array of parent numbers that is rewritten in place.
 */
module C29Cycle {
  import opened BipartiteGraph
  import opened ParentForest
  import opened CycleRun
  import opened Sequences

  /** The array entry of a node without a parent. */
  const NO_PARENT: nat := 0xFFFF_FFFF

  const PATH_CAP: nat := 8192

  // ---------- what the array stands for ----------

  /** `parent` stores the links `p`; number i stands for node names[i]. */
  ghost predicate Stores(parent: seq<nat>, names: seq<Node>, p: Links) {
    && |parent| == |names| <= NO_PARENT
    && Distinct(names)
    && (forall i :: 0 <= i < |parent| ==> parent[i] == NO_PARENT || parent[i] < |names|)
    && (forall i :: 0 <= i < |parent| ==> (names[i] in p <==> parent[i] != NO_PARENT))
    && (forall i :: 0 <= i < |parent| && parent[i] != NO_PARENT ==> p[names[i]] == names[parent[i]])
    && (forall x :: x in p ==> x in names)
  }

  predicate InRange(path: seq<nat>, n: nat) {
    forall i :: 0 <= i < |path| ==> path[i] < n
  }

  /** The nodes that a sequence of numbers stands for. */
  ghost function Named(names: seq<Node>, path: seq<nat>): (s: seq<Node>)
    requires InRange(path, |names|)
    ensures |s| == |path| && forall i :: 0 <= i < |path| ==> s[i] == names[path[i]]
  {
    seq(|path|, i requires 0 <= i < |path| => names[path[i]])
  }

  lemma StoresUpdate(parent: seq<nat>, names: seq<Node>, p: Links, i: nat, j: nat)
    requires Stores(parent, names, p) && i < |names| && j < |names|
    ensures Stores(parent[i := j], names, p[names[i] := names[j]])
  {
  }

  lemma StoresErase(parent: seq<nat>, names: seq<Node>, p: Links, i: nat)
    requires Stores(parent, names, p) && i < |names|
    ensures Stores(parent[i := NO_PARENT], names, p - {names[i]})
  {
  }

  // ---------- paths ----------

  method CreatePath(parent: array<nat>, start: nat, cap: nat, ghost names: seq<Node>, ghost p: Links)
    returns (path: seq<nat>)
    requires Stores(parent[..], names, p) && start < parent.Length
    ensures |path| > 0 && path[0] == start && InRange(path, |names|)
    ensures Named(names, path) == PathOf(p, names[start], cap)
  {
    path := [start];
    assert Named(names, path) == [names[start]];
    while |path| < cap
      invariant |path| > 0 && path[0] == start && InRange(path, |names|)
      invariant PathFrom(p, Named(names, path), cap) == PathOf(p, names[start], cap)
    {
      var next := parent[path[|path| - 1]];
      assert parent[..][path[|path| - 1]] == next;
      if next == NO_PARENT {
        break;
      }
      assert Named(names, path + [next]) == Named(names, path) + [names[next]];
      path := path + [next];
    }
  }

  method ReversePath(parent: array<nat>, path: seq<nat>, ghost names: seq<Node>, ghost p: Links)
    requires Stores(parent[..], names, p) && |path| > 0 && InRange(path, |names|)
    modifies parent
    ensures Stores(parent[..], names, TurnRound(p, Named(names, path)))
  {
    var i := |path| - 2;
    ghost var q := p;
    assert path[..i + 2] == path;
    while i >= 0
      invariant -1 <= i <= |path| - 2
      invariant InRange(path[..i + 2], |names|)
      invariant Stores(parent[..], names, q)
      invariant TurnRound(q, Named(names, path[..i + 2])) == TurnRound(p, Named(names, path))
    {
      var lower, upper := path[i], path[i + 1];
      ghost var before := parent[..];
      StoresErase(before, names, q, lower);
      parent[lower] := NO_PARENT;
      assert parent[..] == before[lower := NO_PARENT];
      StoresUpdate(parent[..], names, q - {names[lower]}, upper, lower);
      ghost var between := parent[..];
      parent[upper] := lower;
      assert parent[..] == between[upper := lower];
      ghost var t := Named(names, path[..i + 2]);
      assert t[..i + 1] == Named(names, path[..i + 1]);
      q := (q - {names[lower]})[names[upper] := names[lower]];
      i := i - 1;
    }
    assert |Named(names, path[..i + 2])| == 1;
  }

  // ---------- joining two paths ----------

  /** Numbers at even positions of `path` stand for nodes of the starting side. */
  ghost predicate Alternates(names: seq<Node>, path: seq<nat>, startsInFirst: bool)
    requires InRange(path, |names|)
  {
    forall i :: 0 <= i < |path| ==> names[path[i]].U? == (if i % 2 == 0 then startsInFirst else !startsInFirst)
  }

  lemma {:induction false} ClimbAlternates(names: seq<Node>, path: seq<nat>, p: Links, n: nat)
    requires InRange(path, |names|) && 0 < n <= |path|
    requires Bipartite(p) && Climb(p, Named(names, path))
    ensures Alternates(names, path[..n], names[path[0]].U?)
    decreases n
  {
    if n > 1 {
      ClimbAlternates(names, path, p, n - 1);
      var s := Named(names, path);
      assert Under(p, s[n - 2], s[n - 1]);
      assert path[..n - 1] == path[..n][..n - 1];
      assert path[..n - 1][n - 2] == path[n - 2];
    }
  }

  /** The longest common suffix starts at i in a and at j in b. */
  predicate SuffixFrom(a: seq<nat>, b: seq<nat>, i: int, j: int) {
    && 0 <= i < |a| && 0 <= j < |b|
    && a[i..] == b[j..]
    && (i == 0 || j == 0 || a[i - 1] != b[j - 1])
  }

  /** Match the two paths from their far ends; the last match is the join. */
  method SuffixJoin(a: seq<nat>, b: seq<nat>) returns (joinFirst: int, joinSecond: int)
    ensures joinFirst == -1 ==> |a| == 0 || |b| == 0 || a[|a| - 1] != b[|b| - 1]
    ensures joinFirst != -1 ==> SuffixFrom(a, b, joinFirst, joinSecond)
  {
    joinFirst, joinSecond := -1, -1;
    var first, second := |a| - 1, |b| - 1;
    while first >= 0 && second >= 0 && a[first] == b[second]
      invariant -1 <= first < |a| && -1 <= second < |b|
      invariant a[first + 1..] == b[second + 1..]
      invariant joinFirst == -1 ==> first == |a| - 1 && second == |b| - 1
      invariant joinFirst != -1 ==> joinFirst == first + 1 < |a| && joinSecond == second + 1 < |b|
    {
      joinFirst, joinSecond := first, second;
      assert a[first..] == [a[first]] + a[first + 1..];
      assert b[second..] == [b[second]] + b[second + 1..];
      first, second := first - 1, second - 1;
    }
  }

  /** On root paths the last match from the far ends is the first match from the near ends. */
  lemma SuffixIsMeet(p: Links, s: seq<Node>, x: Node, t: seq<Node>, y: Node, i: nat, j: nat)
    requires RootPath(p, s, x) && RootPath(p, t, y)
    requires i < |s| && j < |t| && s[i..] == t[j..]
    requires i == 0 || j == 0 || s[i - 1] != t[j - 1]
    ensures Meet(s, t, i, j)
  {
    assert s[i] == s[i..][0] == t[j..][0] == t[j];
    RootPathsMerge(p, s, x, t, y, i, j);
    forall a, b | 0 <= a < i && 0 <= b < j
      ensures s[a] != t[b]
    {
      if s[a] == t[b] {
        RootPathsAgree(p, s, x, t, y, a, b, i - 1 - a);
        assert false;
      }
    }
    SharedIsMeet(p, s, x, t, y, i, j);
  }

  /** The join of capped paths: the first match, near ends first, on opposite position parity. */
  method FirstMatch(a: seq<nat>, b: seq<nat>) returns (joinFirst: int, joinSecond: int)
    ensures joinFirst == -1 ==>
      forall i, j :: 0 <= i < |a| && 0 <= j < |b| && i % 2 != j % 2 ==> a[i] != b[j]
    ensures joinFirst != -1 ==>
      && 0 <= joinFirst < |a| && 0 <= joinSecond < |b|
      && joinFirst % 2 != joinSecond % 2 && a[joinFirst] == b[joinSecond]
      && (forall i, j :: 0 <= i < joinFirst && 0 <= j < |b| && i % 2 != j % 2 ==> a[i] != b[j])
      && (forall j :: 0 <= j < joinSecond && joinFirst % 2 != j % 2 ==> a[joinFirst] != b[j])
  {
    joinFirst, joinSecond := -1, -1;
    var first := 0;
    while first < |a| && joinFirst < 0
      invariant 0 <= first <= |a| && -1 <= joinFirst
      invariant joinFirst == -1 ==>
        forall i, j :: 0 <= i < first && 0 <= j < |b| && i % 2 != j % 2 ==> a[i] != b[j]
      invariant joinFirst != -1 ==>
        && joinFirst == first - 1 && 0 <= joinSecond < |b|
        && joinFirst % 2 != joinSecond % 2 && a[joinFirst] == b[joinSecond]
        && (forall i, j :: 0 <= i < joinFirst && 0 <= j < |b| && i % 2 != j % 2 ==> a[i] != b[j])
        && (forall j :: 0 <= j < joinSecond && joinFirst % 2 != j % 2 ==> a[joinFirst] != b[j])
    {
      var second := 0;
      while second < |b|
        invariant 0 <= second <= |b| && joinFirst == -1
        invariant forall j :: 0 <= j < second && first % 2 != j % 2 ==> a[first] != b[j]
      {
        if first % 2 != second % 2 && a[first] == b[second] {
          joinFirst, joinSecond := first, second;
          break;
        }
        second := second + 1;
      }
      first := first + 1;
    }
  }

  lemma FirstMatchIsMeet(names: seq<Node>, a: seq<nat>, b: seq<nat>, joinFirst: int, joinSecond: int)
    requires Distinct(names) && InRange(a, |names|) && InRange(b, |names|)
    requires Alternates(names, a, true) && Alternates(names, b, false)
    requires joinFirst == -1 ==>
      forall i, j :: 0 <= i < |a| && 0 <= j < |b| && i % 2 != j % 2 ==> a[i] != b[j]
    requires joinFirst != -1 ==>
      && 0 <= joinFirst < |a| && 0 <= joinSecond < |b|
      && joinFirst % 2 != joinSecond % 2 && a[joinFirst] == b[joinSecond]
      && (forall i, j :: 0 <= i < joinFirst && 0 <= j < |b| && i % 2 != j % 2 ==> a[i] != b[j])
      && (forall j :: 0 <= j < joinSecond && joinFirst % 2 != j % 2 ==> a[joinFirst] != b[j])
    ensures joinFirst == -1 ==> !Meets(Named(names, a), Named(names, b))
    ensures joinFirst != -1 ==> Meet(Named(names, a), Named(names, b), joinFirst, joinSecond)
  {
    var s, t := Named(names, a), Named(names, b);
    // equal nodes sit at positions of opposite parity and have equal numbers
    forall i, j | 0 <= i < |a| && 0 <= j < |b| && s[i] == t[j]
      ensures i % 2 != j % 2 && a[i] == b[j]
    {
      assert names[a[i]] == names[b[j]];
    }
  }

  /** What the suffix loop returns says about root paths. */
  lemma SuffixJoins(a: seq<nat>, b: seq<nat>, joinFirst: int, joinSecond: int, names: seq<Node>, p: Links)
    requires Distinct(names) && InRange(a, |names|) && InRange(b, |names|) && |a| > 0 && |b| > 0
    requires RootPath(p, Named(names, a), names[a[0]]) && RootPath(p, Named(names, b), names[b[0]])
    requires joinFirst == -1 ==> a[|a| - 1] != b[|b| - 1]
    requires joinFirst != -1 ==> SuffixFrom(a, b, joinFirst, joinSecond)
    ensures joinFirst != -1 ==> Meet(Named(names, a), Named(names, b), joinFirst, joinSecond)
    ensures joinFirst == -1 ==> !Meets(Named(names, a), Named(names, b))
  {
    var s, t := Named(names, a), Named(names, b);
    if joinFirst == -1 {
      assert s[|s| - 1] != t[|t| - 1];
      MeetIffSameRoot(p, s, names[a[0]], t, names[b[0]]);
    } else {
      NamedSuffix(names, a, joinFirst);
      NamedSuffix(names, b, joinSecond);
      SuffixIsMeet(p, s, names[a[0]], t, names[b[0]], joinFirst, joinSecond);
    }
  }

  /** The join chosen by the search: suffix match below the cap, first match otherwise.
      Either way it is the first meeting point of the two paths. */
  method JoinPaths(a: seq<nat>, b: seq<nat>, cap: nat, ghost names: seq<Node>, ghost p: Links)
    returns (joinFirst: int, joinSecond: int)
    requires Distinct(names) && InRange(a, |names|) && InRange(b, |names|) && |a| > 0 && |b| > 0
    requires Bipartite(p) && names[a[0]].U? && names[b[0]].V?
    requires Named(names, a) == PathOf(p, names[a[0]], cap)
    requires Named(names, b) == PathOf(p, names[b[0]], cap)
    ensures joinFirst >= 0 ==> joinSecond >= 0 && Meet(Named(names, a), Named(names, b), joinFirst, joinSecond)
    ensures joinFirst < 0 ==> !Meets(Named(names, a), Named(names, b))
  {
    PathClimbs(p, names[a[0]], cap);
    PathClimbs(p, names[b[0]], cap);
    if |a| < cap && |b| < cap {
      joinFirst, joinSecond := SuffixJoin(a, b);
      SuffixJoins(a, b, joinFirst, joinSecond, names, p);
    } else {
      joinFirst, joinSecond := FirstMatch(a, b);
      ClimbAlternates(names, a, p, |a|);
      ClimbAlternates(names, b, p, |b|);
      assert a[..|a|] == a && b[..|b|] == b;
      FirstMatchIsMeet(names, a, b, joinFirst, joinSecond);
    }
  }

  lemma NamedSuffix(names: seq<Node>, path: seq<nat>, i: nat)
    requires InRange(path, |names|) && i <= |path|
    ensures InRange(path[i..], |names|) && Named(names, path)[i..] == Named(names, path[i..])
  {
    assert InRange(path[i..], |names|);
    forall k | 0 <= k < |path| - i
      ensures Named(names, path)[i..][k] == Named(names, path[i..])[k]
    {
      assert path[i..][k] == path[i + k];
    }
  }

  // ---------- emission ----------

  /** raw[i] is the endpoint number of node names[i]. */
  ghost predicate RawIds(raw: seq<Id>, names: seq<Node>) {
    |raw| == |names| && forall i :: 0 <= i < |raw| ==> raw[i] == names[i].id
  }

  method AppendPath(cycle: seq<Edge>, path: seq<nat>, count: nat, startsInFirst: bool, raw: seq<Id>,
                    ghost names: seq<Node>)
    returns (out: seq<Edge>)
    requires RawIds(raw, names) && InRange(path, |names|) && count < |path|
    requires Alternates(names, path, startsInFirst)
    ensures out == cycle + Along(Named(names, path), count)
  {
    out := cycle;
    var currentInFirst := startsInFirst;
    var i := 0;
    while i < count
      invariant 0 <= i <= count
      invariant currentInFirst == (if i % 2 == 0 then startsInFirst else !startsInFirst)
      invariant out == cycle + Along(Named(names, path), i)
    {
      var from, to := path[i], path[i + 1];
      ghost var s := Named(names, path);
      assert s[i] == names[from] && s[i + 1] == names[to];
      assert Along(s, i + 1) == Along(s, i) + [Joining(s[i], s[i + 1])];
      if currentInFirst {
        out := out + [Edge(raw[from], raw[to])];
      } else {
        out := out + [Edge(raw[to], raw[from])];
      }
      currentInFirst := !currentInFirst;
      i := i + 1;
    }
  }

  /** The edge just read, then the edges up the first path, then those up the second. */
  method CollectCycle(raw: seq<Id>, nodeFirst: nat, nodeSecond: nat, pathFirst: seq<nat>, pathSecond: seq<nat>,
                      joinFirst: nat, joinSecond: nat, ghost names: seq<Node>, ghost p: Links)
    returns (cycle: seq<Edge>)
    requires RawIds(raw, names) && Bipartite(p)
    requires InRange(pathFirst, |names|) && joinFirst < |pathFirst| && pathFirst[0] == nodeFirst
    requires InRange(pathSecond, |names|) && joinSecond < |pathSecond| && pathSecond[0] == nodeSecond
    requires names[nodeFirst].U? && Climb(p, Named(names, pathFirst))
    requires names[nodeSecond].V? && Climb(p, Named(names, pathSecond))
    ensures cycle == [Joining(names[nodeFirst], names[nodeSecond])]
                     + Along(Named(names, pathFirst), joinFirst) + Along(Named(names, pathSecond), joinSecond)
  {
    ClimbAlternates(names, pathFirst, p, |pathFirst|);
    ClimbAlternates(names, pathSecond, p, |pathSecond|);
    assert pathFirst[..|pathFirst|] == pathFirst && pathSecond[..|pathSecond|] == pathSecond;
    cycle := [Edge(raw[nodeFirst], raw[nodeSecond])];
    cycle := AppendPath(cycle, pathFirst, joinFirst, true, raw, names);
    cycle := AppendPath(cycle, pathSecond, joinSecond, false, raw, names);
  }

  /** One round of the search, for an edge whose ends have the given numbers. */
  method ProcessEdge(parent: array<nat>, raw: seq<Id>, nodeFirst: nat, nodeSecond: nat, target: nat, cap: nat,
                     ghost e: Edge, ghost names: seq<Node>, ghost p: Links)
    returns (emitted: seq<seq<Edge>>)
    requires Stores(parent[..], names, p) && RawIds(raw, names) && Bipartite(p)
    requires nodeFirst < |names| && names[nodeFirst] == U(e.u)
    requires nodeSecond < |names| && names[nodeSecond] == V(e.v)
    modifies parent
    ensures Stores(parent[..], names, Grow(p, e, cap))
    ensures emitted == Emit(p, e, target, cap)
  {
    KnownStored(parent[..], names, p, nodeFirst, nodeSecond);
    if parent[nodeFirst] == nodeSecond || parent[nodeSecond] == nodeFirst {
      return [];
    }
    var pathFirst := CreatePath(parent, nodeFirst, cap, names, p);
    var pathSecond := CreatePath(parent, nodeSecond, cap, names, p);
    ghost var s, t := Named(names, pathFirst), Named(names, pathSecond);
    PathClimbs(p, U(e.u), cap);
    PathClimbs(p, V(e.v), cap);
    var joinFirst, joinSecond := JoinPaths(pathFirst, pathSecond, cap, names, p);
    emitted := [];
    if joinFirst >= 0 {
      EmitAt(p, e, target, cap, joinFirst, joinSecond);
      assert Meets(s, t);
      if 1 + joinFirst + joinSecond == target {
        var cycle := CollectCycle(raw, nodeFirst, nodeSecond, pathFirst, pathSecond, joinFirst, joinSecond, names, p);
        emitted := [cycle];
      }
      return;
    }
    if |pathFirst| > |pathSecond| {
      ReversePath(parent, pathSecond, names, p);
      Link(parent, nodeSecond, nodeFirst, names, TurnRound(p, t));
    } else {
      ReversePath(parent, pathFirst, names, p);
      Link(parent, nodeFirst, nodeSecond, names, TurnRound(p, s));
    }
  }

  method Link(parent: array<nat>, child: nat, above: nat, ghost names: seq<Node>, ghost p: Links)
    requires Stores(parent[..], names, p) && child < |names| && above < |names|
    modifies parent
    ensures Stores(parent[..], names, p[names[child] := names[above]])
  {
    StoresUpdate(parent[..], names, p, child, above);
    ghost var before := parent[..];
    parent[child] := above;
    assert parent[..] == before[child := above];
  }

  lemma KnownStored(parent: seq<nat>, names: seq<Node>, p: Links, i: nat, j: nat)
    requires Stores(parent, names, p) && i < |names| && j < |names|
    ensures parent[i] == j <==> Under(p, names[i], names[j])
    ensures parent[j] == i <==> Under(p, names[j], names[i])
  {
  }

  // ---------- interning ----------

  datatype DenseEdge = DenseEdge(first: nat, second: nat)

  ghost predicate Naming(dictionary: map<Node, nat>, names: seq<Node>) {
    && (forall x :: x in dictionary ==> dictionary[x] < |names| && names[dictionary[x]] == x)
    && (forall i :: 0 <= i < |names| ==> names[i] in dictionary && dictionary[names[i]] == i)
  }

  method Intern(dictionary: map<Node, nat>, raw: seq<Id>, node: Node, ghost names: seq<Node>)
    returns (dictionary': map<Node, nat>, raw': seq<Id>, dense: nat, ghost names': seq<Node>)
    requires Naming(dictionary, names) && RawIds(raw, names)
    ensures Naming(dictionary', names') && RawIds(raw', names')
    ensures names <= names' && |names'| <= |names| + 1
    ensures dense < |names'| && names'[dense] == node
  {
    dictionary', raw', names' := dictionary, raw, names;
    if node in dictionary {
      dense := dictionary[node];
    } else {
      dense := |raw|;
      dictionary' := dictionary[node := dense];
      raw' := raw + [node.id];
      names' := names + [node];
    }
  }

  ghost predicate Dense(dense: seq<DenseEdge>, names: seq<Node>, edges: seq<Edge>) {
    && |dense| <= |edges|
    && forall i :: 0 <= i < |dense| ==>
         && dense[i].first < |names| && names[dense[i].first] == U(edges[i].u)
         && dense[i].second < |names| && names[dense[i].second] == V(edges[i].v)
  }

  method InternAll(edges: seq<Edge>) returns (dense: seq<DenseEdge>, raw: seq<Id>, ghost names: seq<Node>)
    ensures |dense| == |edges| && Dense(dense, names, edges)
    ensures RawIds(raw, names) && Distinct(names) && |names| <= 2 * |edges|
  {
    dense, raw, names := [], [], [];
    var dictionary: map<Node, nat> := map[];
    var k := 0;
    while k < |edges|
      invariant 0 <= k <= |edges| && |dense| == k
      invariant Naming(dictionary, names) && RawIds(raw, names) && |names| <= 2 * k
      invariant Dense(dense, names, edges)
    {
      var first, second;
      ghost var names0 := names;
      dictionary, raw, first, names := Intern(dictionary, raw, U(edges[k].u), names);
      dictionary, raw, second, names := Intern(dictionary, raw, V(edges[k].v), names);
      assert forall i :: 0 <= i < |names0| ==> names[i] == names0[i];
      dense := dense + [DenseEdge(first, second)];
      k := k + 1;
    }
  }

  // ---------- the search ----------

  /** The dense search computes the run of the reference model, path cap included. */
  method FindCycles(edges: seq<Edge>, target: nat, cap: nat) returns (solutions: seq<seq<Edge>>)
    requires 2 * |edges| <= NO_PARENT
    ensures solutions == Cycles(edges, target, cap)
    ensures forall c :: c in solutions ==> |c| == target && ClosedWalk(ToSet(edges), c)
    ensures Uncapped(edges, cap) ==> OneCycleEach(edges, target, solutions, Closing(edges, target))
  {
    var dense, raw;
    ghost var names;
    dense, raw, names := InternAll(edges);
    var parent := new nat[|raw|](_ => NO_PARENT);
    solutions := [];
    var k := 0;
    assert Stores(parent[..], names, LinksAfter(edges[..0], cap));
    while k < |dense|
      invariant 0 <= k <= |dense|
      invariant Stores(parent[..], names, LinksAfter(edges[..k], cap))
      invariant solutions == Cycles(edges[..k], target, cap)
    {
      LinksAreEdges(edges[..k], cap);
      var emitted := ProcessEdge(parent, raw, dense[k].first, dense[k].second, target, cap,
                                 edges[k], names, LinksAfter(edges[..k], cap));
      OneMoreEdge(edges, k, target, cap);
      solutions := solutions + emitted;
      k := k + 1;
    }
    assert edges[..k] == edges;
    RunMeaning(edges, target, cap);
  }

  lemma OneMoreEdge(edges: seq<Edge>, k: nat, target: nat, cap: nat)
    requires k < |edges|
    ensures LinksAfter(edges[..k + 1], cap) == Grow(LinksAfter(edges[..k], cap), edges[k], cap)
    ensures Cycles(edges[..k + 1], target, cap) ==
      Cycles(edges[..k], target, cap) + Emit(LinksAfter(edges[..k], cap), edges[k], target, cap)
  {
    assert edges[..k + 1][..k] == edges[..k];
  }

  lemma RunMeaning(edges: seq<Edge>, target: nat, cap: nat)
    ensures forall c :: c in Cycles(edges, target, cap) ==> |c| == target && ClosedWalk(ToSet(edges), c)
    ensures Uncapped(edges, cap) ==>
      OneCycleEach(edges, target, Cycles(edges, target, cap), Closing(edges, target))
  {
    forall i | 0 <= i < |Cycles(edges, target, cap)|
      ensures |Cycles(edges, target, cap)[i]| == target && ClosedWalk(ToSet(edges), Cycles(edges, target, cap)[i])
    {
      CyclesAreClosedWalks(edges, target, cap, i);
    }
    if Uncapped(edges, cap) {
      CyclesAreExactlyTheClosing(edges, target, cap);
    }
  }
}
