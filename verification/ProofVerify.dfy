/** The Cortex proof check: strictly ascending nonces in range whose edges form exactly one
    simple cycle.  The check walks from endpoint to endpoint without any bound on its loop.
 */
module ProofVerify {
  import opened BipartiteGraph
  import opened EndpointWalk
  import opened Sequences
  import opened Words

  type Nonce = x: int | 0 <= x < 0x1_0000_0000

  /** 2^30 - 1. */
  const EDGE_MASK: Nonce := 0x3FFF_FFFF

  ghost predicate Ascending(nonces: seq<Nonce>) {
    forall i, j :: 0 <= i < j < |nonces| ==> nonces[i] < nonces[j]
  }

  ghost predicate AllInRange(nonces: seq<Nonce>) {
    forall i :: 0 <= i < |nonces| ==> nonces[i] <= EDGE_MASK
  }

  ghost function EdgesAt(edge: Nonce -> Edge, nonces: seq<Nonce>): (es: seq<Edge>)
    ensures |es| == |nonces| && forall i :: 0 <= i < |nonces| ==> es[i] == edge(nonces[i])
  {
    seq(|nonces|, i requires 0 <= i < |nonces| => edge(nonces[i]))
  }

  /** What a proof has to be. */
  ghost predicate ValidProof(edge: Nonce -> Edge, nonces: seq<Nonce>) {
    Ascending(nonces) && AllInRange(nonces) && FormsOneCycle(EdgesAt(edge, nonces))
  }

  // ---------- exclusive-or sums ----------

  /** Fold an operation over one number of each edge. */
  function Fold(op: (nat, nat) -> nat, f: Edge -> nat, es: seq<Edge>): nat {
    if |es| == 0 then 0 else op(Fold(op, f, es[..|es| - 1]), f(es[|es| - 1]))
  }

  ghost predicate OrderFree(op: (nat, nat) -> nat) {
    forall a, b, c :: op(op(a, b), c) == op(op(a, c), b)
  }

  lemma {:induction false} FoldRemove(op: (nat, nat) -> nat, f: Edge -> nat, es: seq<Edge>, j: nat)
    requires OrderFree(op) && j < |es|
    ensures Fold(op, f, es) == op(Fold(op, f, RemoveAt(es, j)), f(es[j]))
    decreases |es|
  {
    var n := |es| - 1;
    var rest := RemoveAt(es, j);
    if j == n {
      assert rest == es[..n];
    } else {
      FoldRemove(op, f, es[..n], j);
      assert rest[..n - 1] == RemoveAt(es[..n], j);
      assert rest[n - 1] == es[n];
    }
  }

  /** The result does not depend on the order of the edges. */
  lemma {:induction false} FoldPermute(op: (nat, nat) -> nat, f: Edge -> nat, a: seq<Edge>, b: seq<Edge>)
    requires OrderFree(op) && multiset(a) == multiset(b)
    ensures Fold(op, f, a) == Fold(op, f, b)
    decreases |a|
  {
    assert |multiset(a)| == |a| && |multiset(b)| == |b|;
    if |a| > 0 {
      var n := |a| - 1;
      assert a[n] in multiset(b);
      var j: nat :| j < |b| && b[j] == a[n];
      RemoveAtMultiset(b, j);
      assert a == a[..n] + [a[n]];
      CancelMember(multiset(a[..n]), multiset(RemoveAt(b, j)), a[n]);
      FoldPermute(op, f, a[..n], RemoveAt(b, j));
      FoldRemove(op, f, b, j);
    }
  }

  lemma XorOrderFree()
    ensures OrderFree(Xor)
  {
    forall a, b, c
      ensures Xor(Xor(a, b), c) == Xor(Xor(a, c), b)
    {
      XorAssoc(a, b, c);
      XorAssoc(a, c, b);
      XorComm(b, c);
    }
  }

  function UOf(e: Edge): nat { e.u }

  function VOf(e: Edge): nat { e.v }

  function XorU(es: seq<Edge>): nat { Fold(Xor, UOf, es) }

  function XorV(es: seq<Edge>): nat { Fold(Xor, VOf, es) }

  function IdIfU(x: Node): nat { if x.U? then x.id else 0 }

  function IdIfV(x: Node): nat { if x.V? then x.id else 0 }

  lemma EdgeAsXor(x: Node, y: Node)
    requires Opposite(x, y)
    ensures Joining(x, y).u == Xor(IdIfU(x), IdIfU(y))
    ensures Joining(x, y).v == Xor(IdIfV(x), IdIfV(y))
  {
  }

  lemma XorChain(a: nat, b: nat, c: nat)
    ensures Xor(Xor(a, b), Xor(b, c)) == Xor(a, c)
  {
    XorAssoc(a, b, Xor(b, c));
    XorAssoc(b, b, c);
    XorSelf(b);
  }

  lemma XorAppend(es: seq<Edge>, n: nat)
    requires n < |es|
    ensures XorU(es[..n + 1]) == Xor(XorU(es[..n]), es[n].u)
    ensures XorV(es[..n + 1]) == Xor(XorV(es[..n]), es[n].v)
  {
    assert es[..n + 1][..n] == es[..n];
  }

  lemma {:induction false} XorCyclePrefix(ns: seq<Node>, n: nat)
    requires CycleNodes(ns) && n < |ns|
    ensures XorU(CycleEdges(ns)[..n]) == Xor(IdIfU(ns[0]), IdIfU(ns[n]))
    ensures XorV(CycleEdges(ns)[..n]) == Xor(IdIfV(ns[0]), IdIfV(ns[n]))
    decreases n
  {
    if n > 0 {
      var es := CycleEdges(ns);
      var m := n - 1;
      XorCyclePrefix(ns, m);
      XorAppend(es, m);
      EdgeAsXor(ns[m], ns[n]);
      XorChain(IdIfU(ns[0]), IdIfU(ns[m]), IdIfU(ns[n]));
      XorChain(IdIfV(ns[0]), IdIfV(ns[m]), IdIfV(ns[n]));
    } else {
      XorSelf(IdIfU(ns[0]));
      XorSelf(IdIfV(ns[0]));
    }
  }

  lemma XorAround(ns: seq<Node>)
    requires CycleNodes(ns)
    ensures XorU(CycleEdges(ns)) == 0 && XorV(CycleEdges(ns)) == 0
  {
    var n, c := |ns| - 1, CycleEdges(ns);
    var x, y := ns[0], ns[n];
    XorCyclePrefix(ns, n);
    XorAppend(c, n);
    assert c[..n + 1] == c;
    EdgeAsXor(y, x);
    assert c[n].u == Xor(IdIfU(y), IdIfU(x)) && c[n].v == Xor(IdIfV(y), IdIfV(x));
    XorChain(IdIfU(x), IdIfU(y), IdIfU(x));
    XorChain(IdIfV(x), IdIfV(y), IdIfV(x));
    XorSelf(IdIfU(x));
    XorSelf(IdIfV(x));
  }

  /** The exclusive-or pre-check never rejects a simple cycle. */
  lemma CycleXorsVanish(es: seq<Edge>)
    requires FormsOneCycle(es)
    ensures XorU(es) == 0 && XorV(es) == 0
  {
    var ns :| CycleNodes(ns) && multiset(CycleEdges(ns)) == multiset(es);
    XorOrderFree();
    FoldPermute(Xor, UOf, CycleEdges(ns), es);
    FoldPermute(Xor, VOf, CycleEdges(ns), es);
    XorAround(ns);
  }

  // ---------- the check ----------

  lemma ModOnce(a: nat, n: nat)
    requires 0 < n && a < 2 * n
    ensures a % n == if a < n then a else a - n
  {
    if a < n {
      assert a / n == 0;
    } else {
      assert a == n + (a - n);
      assert (a - n) / n == 0;
      assert a % n == (a - n) % n;
    }
  }

  /** Going up from `current` in steps of two, and round the end of the array if `wrapped`,
      index k comes before i. */
  predicate Passed(current: nat, i: nat, wrapped: bool, k: nat) {
    k % 2 == current % 2 && if wrapped then k > current || k < i else current < k < i
  }

  /** The next endpoint on the same side, cyclically. */
  lemma StepRound(i: nat, n: nat)
    requires n % 2 == 0 && i < n
    ensures var j := (i + 2) % n;
      j < n && j % 2 == i % 2 && j == if i + 2 < n then i + 2 else i % 2
  {
    ModOnce(i + 2, n);
    var h := n / 2;
    assert n == 2 * h;
  }

  /** What is known when endpoint i is about to be looked at. */
  ghost predicate ScanState(ep: seq<Id>, current: nat, i: nat, wrapped: bool, match_: nat) {
    && |ep| % 2 == 0 && current < |ep| && i < |ep| && i % 2 == current % 2 && match_ < |ep|
    && (if wrapped then i <= current else current < i)
    && (match_ == current || (Passed(current, i, wrapped, match_) && ep[match_] == ep[current]))
    && (forall k: nat :: k < |ep| && Passed(current, i, wrapped, k) && ep[k] == ep[current] ==> k == match_)
  }

  lemma ScanStart(ep: seq<Id>, current: nat)
    requires |ep| % 2 == 0 && current < |ep|
    ensures ScanState(ep, current, (current + 2) % |ep|, current + 2 >= |ep|, current)
  {
    StepRound(current, |ep|);
  }

  lemma ScanStep(ep: seq<Id>, current: nat, i: nat, wrapped: bool, match_: nat, found: nat)
    requires ScanState(ep, current, i, wrapped, match_) && i != current
    requires found == if ep[i] == ep[current] then i else match_
    requires ep[i] == ep[current] ==> match_ == current
    ensures ScanState(ep, current, (i + 2) % |ep|, wrapped || i + 2 >= |ep|, found)
    ensures (!wrapped && i + 2 >= |ep|) || (i + 2) % |ep| == i + 2
  {
    StepRound(i, |ep|);
    var j, w := (i + 2) % |ep|, wrapped || i + 2 >= |ep|;
    forall k: nat | k < |ep| && Passed(current, j, w, k)
      ensures k == i || Passed(current, i, wrapped, k)
    {
    }
  }

  /** Look through the endpoints of the same side, once round from `current`.  Gives the one
      equal endpoint, or `current` when there is none; two equal ones are rejected. */
  method FindMate(ep: array<Id>, current: nat) returns (branched: bool, match_: nat)
    requires ep.Length % 2 == 0 && current < ep.Length
    ensures !branched && match_ != current ==> Mate(ep[..], current, match_)
    ensures branched || match_ == current ==> forall m :: !Mate(ep[..], current, m)
  {
    var n := ep.Length;
    match_ := current;
    branched := false;
    ScanStart(ep[..], current);
    var i: nat := (current + 2) % n;
    ghost var wrapped := current + 2 >= n;
    while i != current
      invariant ScanState(ep[..], current, i, wrapped, match_)
      decreases !wrapped, n - i
    {
      var found := match_;
      if ep[i] == ep[current] {
        if match_ != current {
          BranchHasNoMate(ep[..], current, match_, i);
          return true, match_;
        }
        found := i;
      }
      ScanStep(ep[..], current, i, wrapped, match_, found);
      i, wrapped, match_ := (i + 2) % n, wrapped || i + 2 >= n, found;
    }
    SideMate(ep[..], current, match_);
  }

  /** What the scan found is the mate, or shows that there is none. */
  lemma SideMate(ep: seq<Id>, c: nat, m: nat)
    requires c < |ep| && m < |ep| && m % 2 == c % 2 && ep[m] == ep[c]
    requires forall k: nat :: k < |ep| && k % 2 == c % 2 && k != c && ep[k] == ep[c] ==> k == m
    ensures m != c ==> Mate(ep, c, m)
    ensures m == c ==> forall k :: !Mate(ep, c, k)
  {
  }

  lemma BranchHasNoMate(ep: seq<Id>, c: nat, a: nat, b: nat)
    requires c < |ep| && a < |ep| && b < |ep| && a != c && b != c && a != b
    requires NodeAt(ep, a) == NodeAt(ep, c) == NodeAt(ep, b)
    ensures forall m :: !Mate(ep, c, m)
  {
  }

  /** The endpoints of the first n edges are in place. */
  ghost predicate Loaded(ep: seq<Id>, es: seq<Edge>, n: nat)
    requires n <= |es| && |ep| == 2 * |es|
  {
    forall k :: 0 <= k < n ==> ep[2 * k] == es[k].u && ep[2 * k + 1] == es[k].v
  }

  lemma LoadStep(ep: seq<Id>, ep': seq<Id>, es: seq<Edge>, n: nat)
    requires n < |es| && |ep| == |ep'| == 2 * |es| && Loaded(ep, es, n)
    requires forall i :: 0 <= i < 2 * n ==> ep'[i] == ep[i]
    requires ep'[2 * n] == es[n].u && ep'[2 * n + 1] == es[n].v
    ensures Loaded(ep', es, n + 1)
  {
  }

  /** First pass: order and range of the nonces, their endpoints, and the exclusive-or sums. */
  method LoadEndpoints(edge: Nonce -> Edge, edges: seq<Nonce>)
    returns (ordered: bool, endpoints: array<Id>, xorU: nat, xorV: nat)
    ensures ordered <==> Ascending(edges) && AllInRange(edges)
    ensures ordered ==> Endpoints(endpoints[..], EdgesAt(edge, edges))
    ensures ordered ==> xorU == XorU(EdgesAt(edge, edges)) && xorV == XorV(EdgesAt(edge, edges))
    ensures fresh(endpoints)
  {
    endpoints := new Id[2 * |edges|];
    xorU, xorV := 0, 0;
    ghost var es := EdgesAt(edge, edges);
    var i := 0;
    while i < |edges|
      invariant 0 <= i <= |edges| && endpoints.Length == 2 * |edges|
      invariant Loaded(endpoints[..], es, i)
      invariant xorU == XorU(es[..i]) && xorV == XorV(es[..i])
      invariant Ascending(edges[..i]) && AllInRange(edges[..i])
    {
      if edges[i] > EDGE_MASK || (i > 0 && edges[i] <= edges[i - 1]) {
        return false, endpoints, xorU, xorV;
      }
      var pair := edge(edges[i]);
      ghost var before: seq<Id> := endpoints[..];
      endpoints[2 * i] := pair.u;
      endpoints[2 * i + 1] := pair.v;
      LoadStep(before, endpoints[..], es, i);
      XorAppend(es, i);
      xorU, xorV := Xor(xorU, pair.u), Xor(xorV, pair.v);
      AscendingAppend(edges, i);
      i := i + 1;
    }
    assert es[..i] == es && edges[..i] == edges;
    ordered := true;
  }

  /** The whole check.  It accepts exactly the valid proofs. */
  method Verify(edge: Nonce -> Edge, edges: seq<Nonce>) returns (ok: bool)
    requires |edges| > 0
    ensures ok <==> ValidProof(edge, edges)
  {
    var ordered, endpoints, xorU, xorV := LoadEndpoints(edge, edges);
    if !ordered {
      return false;
    }
    ghost var es := EdgesAt(edge, edges);
    if xorU != 0 || xorV != 0 {
      if FormsOneCycle(es) {
        CycleXorsVanish(es);
      }
      return false;
    }
    ok := WalkRound(endpoints, es);
  }

  lemma AscendingAppend(nonces: seq<Nonce>, i: nat)
    requires i < |nonces| && Ascending(nonces[..i]) && AllInRange(nonces[..i])
    requires nonces[i] <= EDGE_MASK && (i > 0 ==> nonces[i] > nonces[i - 1])
    ensures Ascending(nonces[..i + 1]) && AllInRange(nonces[..i + 1])
  {
    var s := nonces[..i + 1];
    assert forall k :: 0 <= k < i ==> s[k] == nonces[..i][k];
  }

  /** The walk of the check: it comes back to endpoint 0 after as many steps as there are edges
      exactly when the edges form one simple cycle. */
  method WalkRound(endpoints: array<Id>, ghost es: seq<Edge>) returns (ok: bool)
    requires Endpoints(endpoints[..], es) && |es| > 0
    ensures ok <==> FormsOneCycle(es)
  {
    var length, current := 0, 0;
    ghost var ep := endpoints[..];
    ghost var tr: seq<nat> := [0];
    while true
      invariant |tr| == length + 1 && tr[length] == current < |ep| && ep == endpoints[..]
      invariant Visits(ep, tr) && forall k :: 1 <= k < |tr| ==> tr[k] != 0
      decreases |ep| - length
    {
      OpenWalkDistinct(ep, tr);
      var branched, match_ := FindMate(endpoints, current);
      if branched || match_ == current {
        if FormsOneCycle(es) {
          CycleHasMates(ep, es, current);
        }
        return false;
      }
      current := Flip(match_);
      length := length + 1;
      if current == 0 {
        break;
      }
      tr := tr + [current];
    }
    assert Closed(ep, tr);
    if FormsOneCycle(es) {
      ClosedWalkIsFull(ep, es, tr);
    }
    ok := length == endpoints.Length / 2;
    if ok {
      FullWalkIsCycle(ep, es, tr);
    }
  }
}
