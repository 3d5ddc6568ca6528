/** Forests kept as parent links: root paths, the undirected graph they stand for, and what
    path reversal and linking do to them.
 */
module ParentForest {
  import opened BipartiteGraph
  import opened Sequences

  /** A node without a parent is absent from the map. */
  type Links = map<Node, Node>

  /** The parent of `x` is `y`. */
  predicate Under(p: Links, x: Node, y: Node) {
    x in p && p[x] == y
  }

  ghost predicate Bipartite(p: Links) {
    forall x :: x in p ==> Opposite(x, p[x])
  }

  /** The undirected edges that the parent links stand for. */
  ghost function EdgesOf(p: Links): set<Edge>
    requires Bipartite(p)
  {
    set x | x in p :: Joining(x, p[x])
  }

  /** `s` follows parent links upward. */
  ghost predicate Climb(p: Links, s: seq<Node>) {
    |s| > 0 && forall i, j :: 0 <= i < j < |s| && j == i + 1 ==> Under(p, s[i], s[j])
  }

  /** `s` follows parent links from `x` up to a node without a parent. */
  ghost predicate RootPath(p: Links, s: seq<Node>, x: Node) {
    Climb(p, s) && s[0] == x && s[|s| - 1] !in p
  }

  /** Every node has a root path, that is, no node climbs for ever. */
  ghost predicate Forest(p: Links) {
    Bipartite(p) && forall x :: HasRoot(p, x)
  }

  ghost predicate HasRoot(p: Links, x: Node) {
    exists s :: RootPath(p, s, x)
  }

  ghost function Up(p: Links, x: Node): (s: seq<Node>)
    requires HasRoot(p, x)
    ensures RootPath(p, s, x)
  {
    var s :| RootPath(p, s, x); s
  }

  ghost function Root(p: Links, x: Node): Node
    requires HasRoot(p, x)
  {
    var s := Up(p, x); s[|s| - 1]
  }

  // ---------- root paths are unique and repeat nothing ----------

  /** Any climb is a prefix of the root path that starts at the same node. */
  lemma {:induction false} ClimbIsPrefix(p: Links, t: seq<Node>, s: seq<Node>)
    requires Climb(p, t) && RootPath(p, s, t[0])
    ensures |t| <= |s| && t == s[..|t|]
    decreases |t|
  {
    if |t| > 1 {
      var t' := t[..|t| - 1];
      ClimbIsPrefix(p, t', s);
      assert Under(p, t[|t| - 2], t[|t| - 1]);
      assert s[|t| - 2] == t'[|t| - 2] == t[|t| - 2];
      assert |s| > |t| - 1;
      assert s[|t| - 1] == p[s[|t| - 2]];
    }
  }

  lemma RootPathUnique(p: Links, s: seq<Node>, t: seq<Node>, x: Node)
    requires RootPath(p, s, x) && RootPath(p, t, x)
    ensures s == t
  {
    ClimbIsPrefix(p, t, s);
    ClimbIsPrefix(p, s, t);
  }

  lemma RootPathSuffix(p: Links, s: seq<Node>, x: Node, i: nat)
    requires RootPath(p, s, x) && i < |s|
    ensures RootPath(p, s[i..], s[i])
  {
    var t := s[i..];
    forall a, b | 0 <= a < b < |t| && b == a + 1
      ensures Under(p, t[a], t[b])
    {
      assert t[a] == s[i + a] && t[b] == s[i + b];
    }
  }

  lemma RootPathDistinct(p: Links, s: seq<Node>, x: Node)
    requires RootPath(p, s, x)
    ensures Distinct(s)
  {
    forall i, j | 0 <= i < j < |s|
      ensures s[i] != s[j]
    {
      RootPathSuffix(p, s, x, i);
      RootPathSuffix(p, s, x, j);
      if s[i] == s[j] {
        RootPathUnique(p, s[i..], s[j..], s[i]);
        assert false;
      }
    }
  }

  /** Two root paths that meet stay together from there on. */
  lemma RootPathsMerge(p: Links, s: seq<Node>, x: Node, t: seq<Node>, y: Node, i: nat, j: nat)
    requires RootPath(p, s, x) && RootPath(p, t, y)
    requires i < |s| && j < |t| && s[i] == t[j]
    ensures s[i..] == t[j..]
    ensures |s| - i == |t| - j
  {
    RootPathSuffix(p, s, x, i);
    RootPathSuffix(p, t, y, j);
    RootPathUnique(p, s[i..], t[j..], s[i]);
  }

  lemma RootPathsAgree(p: Links, s: seq<Node>, x: Node, t: seq<Node>, y: Node, i: nat, j: nat, k: nat)
    requires RootPath(p, s, x) && RootPath(p, t, y)
    requires i + k < |s| && j < |t| && s[i] == t[j]
    ensures |s| - i == |t| - j && s[i + k] == t[j + k]
  {
    RootPathsMerge(p, s, x, t, y, i, j);
    assert s[i + k] == s[i..][k] && t[j + k] == t[j..][k];
  }

  /** A root path is no longer than the number of links plus one. */
  lemma RootPathLength(p: Links, s: seq<Node>, x: Node)
    requires RootPath(p, s, x)
    ensures |s| <= |p| + 1
  {
    RootPathDistinct(p, s, x);
    var t := s[..|s| - 1];
    forall v | v in t
      ensures v in p
    {
      var i :| 0 <= i < |t| && t[i] == v;
      assert Under(p, s[i], s[i + 1]);
    }
    DistinctSize(t);
    SubsetSize(ToSet(t), p.Keys);
  }

  // ---------- the undirected graph of a forest ----------

  lemma AdjIsLink(p: Links, x: Node, y: Node)
    requires Bipartite(p)
    ensures Adj(EdgesOf(p), x, y) <==> (Under(p, x, y)) || (Under(p, y, x))
  {
    if Adj(EdgesOf(p), x, y) {
      var z :| z in p && Joining(z, p[z]) == Joining(x, y);
    }
    if Under(p, x, y) {
      assert Joining(x, p[x]) in EdgesOf(p);
    }
    if Under(p, y, x) {
      assert Joining(y, p[y]) in EdgesOf(p);
    }
  }

  lemma ParentSameRoot(p: Links, x: Node)
    requires Forest(p) && x in p
    ensures Root(p, x) == Root(p, p[x])
  {
    assert HasRoot(p, x) && HasRoot(p, p[x]);
    var s := Up(p, x);
    assert |s| > 1;
    assert s[1] == p[s[0]];
    RootPathSuffix(p, s, x, 1);
    RootPathUnique(p, s[1..], Up(p, p[x]), p[x]);
  }

  lemma RootOf(p: Links, s: seq<Node>, x: Node)
    requires RootPath(p, s, x)
    ensures HasRoot(p, x) && Root(p, x) == s[|s| - 1]
  {
    assert HasRoot(p, x);
    RootPathUnique(p, s, Up(p, x), x);
  }

  lemma ClimbIsWalk(p: Links, s: seq<Node>)
    requires Bipartite(p) && Climb(p, s)
    ensures IsWalk(EdgesOf(p), s)
  {
    forall i, j | 0 <= i < j < |s| && j == i + 1
      ensures Adj(EdgesOf(p), s[i], s[j])
    {
      AdjIsLink(p, s[i], s[j]);
    }
  }

  lemma {:induction false} WalkSameRoot(p: Links, s: seq<Node>)
    requires Forest(p) && IsWalk(EdgesOf(p), s)
    ensures HasRoot(p, s[0]) && HasRoot(p, s[|s| - 1])
    ensures Root(p, s[0]) == Root(p, s[|s| - 1])
    decreases |s|
  {
    assert HasRoot(p, s[0]) && HasRoot(p, s[|s| - 1]);
    if |s| > 1 {
      var t := s[..|s| - 1];
      WalkSameRoot(p, t);
      var a, b := s[|s| - 2], s[|s| - 1];
      assert Adj(EdgesOf(p), a, b);
      AdjIsLink(p, a, b);
      if Under(p, a, b) {
        ParentSameRoot(p, a);
      } else {
        ParentSameRoot(p, b);
      }
    }
  }

  /** The trees of the forest are exactly the connected components of its edges. */
  lemma ConnectedIffSameRoot(p: Links, x: Node, y: Node)
    requires Forest(p)
    ensures HasRoot(p, x) && HasRoot(p, y)
    ensures Connected(EdgesOf(p), x, y) <==> Root(p, x) == Root(p, y)
  {
    assert HasRoot(p, x) && HasRoot(p, y);
    var es := EdgesOf(p);
    if Connected(es, x, y) {
      var s :| Joins(es, s, x, y);
      WalkSameRoot(p, s);
    }
    if Root(p, x) == Root(p, y) {
      ClimbIsWalk(p, Up(p, x));
      ClimbIsWalk(p, Up(p, y));
      assert Joins(es, Up(p, x), x, Root(p, x));
      assert Joins(es, Up(p, y), y, Root(p, y));
      ConnectedSym(es, y, Root(p, y));
      ConnectedTrans(es, x, Root(p, x), y);
    }
  }

  // ---------- paths in a forest go up, then down ----------

  /** `s` climbs up to position k and descends from there. */
  ghost predicate UpDown(p: Links, s: seq<Node>, k: nat) {
    && k < |s|
    && (forall i, j :: 0 <= i < j <= k && j == i + 1 ==> Under(p, s[i], s[j]))
    && (forall i, j :: k <= i < j < |s| && j == i + 1 ==> Under(p, s[j], s[i]))
  }

  lemma {:induction false} PathIsUpDown(p: Links, s: seq<Node>) returns (k: nat)
    requires Bipartite(p) && IsWalk(EdgesOf(p), s) && Distinct(s)
    ensures UpDown(p, s, k)
    decreases |s|
  {
    if |s| == 1 {
      k := 0;
    } else {
      var n := |s| - 1;
      var t := s[..n];
      k := PathIsUpDown(p, t);
      assert Adj(EdgesOf(p), s[n - 1], s[n]);
      AdjIsLink(p, s[n - 1], s[n]);
      if k < n - 1 {
        // the previous step went down, so the parent of s[n-1] is s[n-2], not s[n]
        assert Under(p, t[n - 1], t[n - 2]);
        assert s[n - 2] != s[n];
      }
      if Under(p, s[n - 1], s[n]) {
        k := n;
      }
      assert forall i :: 0 <= i < n ==> t[i] == s[i];
    }
  }

  // ---------- where two root paths meet ----------

  /** (i, j) is the first place where path `s` hits path `t`. */
  ghost predicate Meet(s: seq<Node>, t: seq<Node>, i: nat, j: nat) {
    && i < |s| && j < |t| && s[i] == t[j]
    && (forall k :: 0 <= k < i ==> s[k] !in t)
    && (forall k :: 0 <= k < j ==> t[k] != s[i])
  }

  /** Up along `s` to position i, then down along `t` from position j. */
  function Bridge(s: seq<Node>, t: seq<Node>, i: nat, j: nat): (b: seq<Node>)
    requires i < |s| && j < |t|
    ensures |b| == i + j + 1
    ensures forall k :: 0 <= k <= i ==> b[k] == s[k]
    ensures forall k :: i < k < |b| ==> b[k] == t[i + j - k]
  {
    s[..i + 1] + Reverse(t[..j])
  }

  lemma MeetUnique(s: seq<Node>, t: seq<Node>, i: nat, j: nat, i': nat, j': nat)
    requires Meet(s, t, i, j) && Meet(s, t, i', j')
    ensures i == i' && j == j'
  {
    assert s[i] in t && s[i'] in t;
  }

  lemma {:induction false} MeetExists(s: seq<Node>, t: seq<Node>, i: nat, j: nat) returns (a: nat, b: nat)
    requires i < |s| && j < |t| && s[i] == t[j]
    ensures Meet(s, t, a, b)
    decreases i, j
  {
    if k :| 0 <= k < i && s[k] in t {
      var l :| 0 <= l < |t| && t[l] == s[k];
      a, b := MeetExists(s, t, k, l);
    } else if k :| 0 <= k < j && t[k] == s[i] {
      a, b := MeetExists(s, t, i, k);
    } else {
      a, b := i, j;
    }
  }

  lemma MeetIffSameRoot(p: Links, s: seq<Node>, x: Node, t: seq<Node>, y: Node)
    requires RootPath(p, s, x) && RootPath(p, t, y)
    ensures (exists i: nat, j: nat :: Meet(s, t, i, j)) <==> s[|s| - 1] == t[|t| - 1]
  {
    if i: nat, j: nat :| Meet(s, t, i, j) {
      RootPathsMerge(p, s, x, t, y, i, j);
      assert s[|s| - 1] == s[i..][|s| - 1 - i];
      assert t[|t| - 1] == t[j..][|t| - 1 - j];
    }
    if s[|s| - 1] == t[|t| - 1] {
      var i, j := MeetExists(s, t, |s| - 1, |t| - 1);
    }
  }

  /** On root paths the parts before the meeting point share nothing. */
  lemma MeetDisjoint(p: Links, s: seq<Node>, x: Node, t: seq<Node>, y: Node, i: nat, j: nat)
    requires RootPath(p, s, x) && RootPath(p, t, y) && Meet(s, t, i, j)
    ensures Distinct(Bridge(s, t, i, j))
  {
    RootPathDistinct(p, s, x);
    RootPathDistinct(p, t, y);
    var b := Bridge(s, t, i, j);
    RootPathsMerge(p, s, x, t, y, i, j);
    forall k, l | 0 <= k < l < |b|
      ensures b[k] != b[l]
    {
      if k <= i < l {
        var m := j - 1 - (l - i - 1);
        assert b[l] == t[m] && m < j;
        if k < i {
          assert s[k] !in t;
        }
      } else if i < k {
        assert b[k] == t[j - 1 - (k - i - 1)] && b[l] == t[j - 1 - (l - i - 1)];
      }
    }
  }

  lemma BridgeIsPath(p: Links, s: seq<Node>, x: Node, t: seq<Node>, y: Node, i: nat, j: nat)
    requires Bipartite(p) && RootPath(p, s, x) && RootPath(p, t, y) && Meet(s, t, i, j)
    ensures IsPath(EdgesOf(p), Bridge(s, t, i, j), x, y)
  {
    var b := Bridge(s, t, i, j);
    MeetDisjoint(p, s, x, t, y, i, j);
    ClimbIsWalk(p, s);
    ClimbIsWalk(p, t);
    forall k, l | 0 <= k < l < |b| && l == k + 1
      ensures Adj(EdgesOf(p), b[k], b[l])
    {
      if l <= i {
        assert Adj(EdgesOf(p), s[k], s[l]);
      } else {
        var m := j - 1 - (l - i - 1);
        assert b[l] == t[m];
        assert b[k] == t[m + 1];
        assert Adj(EdgesOf(p), t[m], t[m + 1]);
      }
    }
  }

  /** Both halves of an up-down walk climb from their outer ends. */
  lemma UpDownClimbs(p: Links, w: seq<Node>, k: nat)
    requires UpDown(p, w, k)
    ensures Climb(p, w[..k + 1]) && Climb(p, Reverse(w[k..]))
  {
    var down := Reverse(w[k..]);
    forall a, b | 0 <= a < b < |down| && b == a + 1
      ensures Under(p, down[a], down[b])
    {
      assert down[a] == w[|w| - 1 - a] && down[b] == w[|w| - 1 - b];
    }
  }

  /** Root paths that share position (k, m) and nothing on the way there meet at (k, m). */
  lemma SharedIsMeet(p: Links, s: seq<Node>, x: Node, t: seq<Node>, y: Node, k: nat, m: nat)
    requires RootPath(p, s, x) && RootPath(p, t, y)
    requires k < |s| && m < |t| && s[k] == t[m]
    requires forall a, b :: 0 <= a < k && 0 <= b < m ==> s[a] != t[b]
    ensures Meet(s, t, k, m)
  {
    RootPathsMerge(p, s, x, t, y, k, m);
    forall a | 0 <= a < k
      ensures s[a] !in t
    {
      if s[a] in t {
        var b: nat :| b < |t| && t[b] == s[a];
        RootPathsMerge(p, s, x, t, y, a, b);
        assert false;
      }
    }
    RootPathDistinct(p, t, y);
  }

  /** The bridge is the only path between the two starts. */
  lemma BridgeIsOnlyPath(p: Links, s: seq<Node>, x: Node, t: seq<Node>, y: Node, i: nat, j: nat, w: seq<Node>)
    requires Bipartite(p) && RootPath(p, s, x) && RootPath(p, t, y) && Meet(s, t, i, j)
    requires IsPath(EdgesOf(p), w, x, y)
    ensures w == Bridge(s, t, i, j)
  {
    var k := PathIsUpDown(p, w);
    UpDownClimbs(p, w, k);
    var up, down, m := w[..k + 1], Reverse(w[k..]), |w| - 1 - k;
    ClimbIsPrefix(p, up, s);
    ClimbIsPrefix(p, down, t);
    assert forall a :: 0 <= a <= k ==> s[a] == w[a];
    assert forall b :: 0 <= b <= m ==> t[b] == w[|w| - 1 - b];
    SharedIsMeet(p, s, x, t, y, k, m);
    MeetUnique(s, t, i, j, k, m);
  }

  // ---------- reversing a path upward ----------

  /** `q` is `p` with the links along `t` turned round, so that t[0] has no parent any more. */
  ghost predicate Reversed(p: Links, t: seq<Node>, q: Links)
    requires |t| > 0
  {
    && q.Keys == (p.Keys + ToSet(t)) - {t[0]}
    && (forall i, j :: 0 <= i < j < |t| && j == i + 1 ==> Under(q, t[j], t[i]))
    && (forall x :: x in q && x !in t ==> x in p && q[x] == p[x])
  }

  lemma ClimbDistinct(p: Links, t: seq<Node>)
    requires Forest(p) && Climb(p, t)
    ensures Distinct(t)
  {
    assert HasRoot(p, t[0]);
    ClimbIsPrefix(p, t, Up(p, t[0]));
    RootPathDistinct(p, Up(p, t[0]), t[0]);
  }

  lemma ReversedBipartite(p: Links, t: seq<Node>, q: Links)
    requires Bipartite(p) && Climb(p, t) && Reversed(p, t, q)
    ensures Bipartite(q)
  {
    forall x | x in q
      ensures Opposite(x, q[x])
    {
      if x in t {
        var j :| 0 <= j < |t| && t[j] == x;
        assert j > 0;
        assert q[t[j]] == t[j - 1] && p[t[j - 1]] == t[j];
        assert Opposite(t[j - 1], t[j]);
      }
    }
  }

  /** The edge above a climb that stops short of a root. */
  ghost function Above(p: Links, t: seq<Node>): set<Edge>
    requires |t| > 0
  {
    var top := t[|t| - 1];
    if top in p then {Joining(top, p[top])} else {}
  }

  lemma AboveIsOutside(p: Links, t: seq<Node>)
    requires Forest(p) && Climb(p, t) && t[|t| - 1] in p
    ensures p[t[|t| - 1]] !in t
  {
    var u := t + [p[t[|t| - 1]]];
    assert Climb(p, u);
    ClimbDistinct(p, u);
    forall i | 0 <= i < |t|
      ensures t[i] != p[t[|t| - 1]]
    {
      assert u[i] != u[|t|];
    }
  }

  /** The link above the end of a climb is no link of the reversal. */
  lemma AboveIsLost(p: Links, t: seq<Node>, q: Links, x: Node)
    requires Forest(p) && Climb(p, t) && Reversed(p, t, q) && x in q
    ensures Joining(x, q[x]) !in Above(p, t)
  {
    var top := t[|t| - 1];
    ReversedBipartite(p, t, q);
    if top in p {
      AboveIsOutside(p, t);
      if p[top] in p {
        AboveIsOutside(p, [top, p[top]]);
      }
      if x in t {
        var j :| 0 <= j < |t| && t[j] == x;
        assert q[x] == t[j - 1];
      }
    }
  }

  /** Re-rooting never changes the undirected forest, except that turning a path that was cut loses
      the link above the cut. */
  lemma ReversedEdges(p: Links, t: seq<Node>, q: Links)
    requires Forest(p) && Climb(p, t) && Reversed(p, t, q)
    ensures Bipartite(q) && EdgesOf(q) == EdgesOf(p) - Above(p, t)
  {
    ReversedBipartite(p, t, q);
    forall x | x in q
      ensures Joining(x, q[x]) in EdgesOf(p) - Above(p, t)
    {
      AboveIsLost(p, t, q, x);
      if x in t {
        var j :| 0 <= j < |t| && t[j] == x;
        assert q[t[j]] == t[j - 1] && p[t[j - 1]] == t[j];
        assert Opposite(t[j - 1], t[j]);
        assert Joining(t[j - 1], p[t[j - 1]]) in EdgesOf(p);
      }
    }
    forall x | x in p && Joining(x, p[x]) !in Above(p, t)
      ensures Joining(x, p[x]) in EdgesOf(q)
    {
      if x in t {
        var i :| 0 <= i < |t| && t[i] == x;
        assert i < |t| - 1;
        assert p[t[i]] == t[i + 1] && q[t[i + 1]] == t[i];
        assert Joining(t[i + 1], q[t[i + 1]]) in EdgesOf(q);
      } else {
        assert x in q;
      }
    }
  }

  /** Reversing a climb keeps the forest acyclic. */
  lemma ReversedForest(p: Links, t: seq<Node>, q: Links)
    requires Forest(p) && Climb(p, t) && Reversed(p, t, q)
    ensures Forest(q) && t[0] !in q
  {
    ReversedBipartite(p, t, q);
    forall x
      ensures HasRoot(q, x)
    {
      assert HasRoot(p, x);
      var s := ReversedRoot(p, t, q, x, Up(p, x));
    }
  }

  ghost predicate Touches(s: seq<Node>, t: seq<Node>) {
    exists i :: 0 <= i < |s| && s[i] in t
  }

  /** Climb as before until the reversed path is met, then follow it down. */
  lemma DownReversed(p: Links, t: seq<Node>, q: Links, s: seq<Node>, i: nat, j: nat)
    requires Climb(p, t) && Distinct(t) && Reversed(p, t, q) && Climb(p, s) && Meet(s, t, i, j)
    ensures RootPath(q, s[..i] + Reverse(t[..j + 1]), s[0])
  {
    var r := s[..i] + Reverse(t[..j + 1]);
    forall a, c | 0 <= a < c < |r| && c == a + 1
      ensures Under(q, r[a], r[c])
    {
      if a < i {
        assert r[a] == s[a] && s[a] !in t;
        assert Under(p, s[a], s[a + 1]);
        assert r[c] == s[c];
      } else {
        var m := j - (a - i);
        assert r[a] == t[m] && r[c] == t[m - 1];
      }
    }
    assert r[0] == s[0] by {
      if i == 0 {
        assert r[0] == t[j];
      }
    }
  }

  /** After the reversal, what climbed to the reversed path goes down to its start, and everything
      else climbs as before. */
  lemma ReversedRoot(p: Links, t: seq<Node>, q: Links, x: Node, s: seq<Node>) returns (r: seq<Node>)
    requires Forest(p) && Climb(p, t) && Reversed(p, t, q) && RootPath(p, s, x)
    ensures RootPath(q, r, x)
    ensures if Touches(s, t) then r[|r| - 1] == t[0] else r == s
  {
    ClimbDistinct(p, t);
    if Touches(s, t) {
      var a :| 0 <= a < |s| && s[a] in t;
      var c :| 0 <= c < |t| && t[c] == s[a];
      var i, j := MeetExists(s, t, a, c);
      DownReversed(p, t, q, s, i, j);
      r := s[..i] + Reverse(t[..j + 1]);
    } else {
      r := s;
      forall a, c | 0 <= a < c < |s| && c == a + 1
        ensures Under(q, s[a], s[c])
      {
        assert Under(p, s[a], s[c]) && s[a] !in t;
      }
    }
  }

  // ---------- linking one tree under another ----------

  /** Giving a root `b` a parent in another tree keeps the forest and adds exactly that edge. */
  lemma LinkForest(q: Links, b: Node, a: Node)
    requires Forest(q) && b !in q && Opposite(b, a)
    requires HasRoot(q, a) && Root(q, a) != b
    ensures Forest(q[b := a]) && EdgesOf(q[b := a]) == EdgesOf(q) + {Joining(b, a)}
  {
    var r := q[b := a];
    var sa := Up(q, a);
    AvoidsRoot(q, sa, a, b);
    assert RootPath(r, sa, a);
    forall x
      ensures HasRoot(r, x)
    {
      assert HasRoot(q, x);
      var s := Up(q, x);
      if s[|s| - 1] == b {
        var w := s + sa;
        RootPathDistinct(q, s, x);
        forall i, j | 0 <= i < j < |w| && j == i + 1
          ensures Under(r, w[i], w[j])
        {
          if j < |s| {
            assert Under(q, s[i], s[j]);
          } else if i >= |s| {
            assert Under(r, sa[i - |s|], sa[j - |s|]);
          }
        }
        assert RootPath(r, w, x);
      } else {
        AvoidsRoot(q, s, x, b);
        assert RootPath(r, s, x);
      }
    }
    LinkEdges(q, b, a);
  }

  /** A root can hang under a node exactly when that node is in another tree. */
  lemma LinkForestIff(q: Links, b: Node, a: Node)
    requires Forest(q) && b !in q && Opposite(b, a)
    ensures HasRoot(q, a) && (Forest(q[b := a]) <==> Root(q, a) != b)
  {
    assert HasRoot(q, a);
    var w, r := Up(q, a), q[b := a];
    if Root(q, a) != b {
      LinkForest(q, b, a);
    } else if Forest(r) {
      var u := w + [a];
      forall i, j | 0 <= i < j < |u| && j == i + 1
        ensures Under(r, u[i], u[j])
      {
        if j < |w| {
          assert Under(q, w[i], w[j]);
        }
      }
      TwiceIsNoClimb(r, u, |w|);
    }
  }

  lemma TwiceIsNoClimb(p: Links, u: seq<Node>, k: nat)
    requires Bipartite(p) && Climb(p, u) && 0 < k < |u| && u[0] == u[k]
    ensures !Forest(p)
  {
    if Forest(p) {
      ClimbDistinct(p, u);
      assert false;
    }
  }

  lemma AvoidsRoot(q: Links, s: seq<Node>, x: Node, b: Node)
    requires RootPath(q, s, x) && b !in q && s[|s| - 1] != b
    ensures b !in s
  {
    forall i | 0 <= i < |s|
      ensures s[i] != b
    {
      if i < |s| - 1 {
        assert Under(q, s[i], s[i + 1]);
      }
    }
  }

  lemma LinkEdges(q: Links, b: Node, a: Node)
    requires Bipartite(q) && b !in q && Opposite(b, a)
    ensures Bipartite(q[b := a]) && EdgesOf(q[b := a]) == EdgesOf(q) + {Joining(b, a)}
  {
    var r := q[b := a];
    forall e | e in EdgesOf(q) + {Joining(b, a)}
      ensures e in EdgesOf(r)
    {
      if e == Joining(b, a) {
        assert Joining(b, r[b]) in EdgesOf(r);
      } else {
        var x :| x in q && Joining(x, q[x]) == e;
        assert Joining(x, r[x]) in EdgesOf(r);
      }
    }
  }
}
