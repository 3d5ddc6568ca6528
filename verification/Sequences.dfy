/** Sequences without repeats, their sizes, and rearrangements. */
module Sequences {

  ghost predicate Distinct<T(!new)>(s: seq<T>) {
    forall i, j :: 0 <= i < j < |s| ==> s[i] != s[j]
  }

  function Reverse<T>(s: seq<T>): (r: seq<T>)
    ensures |r| == |s|
    ensures forall i :: 0 <= i < |s| ==> r[i] == s[|s| - 1 - i]
  {
    seq(|s|, i requires 0 <= i < |s| => s[|s| - 1 - i])
  }

  function ToSet<T>(s: seq<T>): set<T> {
    set x | x in s
  }

  lemma {:induction false} DistinctSize<T(!new)>(s: seq<T>)
    requires Distinct(s)
    ensures |ToSet(s)| == |s|
    decreases |s|
  {
    if |s| > 0 {
      var t := s[..|s| - 1];
      DistinctSize(t);
      assert ToSet(s) == ToSet(t) + {s[|s| - 1]};
      assert s[|s| - 1] !in t;
    }
  }

  lemma {:induction false} SubsetSize<T>(a: set<T>, b: set<T>)
    requires a <= b
    ensures |a| <= |b|
    ensures |a| == |b| ==> a == b
  {
    assert b == a + (b - a);
    assert |b| == |a| + |b - a|;
    if |a| == |b| {
      assert b - a == {};
    }
  }

  lemma {:induction false} ReverseMultiset<T>(s: seq<T>)
    ensures multiset(Reverse(s)) == multiset(s)
    decreases |s|
  {
    if |s| == 0 {
      assert Reverse(s) == [];
    } else {
      ReverseMultiset(s[1..]);
      assert s == [s[0]] + s[1..];
      assert Reverse(s) == Reverse(s[1..]) + [s[0]];
    }
  }

  lemma SwapSize<T>(a: set<T>, c: set<T>, x: T, y: T)
    requires x !in a && y !in c && a + {x} == c + {y}
    ensures |a| == |c|
  {
    assert |a + {x}| == |a| + 1 && |c + {y}| == |c| + 1;
  }

  // ---------- permutations ----------

  /** `perm` lists every number below n once. */
  ghost predicate Permutation(perm: seq<nat>, n: nat) {
    |perm| == n && Distinct(perm) && forall k :: 0 <= k < n ==> perm[k] < n
  }

  function Below(n: nat): (s: set<nat>)
    ensures forall x: nat :: x in s <==> x < n
  {
    if n == 0 then {} else Below(n - 1) + {n - 1}
  }

  lemma {:induction false} BelowSize(n: nat)
    ensures |Below(n)| == n
  {
    if n > 0 {
      BelowSize(n - 1);
    }
  }

  /** No more distinct numbers below n than n. */
  lemma DistinctBound(s: seq<nat>, n: nat)
    requires Distinct(s) && forall k :: 0 <= k < |s| ==> s[k] < n
    ensures |s| <= n
    ensures |s| == n ==> forall x: nat :: x < n ==> x in s
  {
    DistinctSize(s);
    BelowSize(n);
    SubsetSize(ToSet(s), Below(n));
    if |s| == n {
      forall x: nat | x < n
        ensures x in s
      {
        assert x in ToSet(s);
      }
    }
  }

  function RemoveAt<T>(s: seq<T>, j: nat): seq<T>
    requires j < |s|
  {
    s[..j] + s[j + 1..]
  }

  lemma RemoveAtMultiset<T>(s: seq<T>, j: nat)
    requires j < |s|
    ensures multiset(s) == multiset(RemoveAt(s, j)) + multiset{s[j]}
  {
    assert s == s[..j] + [s[j]] + s[j + 1..];
  }

  lemma CancelMember<T>(a: multiset<T>, b: multiset<T>, x: T)
    requires a + multiset{x} == b + multiset{x}
    ensures a == b
  {
    assert a == (a + multiset{x}) - multiset{x};
    assert b == (b + multiset{x}) - multiset{x};
  }

  /** Sequences with the same members are rearrangements of each other. */
  lemma {:induction false} Rearrange<T>(a: seq<T>, b: seq<T>) returns (perm: seq<nat>)
    requires multiset(a) == multiset(b)
    ensures |a| == |b| && Permutation(perm, |a|)
    ensures forall k :: 0 <= k < |a| ==> b[perm[k]] == a[k]
    decreases |a|
  {
    assert |multiset(a)| == |a| && |multiset(b)| == |b|;
    if |a| == 0 {
      perm := [];
    } else {
      var n := |a| - 1;
      assert a[n] in multiset(b);
      var j: nat :| j < |b| && b[j] == a[n];
      RemoveAtMultiset(b, j);
      assert a == a[..n] + [a[n]];
      var b' := RemoveAt(b, j);
      CancelMember(multiset(a[..n]), multiset(b'), a[n]);
      var rest := Rearrange(a[..n], b');
      perm := seq(n, k requires 0 <= k < n => if rest[k] < j then rest[k] else rest[k] + 1) + [j];
      forall k | 0 <= k < n
        ensures b[perm[k]] == a[k] && perm[k] < n + 1 && perm[k] != j
      {
        assert b'[rest[k]] == a[..n][k];
      }
    }
  }

  /** Reading a sequence in permuted order keeps its members. */
  lemma {:induction false} PermutedMultiset<T>(s: seq<T>, perm: seq<nat>, r: seq<T>)
    requires Permutation(perm, |s|) && |r| == |s|
    requires forall k :: 0 <= k < |s| ==> r[k] == s[perm[k]]
    ensures multiset(r) == multiset(s)
    decreases |s|
  {
    if |s| > 0 {
      var n := |s| - 1;
      DistinctBound(perm, |s|);
      assert n in perm;
      var j: nat :| j < |s| && perm[j] == n;
      var perm', r' := RemoveAt(perm, j), RemoveAt(r, j);
      forall k | 0 <= k < n
        ensures perm'[k] < n && r'[k] == s[..n][perm'[k]]
      {
        var k' := if k < j then k else k + 1;
        assert perm'[k] == perm[k'] && r'[k] == r[k'] && k' != j;
      }
      PermutedMultiset(s[..n], perm', r');
      RemoveAtMultiset(r, j);
      assert s == s[..n] + [s[n]];
    }
  }
}
