/**
 * Following `.thread` successor links from a root, as the `while (t.thread)` loop of the
 * thread formatter does. Links are a map from the handle of a tweet to the handle of its
 * successor.
 */
module Walk {

  predicate Distinct(s: seq<nat>) {
    forall i, j :: 0 <= i < j < |s| ==> s[i] != s[j]
  }

  /**
   * The shape the linking loop gives the `.thread` slots over `n` loaded tweets: links stay
   * among loaded tweets, and no tweet is the successor of two different tweets.
   */
  predicate Linkage(n: nat, next: map<nat, nat>) {
    && (forall p :: p in next ==> p < n && next[p] < n)
    && (forall p, q :: p in next && q in next && next[p] == next[q] ==> p == q)
  }

  /** `w` is a walk along the links that starts at a tweet nobody links to. */
  predicate WalkPrefix(n: nat, next: map<nat, nat>, w: seq<nat>) {
    && Linkage(n, next)
    && |w| > 0 && w[0] !in next.Values
    && Distinct(w)
    && (forall i :: 0 <= i < |w| ==> w[i] < n)
    && (forall i :: 0 <= i < |w| - 1 ==> w[i] in next && next[w[i]] == w[i + 1])
  }

  /** Pigeonhole: a duplicate-free sequence of handles below `n` has at most `n` elements. */
  lemma {:induction false} DistinctBelow(s: seq<nat>, n: nat)
    requires Distinct(s) && forall i :: 0 <= i < |s| ==> s[i] < n
    ensures |s| <= n
  {
    if s != [] {
      assert 0 <= s[0] < n;
      if exists k :: 0 <= k < |s| && s[k] == n - 1 {
        var k :| 0 <= k < |s| && s[k] == n - 1;
        var s' := s[..k] + s[k + 1..];
        assert forall i :: 0 <= i < |s'| ==> s'[i] == (if i < k then s[i] else s[i + 1]);
        assert forall i :: 0 <= i < |s'| ==> s'[i] < n - 1;
        assert Distinct(s');
        DistinctBelow(s', n - 1);
      } else {
        DistinctBelow(s, n - 1);
      }
    }
  }

  /**
   * The successor of the last tweet of a walk is not on the walk: the start has no
   * predecessor, and every other tweet of the walk already has its only one on the walk.
   */
  lemma NextLeavesWalk(n: nat, next: map<nat, nat>, w: seq<nat>)
    requires WalkPrefix(n, next, w) && w[|w| - 1] in next
    ensures next[w[|w| - 1]] !in w
    ensures WalkPrefix(n, next, w + [next[w[|w| - 1]]])
    ensures |w| < n
  {
    var last := w[|w| - 1];
    var x := next[last];
    assert x in next.Values;
    forall k | 0 <= k < |w| ensures w[k] != x {
      if k > 0 {
        assert next[w[k - 1]] == w[k] && w[k - 1] != last;
      }
    }
    var w' := w + [x];
    assert forall i :: 0 <= i < |w'| - 1 ==> w'[i] == w[i];
    DistinctBelow(w', n);
  }

  /** The walk that extends `w` until a tweet without a successor. */
  function ChainFrom(n: nat, next: map<nat, nat>, w: seq<nat>): (r: seq<nat>)
    requires WalkPrefix(n, next, w)
    decreases n - |w|
    ensures WalkPrefix(n, next, r)
    ensures |w| <= |r| <= n && r[..|w|] == w
    ensures r[|r| - 1] !in next
  {
    DistinctBelow(w, n);
    var last := w[|w| - 1];
    if last in next then
      NextLeavesWalk(n, next, w);
      var r := ChainFrom(n, next, w + [next[last]]);
      assert r[..|w|] == (r[..|w| + 1])[..|w|];
      r
    else
      w
  }

  /**
   * The tweets of the thread started by `root`: it begins at the root, each tweet is
   * followed by its successor, it ends at a tweet without one, no tweet occurs twice and
   * there are at most as many as tweets loaded.
   */
  function ThreadChain(n: nat, next: map<nat, nat>, root: nat): (r: seq<nat>)
    requires Linkage(n, next) && root < n && root !in next.Values
    ensures |r| > 0 && r[0] == root
    ensures forall i :: 0 <= i < |r| - 1 ==> r[i] in next && next[r[i]] == r[i + 1]
    ensures r[|r| - 1] !in next
    ensures Distinct(r) && |r| <= n
    ensures forall i :: 0 <= i < |r| ==> r[i] < n
  {
    var r := ChainFrom(n, next, [root]);
    assert r[0] == r[..1][0];
    r
  }
}
