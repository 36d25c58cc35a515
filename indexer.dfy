/**
 * Index construction: the id table, the chronological sort and the split of the sorted
 * tweets into thread roots and `.thread` successor links.
 *
 * A tweet object is identified by its position in the loaded array (its handle): the id
 * table maps an id to a handle, the sorted array holds handles and a `.thread` slot maps
 * the handle of a parent to the handle of its successor.
 */
module Indexer {
  import opened Records
  import opened Walk

  predicate Handles(tweets: seq<Tweet>, s: seq<nat>) {
    forall k :: 0 <= k < |s| ==> s[k] < |tweets|
  }

  // ---------------------------------------------------------------------------------------
  // The id table

  /** `tweets_byid` after the indexing loop over the loaded tweets. */
  function IdIndex(tweets: seq<Tweet>): (m: map<string, nat>)
    ensures forall id :: id in m ==> m[id] < |tweets|
  {
    if tweets == [] then map[]
    else IdIndex(tweets[..|tweets| - 1])[tweets[|tweets| - 1].id := |tweets| - 1]
  }

  /**
   * Every loaded id is a key of the table, and it maps to the LAST tweet in input order
   * that carries it.
   */
  lemma {:induction false} IdIndexLastWins(tweets: seq<Tweet>, id: string)
    ensures id in IdIndex(tweets) <==> exists k :: 0 <= k < |tweets| && tweets[k].id == id
    ensures id in IdIndex(tweets) ==>
              && tweets[IdIndex(tweets)[id]].id == id
              && forall j :: IdIndex(tweets)[id] < j < |tweets| ==> tweets[j].id != id
  {
    if tweets != [] {
      var t' := tweets[..|tweets| - 1];
      IdIndexLastWins(t', id);
      assert forall k :: 0 <= k < |t'| ==> t'[k] == tweets[k];
      if tweets[|tweets| - 1].id != id && exists k :: 0 <= k < |tweets| && tweets[k].id == id {
        var k :| 0 <= k < |tweets| && tweets[k].id == id;
        assert t'[k].id == id;
      }
    }
  }

  /** The indexing loop: one pass over the loaded tweets in input order, later entries overwriting earlier ones. */
  method BuildById(tweets: seq<Tweet>) returns (byId: map<string, nat>)
    ensures byId == IdIndex(tweets)
  {
    byId := map[];
    for i := 0 to |tweets|
      invariant byId == IdIndex(tweets[..i])
    {
      assert tweets[..i + 1][..i] == tweets[..i];
      byId := byId[tweets[i].id := i];
    }
    assert tweets[..|tweets|] == tweets;
  }

  // ---------------------------------------------------------------------------------------
  // The chronological sort

  /**
   * The order `tweets.sort((a, b) => a.date - b.date)` produces on handles: by date, and,
   * because the sort is stable, by input position among equal dates.
   */
  predicate Precedes(tweets: seq<Tweet>, a: nat, b: nat) {
    && a < |tweets| && b < |tweets|
    && (tweets[a].date < tweets[b].date || (tweets[a].date == tweets[b].date && a <= b))
  }

  predicate Chronological(tweets: seq<Tweet>, s: seq<nat>) {
    Handles(tweets, s) && forall i, j :: 0 <= i < j < |s| ==> Precedes(tweets, s[i], s[j])
  }

  /** The array of handles as loaded: position k holds tweet k. */
  function Range(n: nat): (r: seq<nat>)
    ensures |r| == n && forall k :: 0 <= k < n ==> r[k] == k
  {
    if n == 0 then [] else Range(n - 1) + [n - 1]
  }

  /** The in-place sort: an insertion sort on the array of handles. */
  method SortByDate(tweets: seq<Tweet>, a: array<nat>)
    requires forall k :: 0 <= k < a.Length ==> a[k] < |tweets|
    modifies a
    ensures Chronological(tweets, a[..])
    ensures multiset(a[..]) == old(multiset(a[..]))
  {
    var i := 0;
    while i < a.Length
      invariant 0 <= i <= a.Length
      invariant forall k :: 0 <= k < a.Length ==> a[k] < |tweets|
      invariant Chronological(tweets, a[..i])
      invariant multiset(a[..]) == old(multiset(a[..]))
    {
      SinkLast(tweets, a, i);
      i := i + 1;
    }
    assert a[..a.Length] == a[..];
  }

  /** Moves `a[i]` left into the chronologically sorted prefix `a[..i]`. */
  method SinkLast(tweets: seq<Tweet>, a: array<nat>, i: nat)
    requires i < a.Length
    requires forall k :: 0 <= k < a.Length ==> a[k] < |tweets|
    requires Chronological(tweets, a[..i])
    modifies a
    ensures forall k :: 0 <= k < a.Length ==> a[k] < |tweets|
    ensures Chronological(tweets, a[..i + 1])
    ensures multiset(a[..]) == old(multiset(a[..]))
    ensures a[i + 1..] == old(a[i + 1..])
  {
    assert forall x, y :: 0 <= x < y < i ==> Precedes(tweets, a[x], a[y]) by {
      assert forall k :: 0 <= k < i ==> a[..i][k] == a[k];
    }
    var j := i;
    while j > 0 && !Precedes(tweets, a[j - 1], a[j])
      invariant 0 <= j <= i
      invariant forall k :: 0 <= k < a.Length ==> a[k] < |tweets|
      invariant multiset(a[..]) == old(multiset(a[..]))
      invariant a[i + 1..] == old(a[i + 1..])
      invariant forall x, y :: 0 <= x < y <= i && x != j && y != j ==> Precedes(tweets, a[x], a[y])
      invariant forall y :: j < y <= i ==> Precedes(tweets, a[j], a[y])
    {
      Swap(a, j - 1, j);
      j := j - 1;
    }
    assert forall k :: 0 <= k <= i ==> a[..i + 1][k] == a[k];
  }

  method Swap(a: array<nat>, i: nat, j: nat)
    requires i < j < a.Length
    modifies a
    ensures a[i] == old(a[j]) && a[j] == old(a[i])
    ensures forall k :: 0 <= k < a.Length && k != i && k != j ==> a[k] == old(a[k])
    ensures multiset(a[..]) == old(multiset(a[..]))
  {
    a[i], a[j] := a[j], a[i];
  }

  /** Inserts handle `h` into a chronological sequence, after every handle that precedes it. */
  function Insert(tweets: seq<Tweet>, h: nat, s: seq<nat>): (r: seq<nat>)
    requires h < |tweets| && Handles(tweets, s)
    ensures Handles(tweets, r)
  {
    if s == [] then [h]
    else if Precedes(tweets, h, s[0]) then [h] + s
    else [s[0]] + Insert(tweets, h, s[1..])
  }

  /** A reference definition of the sort: insertion of the handles one after another. */
  function SortHandles(tweets: seq<Tweet>, s: seq<nat>): (r: seq<nat>)
    requires Handles(tweets, s)
    ensures Handles(tweets, r)
  {
    if s == [] then []
    else Insert(tweets, s[|s| - 1], SortHandles(tweets, s[..|s| - 1]))
  }

  lemma ChronologicalTail(tweets: seq<Tweet>, s: seq<nat>)
    requires Chronological(tweets, s) && s != []
    ensures Chronological(tweets, s[1..])
  {
    assert forall i, j :: 0 <= i < j < |s| - 1 ==> s[1..][i] == s[i + 1] && s[1..][j] == s[j + 1];
  }

  lemma {:induction false} InsertPermutes(tweets: seq<Tweet>, h: nat, s: seq<nat>)
    requires h < |tweets| && Handles(tweets, s)
    ensures multiset(Insert(tweets, h, s)) == multiset(s) + multiset{h}
  {
    if s != [] && !Precedes(tweets, h, s[0]) {
      assert s == [s[0]] + s[1..];
      InsertPermutes(tweets, h, s[1..]);
    }
  }

  /** A handle that precedes every handle of a chronological sequence can go in front of it. */
  lemma ConsChronological(tweets: seq<Tweet>, x: nat, s: seq<nat>)
    requires x < |tweets| && Chronological(tweets, s)
    requires forall y :: y in s ==> Precedes(tweets, x, y)
    ensures Chronological(tweets, [x] + s)
  {
    var r := [x] + s;
    forall i, j | 0 <= i < j < |r| ensures Precedes(tweets, r[i], r[j]) {
      assert r[j] == s[j - 1];
      if i > 0 {
        assert r[i] == s[i - 1];
      }
    }
  }

  lemma {:induction false} InsertKeepsOrder(tweets: seq<Tweet>, h: nat, s: seq<nat>)
    requires h < |tweets| && Chronological(tweets, s)
    ensures Chronological(tweets, Insert(tweets, h, s))
  {
    if s != [] && !Precedes(tweets, h, s[0]) {
      var rest := Insert(tweets, h, s[1..]);
      ChronologicalTail(tweets, s);
      InsertKeepsOrder(tweets, h, s[1..]);
      InsertPermutes(tweets, h, s[1..]);
      forall y | y in rest ensures Precedes(tweets, s[0], y) {
        assert y in multiset(rest);
        if y != h {
          assert y in s[1..];
          FirstPrecedesAll(tweets, s, y);
        }
      }
      ConsChronological(tweets, s[0], rest);
    } else if s != [] {
      forall y | y in s ensures Precedes(tweets, h, y) {
        FirstPrecedesAll(tweets, s, y);
      }
      ConsChronological(tweets, h, s);
    }
  }

  /** The reference sort is chronological and a permutation of its input. */
  lemma {:induction false} SortHandlesSorts(tweets: seq<Tweet>, s: seq<nat>)
    requires Handles(tweets, s)
    ensures Chronological(tweets, SortHandles(tweets, s))
    ensures multiset(SortHandles(tweets, s)) == multiset(s)
  {
    if s != [] {
      var s' := s[..|s| - 1];
      assert s == s' + [s[|s| - 1]];
      SortHandlesSorts(tweets, s');
      InsertKeepsOrder(tweets, s[|s| - 1], SortHandles(tweets, s'));
      InsertPermutes(tweets, s[|s| - 1], SortHandles(tweets, s'));
    }
  }

  /** The chronological order of the loaded tweets. */
  function ChronoOrder(tweets: seq<Tweet>): seq<nat> {
    SortHandles(tweets, Range(|tweets|))
  }

  lemma FirstPrecedesAll(tweets: seq<Tweet>, s: seq<nat>, x: nat)
    requires Chronological(tweets, s) && x in s
    ensures Precedes(tweets, s[0], x)
  {
    var k :| 0 <= k < |s| && s[k] == x;
  }

  lemma MultisetTail(s: seq<nat>)
    requires s != []
    ensures multiset(s[1..]) == multiset(s) - multiset{s[0]}
  {
    assert s == [s[0]] + s[1..];
  }

  /** Two chronological arrangements of the same handles are equal: a stable sort has one result. */
  lemma {:induction false} ChronologicalUnique(tweets: seq<Tweet>, s: seq<nat>, t: seq<nat>)
    requires Chronological(tweets, s) && Chronological(tweets, t)
    requires multiset(s) == multiset(t)
    ensures s == t
  {
    assert |s| == |multiset(s)| == |multiset(t)| == |t|;
    if s != [] {
      assert s[0] in multiset(t) && t[0] in multiset(s);
      FirstPrecedesAll(tweets, t, s[0]);
      FirstPrecedesAll(tweets, s, t[0]);
      assert s[0] == t[0];
      MultisetTail(s);
      MultisetTail(t);
      ChronologicalTail(tweets, s);
      ChronologicalTail(tweets, t);
      ChronologicalUnique(tweets, s[1..], t[1..]);
    }
  }

  lemma {:induction false} InsertDistinct(tweets: seq<Tweet>, h: nat, s: seq<nat>)
    requires h < |tweets| && Chronological(tweets, s) && Distinct(s) && h !in s
    ensures Distinct(Insert(tweets, h, s))
  {
    if s != [] && !Precedes(tweets, h, s[0]) {
      ChronologicalTail(tweets, s);
      assert s == [s[0]] + s[1..];
      InsertDistinct(tweets, h, s[1..]);
      InsertPermutes(tweets, h, s[1..]);
      var r := [s[0]] + Insert(tweets, h, s[1..]);
      forall i, j | 0 <= i < j < |r| ensures r[i] != r[j] {
        if i == 0 {
          assert r[j] in multiset(Insert(tweets, h, s[1..]));
        }
      }
    }
  }

  /** The reference sort of distinct handles is duplicate-free. */
  lemma {:induction false} SortHandlesDistinct(tweets: seq<Tweet>, s: seq<nat>)
    requires Handles(tweets, s) && Distinct(s)
    ensures Distinct(SortHandles(tweets, s))
  {
    if s != [] {
      var s' := s[..|s| - 1];
      assert Distinct(s');
      SortHandlesDistinct(tweets, s');
      SortHandlesSorts(tweets, s');
      assert s[|s| - 1] !in multiset(SortHandles(tweets, s'));
      InsertDistinct(tweets, s[|s| - 1], SortHandles(tweets, s'));
    }
  }

  /**
   * The chronological order is the stable sort of the loaded tweets by date: it holds
   * every loaded tweet exactly once, dates never decrease along it, and among equal dates
   * the input order is kept.
   */
  lemma ChronoOrderIsStableSort(tweets: seq<Tweet>)
    ensures var ord := ChronoOrder(tweets);
      && multiset(ord) == multiset(Range(|tweets|))
      && (forall h :: 0 <= h < |tweets| ==> h in multiset(ord))
      && Handles(tweets, ord) && Distinct(ord)
      && (forall i, j :: 0 <= i < j < |ord| ==> tweets[ord[i]].date <= tweets[ord[j]].date)
      && (forall i, j :: 0 <= i < j < |ord| && tweets[ord[i]].date == tweets[ord[j]].date ==> ord[i] < ord[j])
  {
    var n := |tweets|;
    var ord := ChronoOrder(tweets);
    SortHandlesSorts(tweets, Range(n));
    SortHandlesDistinct(tweets, Range(n));
    forall h | 0 <= h < n ensures h in multiset(ord) {
      assert Range(n)[h] == h;
    }
    forall i, j | 0 <= i < j < |ord| ensures tweets[ord[i]].date <= tweets[ord[j]].date {
      assert Precedes(tweets, ord[i], ord[j]);
    }
  }

  // ---------------------------------------------------------------------------------------
  // Roots and `.thread` links

  /** The slot a tweet is written into by the linking loop: that of its parent, when the parent is loaded. */
  function ReplyTarget(tweets: seq<Tweet>, byId: map<string, nat>, accountId: string, h: nat): Option<nat>
    requires h < |tweets|
  {
    var t := tweets[h];
    if IsRoot(t, accountId) then None
    else if t.replyToStatus.value in byId then Some(byId[t.replyToStatus.value])
    else None
  }

  /** `threads` after the linking loop over a prefix `s` of the sorted array. */
  function Roots(tweets: seq<Tweet>, accountId: string, s: seq<nat>): (r: seq<nat>)
    requires Handles(tweets, s)
    ensures Handles(tweets, r)
    ensures forall x :: x in r ==> x in s && IsRoot(tweets[x], accountId)
    ensures forall k :: 0 <= k < |s| && IsRoot(tweets[s[k]], accountId) ==> s[k] in r
  {
    if s == [] then []
    else
      var prev := Roots(tweets, accountId, s[..|s| - 1]);
      assert forall x :: x in s[..|s| - 1] ==> x in s;
      if IsRoot(tweets[s[|s| - 1]], accountId) then prev + [s[|s| - 1]] else prev
  }

  /** The `.thread` slots after the linking loop over a prefix `s` of the sorted array. */
  function Links(tweets: seq<Tweet>, byId: map<string, nat>, accountId: string, s: seq<nat>): map<nat, nat>
    requires Handles(tweets, s)
  {
    if s == [] then map[]
    else
      var prev := Links(tweets, byId, accountId, s[..|s| - 1]);
      match ReplyTarget(tweets, byId, accountId, s[|s| - 1])
      case None => prev
      case Some(p) => prev[p := s[|s| - 1]]
  }

  /** The linking loop over the sorted array of handles. */
  method BuildThreads(tweets: seq<Tweet>, byId: map<string, nat>, accountId: string, order: seq<nat>)
    returns (threads: seq<nat>, next: map<nat, nat>)
    requires Handles(tweets, order)
    ensures threads == Roots(tweets, accountId, order)
    ensures next == Links(tweets, byId, accountId, order)
  {
    threads, next := [], map[];
    for i := 0 to |order|
      invariant threads == Roots(tweets, accountId, order[..i])
      invariant next == Links(tweets, byId, accountId, order[..i])
    {
      assert order[..i + 1][..i] == order[..i];
      var t := tweets[order[i]];
      if t.replyToStatus.None? || t.replyToUser != Some(accountId) {
        threads := threads + [order[i]];
      } else if t.replyToStatus.value in byId {
        next := next[byId[t.replyToStatus.value] := order[i]];
      }
    }
    assert order[..|order|] == order;
  }

  /** Roots keep the order of the sorted array. */
  lemma {:induction false} RootsChronological(tweets: seq<Tweet>, accountId: string, s: seq<nat>)
    requires Chronological(tweets, s)
    ensures Chronological(tweets, Roots(tweets, accountId, s))
  {
    if s != [] {
      var s' := s[..|s| - 1];
      assert Chronological(tweets, s');
      RootsChronological(tweets, accountId, s');
      var prev := Roots(tweets, accountId, s');
      forall x | x in prev ensures Precedes(tweets, x, s[|s| - 1]) {
        var k :| 0 <= k < |s'| && s'[k] == x;
        assert s[k] == x;
      }
    }
  }

  /** Each tweet of a duplicate-free `s` becomes a root at most once. */
  lemma {:induction false} RootsDistinct(tweets: seq<Tweet>, accountId: string, s: seq<nat>)
    requires Handles(tweets, s) && Distinct(s)
    ensures Distinct(Roots(tweets, accountId, s))
  {
    if s != [] {
      var s' := s[..|s| - 1];
      assert Handles(tweets, s') && Distinct(s');
      RootsDistinct(tweets, accountId, s');
      var x := s[|s| - 1];
      forall k | 0 <= k < |s'| ensures s'[k] != x {
        assert s[k] == s'[k];
      }
      assert x !in Roots(tweets, accountId, s');
    }
  }

  /**
   * A parent's slot is set exactly when some tweet of `s` is a self-reply to it, and then
   * holds the LAST such tweet of `s`.
   */
  lemma {:induction false} LinksLastWins(tweets: seq<Tweet>, byId: map<string, nat>, accountId: string, s: seq<nat>, p: nat)
    requires Handles(tweets, s)
    ensures p in Links(tweets, byId, accountId, s) <==>
              exists k :: 0 <= k < |s| && ReplyTarget(tweets, byId, accountId, s[k]) == Some(p)
    ensures p in Links(tweets, byId, accountId, s) ==>
              exists k :: 0 <= k < |s| && Links(tweets, byId, accountId, s)[p] == s[k]
                && ReplyTarget(tweets, byId, accountId, s[k]) == Some(p)
                && forall j :: k < j < |s| ==> ReplyTarget(tweets, byId, accountId, s[j]) != Some(p)
  {
    if s != [] {
      var s' := s[..|s| - 1];
      var last := |s| - 1;
      LinksLastWins(tweets, byId, accountId, s', p);
      assert forall k :: 0 <= k < |s'| ==> s'[k] == s[k];
      var m := Links(tweets, byId, accountId, s);
      if ReplyTarget(tweets, byId, accountId, s[last]) == Some(p) {
        assert m[p] == s[last];
      } else {
        if p in m {
          var k :| 0 <= k < |s'| && m[p] == s'[k]
            && ReplyTarget(tweets, byId, accountId, s'[k]) == Some(p)
            && forall j :: k < j < |s'| ==> ReplyTarget(tweets, byId, accountId, s'[j]) != Some(p);
          assert forall j :: k < j < |s| ==> ReplyTarget(tweets, byId, accountId, s[j]) != Some(p);
        }
        if exists k :: 0 <= k < |s| && ReplyTarget(tweets, byId, accountId, s[k]) == Some(p) {
          var k :| 0 <= k < |s| && ReplyTarget(tweets, byId, accountId, s[k]) == Some(p);
          assert k < last && ReplyTarget(tweets, byId, accountId, s'[k]) == Some(p);
        }
      }
    }
  }

  /** Every `.thread` slot holds a self-reply whose parent id is indexed to the slot's owner. */
  lemma LinkTargets(tweets: seq<Tweet>, byId: map<string, nat>, accountId: string, s: seq<nat>)
    requires Handles(tweets, s)
    ensures var next := Links(tweets, byId, accountId, s);
      forall p :: p in next ==>
        && next[p] in s && next[p] < |tweets|
        && !IsRoot(tweets[next[p]], accountId)
        && tweets[next[p]].replyToStatus.value in byId
        && byId[tweets[next[p]].replyToStatus.value] == p
  {
    var next := Links(tweets, byId, accountId, s);
    forall p | p in next
      ensures next[p] in s && next[p] < |tweets|
        && !IsRoot(tweets[next[p]], accountId)
        && tweets[next[p]].replyToStatus.value in byId
        && byId[tweets[next[p]].replyToStatus.value] == p
    {
      LinksLastWins(tweets, byId, accountId, s, p);
    }
  }

  /**
   * A self-reply whose parent is not loaded is dropped: it is neither a root nor in any
   * `.thread` slot.
   */
  lemma DroppedReply(tweets: seq<Tweet>, byId: map<string, nat>, accountId: string, s: seq<nat>, h: nat)
    requires Handles(tweets, s) && h < |tweets|
    requires !IsRoot(tweets[h], accountId) && tweets[h].replyToStatus.value !in byId
    ensures h !in Roots(tweets, accountId, s)
    ensures h !in Links(tweets, byId, accountId, s).Values
  {
    LinkTargets(tweets, byId, accountId, s);
  }

  /**
   * The `.thread` slots form chains: they stay among loaded tweets when the id table does,
   * no tweet is the successor of two tweets, and no root is anybody's successor.
   */
  lemma LinksFormChains(tweets: seq<Tweet>, byId: map<string, nat>, accountId: string, s: seq<nat>)
    requires Handles(tweets, s)
    requires forall id :: id in byId ==> byId[id] < |tweets|
    ensures Linkage(|tweets|, Links(tweets, byId, accountId, s))
    ensures forall k :: 0 <= k < |s| && IsRoot(tweets[s[k]], accountId) ==> s[k] !in Links(tweets, byId, accountId, s).Values
  {
    LinkTargets(tweets, byId, accountId, s);
  }
}
