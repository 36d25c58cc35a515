/**
 * The top level of the formatter: `formatThread` walks a root's `.thread` links, and the
 * final loop emits the thread of every selected root, in chronological order.
 */
module Format {
  import opened Records
  import opened Walk
  import opened Indexer
  import opened Render

  // ---------------------------------------------------------------- one thread

  /** `formatThread(t)` for the tweets `chain` of a thread. */
  function ThreadHtml(ctx: Context, chain: seq<nat>, fuel: nat): Result<seq<Fragment>, RenderError>
    requires ctx.Valid() && AllLoaded(ctx, chain)
  {
    var body := TweetsHtml(ctx, chain, fuel);
    if body.Failure? then Failure(body.error) else Success([ThreadOpen] + body.value + [ThreadClose])
  }

  /** The thread started by `root`, as `formatThread` walks it. */
  function Thread(ctx: Context, next: map<nat, nat>, root: nat): (r: seq<nat>)
    requires Linkage(|ctx.tweets|, next) && root < |ctx.tweets| && root !in next.Values
    ensures AllLoaded(ctx, r)
  {
    ThreadChain(|ctx.tweets|, next, root)
  }

  /**
   * `formatThread(t)`: the root, then one tweet after another along the `.thread` links
   * until a tweet without one.
   */
  method FormatThread(ctx: Context, next: map<nat, nat>, root: nat, fuel: nat) returns (r: Result<seq<Fragment>, RenderError>)
    requires ctx.Valid() && Linkage(|ctx.tweets|, next) && root < |ctx.tweets| && root !in next.Values
    ensures r == ThreadHtml(ctx, Thread(ctx, next, root), fuel)
  {
    var n := |ctx.tweets|;
    ghost var chain := Thread(ctx, next, root);
    var first := FormatTweet(ctx, root, fuel);
    ThreadStart(ctx, next, root, fuel);
    if first.Failure? {
      return Failure(first.error);
    }
    var str := first.value;
    var t := root;
    ghost var w: seq<nat> := [root];
    while t in next
      invariant WalkPrefix(n, next, w) && w[|w| - 1] == t
      invariant ChainFrom(n, next, w) == chain
      invariant TweetsHtml(ctx, w, fuel) == Success(str)
      decreases n - |w|
    {
      NextLeavesWalk(n, next, w);
      t := next[t];
      var q := FormatTweet(ctx, t, fuel);
      ThreadStep(ctx, next, w, fuel, str, q);
      if q.Failure? {
        return Failure(q.error);
      }
      str := str + q.value;
      w := w + [t];
    }
    return Success([ThreadOpen] + str + [ThreadClose]);
  }

  lemma TweetsHtmlOne(ctx: Context, h: nat, fuel: nat)
    requires ctx.Valid() && h < |ctx.tweets|
    ensures AllLoaded(ctx, [h]) && TweetsHtml(ctx, [h], fuel) == TweetHtml(ctx, h, fuel)
  {
    TweetsHtmlSnoc(ctx, [], h, fuel);
    assert [] + [h] == [h];
    assert ExpandAll(ctx, [], fuel) == Success([]) && ListHtml(ctx, []) == [];
    var one := TweetHtml(ctx, h, fuel);
    if one.Success? {
      assert [] + one.value == one.value;
    }
  }

  /** The walk starts with the root's markup, or its failure ends it. */
  lemma ThreadStart(ctx: Context, next: map<nat, nat>, root: nat, fuel: nat)
    requires ctx.Valid() && Linkage(|ctx.tweets|, next) && root < |ctx.tweets| && root !in next.Values
    ensures WalkPrefix(|ctx.tweets|, next, [root])
    ensures TweetsHtml(ctx, [root], fuel) == TweetHtml(ctx, root, fuel)
    ensures TweetHtml(ctx, root, fuel).Failure? ==>
              ThreadHtml(ctx, Thread(ctx, next, root), fuel) == Failure(TweetHtml(ctx, root, fuel).error)
  {
    TweetsHtmlOne(ctx, root, fuel);
    if TweetHtml(ctx, root, fuel).Failure? {
      var chain := Thread(ctx, next, root);
      assert chain[..1] == [root];
      ExpandAllPrefixFails(ctx, chain, 1, fuel);
    }
  }

  /** One step of the walk: the next tweet's markup extends the thread's, or its failure ends it. */
  lemma ThreadStep(ctx: Context, next: map<nat, nat>, w: seq<nat>, fuel: nat, acc: seq<Fragment>,
                   q: Result<seq<Fragment>, RenderError>)
    requires ctx.Valid() && WalkPrefix(|ctx.tweets|, next, w) && w[|w| - 1] in next
    requires TweetsHtml(ctx, w, fuel) == Success(acc)
    requires q == TweetHtml(ctx, next[w[|w| - 1]], fuel)
    ensures var w' := w + [next[w[|w| - 1]]];
            && WalkPrefix(|ctx.tweets|, next, w')
            && ChainFrom(|ctx.tweets|, next, w') == ChainFrom(|ctx.tweets|, next, w)
            && (q.Success? ==> TweetsHtml(ctx, w', fuel) == Success(acc + q.value))
            && (q.Failure? ==> ThreadHtml(ctx, ChainFrom(|ctx.tweets|, next, w), fuel) == Failure(q.error))
  {
    var n := |ctx.tweets|;
    NextLeavesWalk(n, next, w);
    var t := next[w[|w| - 1]];
    var w' := w + [t];
    TweetsHtmlSnoc(ctx, w, t, fuel);
    if q.Failure? {
      var chain := ChainFrom(n, next, w);
      assert chain == ChainFrom(n, next, w');
      assert chain[..|w'|] == w';
      ExpandAllPrefixFails(ctx, chain, |w'|, fuel);
    }
  }

  // ---------------------------------------------------------------- selection and the document

  /** The selection rule: no ids given, or the root's id among them. */
  predicate Selected(ids: seq<string>, id: string) {
    |ids| == 0 || id in ids
  }

  /** The roots whose thread is emitted, in order. */
  function Emitted(ctx: Context, ids: seq<string>, roots: seq<nat>): (r: seq<nat>)
    requires AllLoaded(ctx, roots)
    ensures AllLoaded(ctx, r)
  {
    if roots == [] then []
    else
      var pre := Emitted(ctx, ids, roots[..|roots| - 1]);
      var x := roots[|roots| - 1];
      if Selected(ids, ctx.tweets[x].id) then pre + [x] else pre
  }

  /** A root's thread is emitted iff no ids are given or its id is one of them. */
  lemma {:induction false} EmittedIff(ctx: Context, ids: seq<string>, roots: seq<nat>, x: nat)
    requires AllLoaded(ctx, roots)
    ensures x in Emitted(ctx, ids, roots) <==> x in roots && Selected(ids, ctx.tweets[x].id)
  {
    if roots != [] {
      var init := roots[..|roots| - 1];
      EmittedIff(ctx, ids, init, x);
      assert roots == init + [roots[|roots| - 1]];
    }
  }

  /** Emitting keeps the order of the roots and emits each of them at most once. */
  lemma {:induction false} EmittedOrder(ctx: Context, ids: seq<string>, roots: seq<nat>)
    requires AllLoaded(ctx, roots) && Chronological(ctx.tweets, roots) && Distinct(roots)
    ensures Chronological(ctx.tweets, Emitted(ctx, ids, roots)) && Distinct(Emitted(ctx, ids, roots))
  {
    if roots != [] {
      var init := roots[..|roots| - 1];
      var x := roots[|roots| - 1];
      assert AllLoaded(ctx, init) && Chronological(ctx.tweets, init) && Distinct(init);
      EmittedOrder(ctx, ids, init);
      forall y | y in Emitted(ctx, ids, init) ensures Precedes(ctx.tweets, y, x) && y != x {
        EmittedIff(ctx, ids, init, y);
        var k :| 0 <= k < |init| && init[k] == y;
        assert roots[k] == y;
      }
    }
  }

  /** The roots a thread may start from: loaded, and nobody's successor. */
  predicate ThreadRoots(ctx: Context, next: map<nat, nat>, roots: seq<nat>) {
    forall k :: 0 <= k < |roots| ==> roots[k] < |ctx.tweets| && roots[k] !in next.Values
  }

  /** The body of the document: for each selected root, its `THREAD` line and its thread. */
  function DocumentBody(ctx: Context, next: map<nat, nat>, ids: seq<string>, roots: seq<nat>, fuel: nat): Result<seq<Fragment>, RenderError>
    requires ctx.Valid() && Linkage(|ctx.tweets|, next) && ThreadRoots(ctx, next, roots)
  {
    if roots == [] then Success([])
    else
      var pre := DocumentBody(ctx, next, ids, roots[..|roots| - 1], fuel);
      var x := roots[|roots| - 1];
      if pre.Failure? || !Selected(ids, ctx.tweets[x].id) then pre
      else
        var th := ThreadHtml(ctx, Thread(ctx, next, x), fuel);
        if th.Failure? then Failure(th.error) else Success(pre.value + [ThreadItem(ctx.tweets[x].id)] + th.value)
  }

  /** The final loop over `threads`. */
  method RenderThreads(ctx: Context, next: map<nat, nat>, ids: seq<string>, threads: seq<nat>, fuel: nat) returns (r: Result<seq<Fragment>, RenderError>)
    requires ctx.Valid() && Linkage(|ctx.tweets|, next) && ThreadRoots(ctx, next, threads)
    ensures r == DocumentBody(ctx, next, ids, threads, fuel)
  {
    var out := [];
    for i := 0 to |threads|
      invariant ThreadRoots(ctx, next, threads[..i])
      invariant DocumentBody(ctx, next, ids, threads[..i], fuel) == Success(out)
    {
      DocumentStep(ctx, next, ids, threads, i, fuel, out);
      var t := threads[i];
      if |ids| == 0 || ctx.tweets[t].id in ids {
        var th := FormatThread(ctx, next, t, fuel);
        if th.Failure? {
          DocumentPrefixFails(ctx, next, ids, threads, i + 1, fuel);
          return Failure(th.error);
        }
        out := out + [ThreadItem(ctx.tweets[t].id)] + th.value;
      }
    }
    assert threads[..|threads|] == threads;
    return Success(out);
  }

  /** One step of the final loop: the next root adds its line and thread, or its failure ends the body. */
  lemma DocumentStep(ctx: Context, next: map<nat, nat>, ids: seq<string>, roots: seq<nat>, i: nat, fuel: nat,
                     acc: seq<Fragment>)
    requires ctx.Valid() && Linkage(|ctx.tweets|, next) && ThreadRoots(ctx, next, roots) && i < |roots|
    requires DocumentBody(ctx, next, ids, roots[..i], fuel) == Success(acc)
    ensures ThreadRoots(ctx, next, roots[..i + 1])
    ensures var x := roots[i];
            var th := ThreadHtml(ctx, Thread(ctx, next, x), fuel);
            DocumentBody(ctx, next, ids, roots[..i + 1], fuel)
              == if !Selected(ids, ctx.tweets[x].id) then Success(acc)
                 else if th.Failure? then Failure(th.error)
                 else Success(acc + [ThreadItem(ctx.tweets[x].id)] + th.value)
  {
    assert roots[..i + 1][..i] == roots[..i];
  }

  lemma {:induction false} DocumentPrefixFails(ctx: Context, next: map<nat, nat>, ids: seq<string>, roots: seq<nat>, k: nat, fuel: nat)
    requires ctx.Valid() && Linkage(|ctx.tweets|, next) && ThreadRoots(ctx, next, roots) && k <= |roots|
    requires DocumentBody(ctx, next, ids, roots[..k], fuel).Failure?
    ensures DocumentBody(ctx, next, ids, roots, fuel) == DocumentBody(ctx, next, ids, roots[..k], fuel)
    decreases |roots|
  {
    if k < |roots| {
      var init := roots[..|roots| - 1];
      assert init[..k] == roots[..k];
      DocumentPrefixFails(ctx, next, ids, init, k, fuel);
    } else {
      assert roots[..k] == roots;
    }
  }

  // ---------------------------------------------------------------- which threads the document holds

  /** The ids on the `THREAD` lines of some markup, in order. */
  function Items(f: seq<Fragment>): seq<string> {
    if f == [] then []
    else Items(f[..|f| - 1]) + (if f[|f| - 1].ThreadItem? then [f[|f| - 1].id] else [])
  }

  lemma {:induction false} ItemsAppend(a: seq<Fragment>, b: seq<Fragment>)
    ensures Items(a + b) == Items(a) + Items(b)
    decreases |b|
  {
    if b != [] {
      var b' := b[..|b| - 1];
      assert (a + b)[..|a + b| - 1] == a + b';
      ItemsAppend(a, b');
    } else {
      assert a + b == a;
    }
  }

  predicate NoItems(f: seq<Fragment>) {
    forall k :: 0 <= k < |f| ==> !f[k].ThreadItem?
  }

  lemma {:induction false} NoItemsNone(f: seq<Fragment>)
    requires NoItems(f)
    ensures Items(f) == []
  {
    if f != [] {
      NoItemsNone(f[..|f| - 1]);
    }
  }

  lemma LayoutNoItems(v: TweetView)
    requires !v.head.ThreadItem?
    requires v.quotes.Some? ==> NoItems(v.quotes.value)
    ensures NoItems(Layout(v))
  {
    ImgTagsElements(v.imgs);
    var q := QuotesBlock(v.quotes);
    assert NoItems(q);
    assert NoItems(Tail(v.quotes, v.permalink));
    assert NoItems(ImgsBlock(v.imgs));
  }

  /** The markup of a tweet holds no `THREAD` line, however deep its quotes go. */
  lemma {:induction false} QuotedNoItems(ctx: Context, q: Quoted)
    requires ctx.Valid() && Loaded(ctx, q)
    ensures NoItems(QuotedHtml(ctx, q))
    decreases q
  {
    var inner := ListHtml(ctx, q.quotes);
    ListNoItems(ctx, q.quotes);
    LayoutNoItems(View(ctx, q.tweet, inner));
  }

  lemma {:induction false} ListNoItems(ctx: Context, qs: seq<Quoted>)
    requires ctx.Valid() && forall k :: 0 <= k < |qs| ==> Loaded(ctx, qs[k])
    ensures NoItems(ListHtml(ctx, qs))
    decreases qs
  {
    if qs != [] {
      ListNoItems(ctx, qs[..|qs| - 1]);
      QuotedNoItems(ctx, qs[|qs| - 1]);
    }
  }

  function IdsOf(ctx: Context, hs: seq<nat>): (r: seq<string>)
    requires AllLoaded(ctx, hs)
    ensures |r| == |hs| && forall k :: 0 <= k < |hs| ==> r[k] == ctx.tweets[hs[k]].id
  {
    if hs == [] then [] else IdsOf(ctx, hs[..|hs| - 1]) + [ctx.tweets[hs[|hs| - 1]].id]
  }

  /**
   * The `THREAD` lines of the document name exactly the emitted roots, in order: one thread
   * per selected root and nothing else.
   */
  lemma {:induction false} DocumentThreads(ctx: Context, next: map<nat, nat>, ids: seq<string>, roots: seq<nat>, fuel: nat)
    requires ctx.Valid() && Linkage(|ctx.tweets|, next) && ThreadRoots(ctx, next, roots)
    requires DocumentBody(ctx, next, ids, roots, fuel).Success?
    ensures AllLoaded(ctx, roots)
    ensures Items(DocumentBody(ctx, next, ids, roots, fuel).value) == IdsOf(ctx, Emitted(ctx, ids, roots))
  {
    if roots != [] {
      var init := roots[..|roots| - 1];
      var x := roots[|roots| - 1];
      assert ThreadRoots(ctx, next, init);
      DocumentThreads(ctx, next, ids, init, fuel);
      if Selected(ids, ctx.tweets[x].id) {
        ThreadItems(ctx, next, DocumentBody(ctx, next, ids, init, fuel).value, x, fuel);
      }
    }
  }

  /** Appending a root's `THREAD` line and its thread adds exactly that root's id to the lines. */
  lemma ThreadItems(ctx: Context, next: map<nat, nat>, pre: seq<Fragment>, x: nat, fuel: nat)
    requires ctx.Valid() && Linkage(|ctx.tweets|, next) && x < |ctx.tweets| && x !in next.Values
    requires ThreadHtml(ctx, Thread(ctx, next, x), fuel).Success?
    ensures Items(pre + [ThreadItem(ctx.tweets[x].id)] + ThreadHtml(ctx, Thread(ctx, next, x), fuel).value)
              == Items(pre) + [ctx.tweets[x].id]
  {
    var e := ExpandAll(ctx, Thread(ctx, next, x), fuel);
    ListNoItems(ctx, e.value);
    var th := [ThreadOpen] + ListHtml(ctx, e.value) + [ThreadClose];
    assert NoItems(th);
    NoItemsNone(th);
    ItemsAppend(pre + [ThreadItem(ctx.tweets[x].id)], th);
    ItemsAppend(pre, [ThreadItem(ctx.tweets[x].id)]);
    assert Items([ThreadItem(ctx.tweets[x].id)]) == [ctx.tweets[x].id];
  }

  // ---------------------------------------------------------------- fuel

  /** More fuel never changes a document body that rendered. */
  lemma {:induction false} DocumentFuelMonotone(ctx: Context, next: map<nat, nat>, ids: seq<string>, roots: seq<nat>, f: nat, g: nat)
    requires ctx.Valid() && Linkage(|ctx.tweets|, next) && ThreadRoots(ctx, next, roots) && f <= g
    requires DocumentBody(ctx, next, ids, roots, f).Success?
    ensures DocumentBody(ctx, next, ids, roots, g) == DocumentBody(ctx, next, ids, roots, f)
  {
    if roots != [] {
      var init := roots[..|roots| - 1];
      var x := roots[|roots| - 1];
      assert ThreadRoots(ctx, next, init);
      DocumentFuelMonotone(ctx, next, ids, init, f, g);
      if Selected(ids, ctx.tweets[x].id) {
        FuelMonotoneAll(ctx, Thread(ctx, next, x), f, g);
      }
    }
  }

  /** Fuel above every rank renders every thread of the document body. */
  lemma {:induction false} DocumentEnoughFuel(ctx: Context, next: map<nat, nat>, ids: seq<string>, roots: seq<nat>,
                                              rank: seq<nat>, fuel: nat)
    requires ctx.Valid() && Linkage(|ctx.tweets|, next) && ThreadRoots(ctx, next, roots)
    requires QuoteRanked(ctx, rank) && forall h :: 0 <= h < |ctx.tweets| ==> rank[h] < fuel
    ensures DocumentBody(ctx, next, ids, roots, fuel).Success?
  {
    if roots != [] {
      var init := roots[..|roots| - 1];
      var x := roots[|roots| - 1];
      assert ThreadRoots(ctx, next, init);
      DocumentEnoughFuel(ctx, next, ids, init, rank, fuel);
      var chain := Thread(ctx, next, x);
      EnoughFuelAll(ctx, rank, chain, fuel);
    }
  }

  // ---------------------------------------------------------------- the whole run

  /** The roots and links the linking loop leaves over the chronological order. */
  lemma ThreadsWellFormed(tweets: seq<Tweet>, accountId: string)
    ensures var order := ChronoOrder(tweets);
            var byId := IdIndex(tweets);
            && Handles(tweets, order)
            && Linkage(|tweets|, Links(tweets, byId, accountId, order))
            && forall k :: 0 <= k < |Roots(tweets, accountId, order)| ==>
                 Roots(tweets, accountId, order)[k] < |tweets|
                 && Roots(tweets, accountId, order)[k] !in Links(tweets, byId, accountId, order).Values
  {
    var order := ChronoOrder(tweets);
    var byId := IdIndex(tweets);
    ChronoOrderIsStableSort(tweets);
    LinksFormChains(tweets, byId, accountId, order);
    var roots := Roots(tweets, accountId, order);
    forall k | 0 <= k < |roots|
      ensures roots[k] !in Links(tweets, byId, accountId, order).Values
    {
      assert roots[k] in roots;
      var j :| 0 <= j < |order| && order[j] == roots[k];
    }
  }

  /** The roots of the chronological order are exactly the loaded tweets the root test accepts. */
  lemma ChronoRoots(tweets: seq<Tweet>, accountId: string, x: nat)
    ensures var roots := Roots(tweets, accountId, ChronoOrder(tweets));
            x in roots <==> x < |tweets| && IsRoot(tweets[x], accountId)
  {
    var order := ChronoOrder(tweets);
    ChronoOrderIsStableSort(tweets);
    if x < |tweets| && IsRoot(tweets[x], accountId) {
      assert x in multiset(order);
      var k :| 0 <= k < |order| && order[k] == x;
    }
  }

  /**
   * The threads a run emits are those of the selected roots of the chronological order:
   * each once, and in the order of their dates, ties kept in input order.
   */
  lemma EmittedThreadsOrder(ctx: Context, accountId: string, ids: seq<string>)
    requires ctx.Valid()
    ensures var roots := Roots(ctx.tweets, accountId, ChronoOrder(ctx.tweets));
            && AllLoaded(ctx, roots)
            && Chronological(ctx.tweets, Emitted(ctx, ids, roots))
            && Distinct(Emitted(ctx, ids, roots))
            && forall x: nat :: x in Emitted(ctx, ids, roots) <==>
                 x < |ctx.tweets| && IsRoot(ctx.tweets[x], accountId) && Selected(ids, ctx.tweets[x].id)
  {
    var tweets := ctx.tweets;
    var order := ChronoOrder(tweets);
    ChronoOrderIsStableSort(tweets);
    SortHandlesSorts(tweets, Range(|tweets|));
    var roots := Roots(tweets, accountId, order);
    RootsChronological(tweets, accountId, order);
    RootsDistinct(tweets, accountId, order);
    EmittedOrder(ctx, ids, roots);
    forall x: nat ensures x in Emitted(ctx, ids, roots) <==>
                          x < |tweets| && IsRoot(tweets[x], accountId) && Selected(ids, tweets[x].id)
    {
      EmittedIff(ctx, ids, roots, x);
      ChronoRoots(tweets, accountId, x);
    }
  }

  /** What `formatTweet` reads during a run: the id table, the options, the account and the avatar. */
  function RunContext(tweets: seq<Tweet>, account: Account, avatarMediaUrl: string, dir: string, link: bool): (ctx: Context)
    ensures ctx.Valid() && ctx.tweets == tweets && ctx.byId == IdIndex(tweets)
  {
    Context(tweets, IdIndex(tweets), dir, link, account, AvatarPath(dir, account.accountId, avatarMediaUrl))
  }

  /**
   * What the formatter writes between `<ul>` and `</ul>` for the loaded `tweets`; `fuel`
   * bounds the nesting of self-quotes.
   */
  function Document(tweets: seq<Tweet>, account: Account, avatarMediaUrl: string, dir: string, link: bool,
                    ids: seq<string>, fuel: nat): Result<seq<Fragment>, RenderError>
  {
    ThreadsWellFormed(tweets, account.accountId);
    var order := ChronoOrder(tweets);
    var ctx := RunContext(tweets, account, avatarMediaUrl, dir, link);
    DocumentBody(ctx, Links(tweets, ctx.byId, account.accountId, order), ids, Roots(tweets, account.accountId, order), fuel)
  }

  /**
   * A document that renders at some fuel is the same at every larger fuel: it does not
   * depend on the bound, and is what the unbounded recursion of the source produces.
   */
  lemma DocumentFuelInvariant(tweets: seq<Tweet>, account: Account, avatarMediaUrl: string, dir: string, link: bool,
                              ids: seq<string>, f: nat, g: nat)
    requires f <= g && Document(tweets, account, avatarMediaUrl, dir, link, ids, f).Success?
    ensures Document(tweets, account, avatarMediaUrl, dir, link, ids, g) == Document(tweets, account, avatarMediaUrl, dir, link, ids, f)
  {
    ThreadsWellFormed(tweets, account.accountId);
    var order := ChronoOrder(tweets);
    var ctx := RunContext(tweets, account, avatarMediaUrl, dir, link);
    DocumentFuelMonotone(ctx, Links(tweets, ctx.byId, account.accountId, order), ids, Roots(tweets, account.accountId, order), f, g);
  }

  /**
   * When self-quotes never lead back to a tweet (a rank that falls along every quote),
   * fuel above every rank renders the document.
   */
  lemma DocumentRenders(tweets: seq<Tweet>, account: Account, avatarMediaUrl: string, dir: string, link: bool,
                        ids: seq<string>, rank: seq<nat>, fuel: nat)
    requires QuoteRanked(RunContext(tweets, account, avatarMediaUrl, dir, link), rank)
    requires forall h :: 0 <= h < |tweets| ==> rank[h] < fuel
    ensures Document(tweets, account, avatarMediaUrl, dir, link, ids, fuel).Success?
  {
    ThreadsWellFormed(tweets, account.accountId);
    var order := ChronoOrder(tweets);
    var ctx := RunContext(tweets, account, avatarMediaUrl, dir, link);
    DocumentEnoughFuel(ctx, Links(tweets, ctx.byId, account.accountId, order), ids, Roots(tweets, account.accountId, order), rank, fuel);
  }

  /**
   * The `THREAD` lines of a document that renders name the emitted roots, which
   * `EmittedThreadsOrder` shows are the selected roots, each once and in chronological order.
   */
  lemma DocumentThreadLines(tweets: seq<Tweet>, account: Account, avatarMediaUrl: string, dir: string, link: bool,
                            ids: seq<string>, fuel: nat)
    requires Document(tweets, account, avatarMediaUrl, dir, link, ids, fuel).Success?
    ensures var ctx := RunContext(tweets, account, avatarMediaUrl, dir, link);
            var roots := Roots(tweets, account.accountId, ChronoOrder(tweets));
            && AllLoaded(ctx, roots)
            && Items(Document(tweets, account, avatarMediaUrl, dir, link, ids, fuel).value)
                 == IdsOf(ctx, Emitted(ctx, ids, roots))
  {
    ThreadsWellFormed(tweets, account.accountId);
    var order := ChronoOrder(tweets);
    var ctx := RunContext(tweets, account, avatarMediaUrl, dir, link);
    DocumentThreads(ctx, Links(tweets, ctx.byId, account.accountId, order), ids, Roots(tweets, account.accountId, order), fuel);
  }

  /**
   * The script from the loaded archive on: the id table, the in-place sort of the tweet
   * array, the linking loop, then the threads of the selected roots.
   */
  method Run(tweets: seq<Tweet>, account: Account, avatarMediaUrl: string, dir: string, link: bool,
             ids: seq<string>, fuel: nat) returns (r: Result<seq<Fragment>, RenderError>)
    ensures r == Document(tweets, account, avatarMediaUrl, dir, link, ids, fuel)
  {
    var n := |tweets|;
    var byId := BuildById(tweets);
    var a := new nat[n];
    for i := 0 to n
      invariant forall k :: 0 <= k < i ==> a[k] == k
    {
      a[i] := i;
    }
    assert a[..] == Range(n);
    SortByDate(tweets, a);
    var order := a[..];
    SortHandlesSorts(tweets, Range(n));
    ChronologicalUnique(tweets, order, ChronoOrder(tweets));
    ThreadsWellFormed(tweets, account.accountId);
    var threads, next := BuildThreads(tweets, byId, account.accountId, order);
    var avatar := AvatarPath(dir, account.accountId, avatarMediaUrl);
    var ctx := Context(tweets, byId, dir, link, account, avatar);
    assert ctx == RunContext(tweets, account, avatarMediaUrl, dir, link);
    r := RenderThreads(ctx, next, ids, threads, fuel);
  }

  /** The archive of a root A and the account's reply B to it. */
  function TwoTweets(acc: string): seq<Tweet> {
    [Tweet("1", None, None, None, 0, "", [], []), Tweet("2", Some("1"), Some(acc), None, 1, "", [], [])]
  }

  lemma TwoTweetsIndexed(acc: string)
    ensures ChronoOrder(TwoTweets(acc)) == [0, 1]
    ensures "1" in IdIndex(TwoTweets(acc)) && IdIndex(TwoTweets(acc))["1"] == 0
  {
    var ts := TwoTweets(acc);
    assert Range(2) == [0, 1] by {
      assert Range(1) == [0];
    }
    assert [0, 1][..1] == [0];
    assert SortHandles(ts, [0]) == [0] by {
      assert [0][..0] == [];
    }
    assert Insert(ts, 1, [0]) == [0, 1] by {
      assert !Precedes(ts, 1, 0);
      assert [0][1..] == [];
    }
    assert ts[..1] == [ts[0]] && [ts[0]][..0] == [];
    assert IdIndex([ts[0]]) == map["1" := 0];
  }

  /**
   * Root A, then B, the account's reply to A: the sort keeps [A, B], A is the only root,
   * A's `.thread` slot holds B, and the thread of A is [A, B].
   */
  lemma TwoTweetThread(acc: string)
    ensures var ts := TwoTweets(acc);
            var order := ChronoOrder(ts);
            var next := Links(ts, IdIndex(ts), acc, order);
            && order == [0, 1]
            && Roots(ts, acc, order) == [0]
            && next == map[0 := 1]
            && Linkage(|ts|, next) && 0 !in next.Values
            && ThreadChain(|ts|, next, 0) == [0, 1]
  {
    var ts := TwoTweets(acc);
    TwoTweetsIndexed(acc);
    var order := ChronoOrder(ts);
    var byId := IdIndex(ts);
    assert order[..1] == [0] && order[..1][..0] == [];
    assert Roots(ts, acc, [0]) == [0];
    assert ReplyTarget(ts, byId, acc, 1) == Some(0);
    assert Links(ts, byId, acc, [0]) == map[];
    var next := Links(ts, byId, acc, order);
    assert next == map[0 := 1];
    assert forall p :: p in next ==> p == 0 && next[p] == 1;
    var r := ThreadChain(2, next, 0);
    assert r[0] == 0 && r[1] == 1;
  }
}
