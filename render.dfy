/**
 * `formatTweet`: the URL and media passes over a tweet's text, and the blocks of markup it
 * emits for one tweet, with the self-quoted tweets rendered inside. The markup is a sequence
 * of fragments, one per tag or block the formatter writes; the text that goes into the
 * tweet body is kept exactly.
 */
module Render {
  import opened JsString
  import opened Records

  /** One piece of emitted markup. */
  datatype Fragment =
    | TweetOpen(avatar: string, displayName: string, username: string, date: int, id: string)
      // `<div class='tweet'>`, the avatar and the header line
    | ReplyContext(url: string)     // the `tweet_reply` block that links the replied-to status
    | Body(text: string)            // the `tweet_body` paragraph
    | ImgsOpen                      // `<div class='tweet_imgs'>`
    | Img(src: string)              // `<img class='tweet_img' src="...">`
    | ImgsClose
    | QuotesOpen                    // `<div class='tweet_links'>`, around the self-quoted tweets
    | QuotesClose
    | Permalink(url: string)        // the `tweet_original` block
    | TweetClose
    | ThreadOpen                    // `<div class='thread'>`
    | ThreadClose
    | ThreadItem(id: string)        // the `<li> THREAD <id>` line before a thread

  /**
   * The source recurses into self-quoted tweets without a bound; here every level of
   * nesting costs one unit of fuel, and running out is an error.
   */
  datatype RenderError = QuoteDepthExceeded

  /** What `formatTweet` reads besides the tweet: the index, the options and the account. */
  datatype Context = Context(
    tweets: seq<Tweet>,
    byId: map<string, nat>,
    dir: string,
    link: bool,
    account: Account,
    avatar: string)
  {
    /** The index only names loaded tweets. */
    predicate Valid() {
      forall id :: id in byId ==> byId[id] < |tweets|
    }
  }

  // ---------------------------------------------------------------- URL pass

  /** The anchor an external URL token is replaced by. */
  function Anchor(expandedUrl: string): string {
    "<a href='" + expandedUrl + "'>" + expandedUrl + "</a>"
  }

  /**
   * The id looked up for a URL: the expanded URL minus as many leading characters as the
   * account's own status prefix has. What those characters are is not checked.
   */
  function QuoteKey(ctx: Context, expandedUrl: string): string {
    Substr(expandedUrl, |SelfStatusUrlPrefix(ctx.account.accountId)|)
  }

  /** The entity is a self-quote: its key names a loaded tweet. */
  predicate IsSelfQuote(ctx: Context, u: UrlEntity) {
    QuoteKey(ctx, u.expandedUrl) in ctx.byId
  }

  /** The state of the URL loop: the text so far, and the `links` and `selfqts` lists. */
  datatype UrlPassResult = UrlPassResult(text: string, links: seq<string>, selfQuotes: seq<nat>)

  /** One iteration of the URL loop. */
  function UrlStep(ctx: Context, acc: UrlPassResult, u: UrlEntity): UrlPassResult {
    if IsSelfQuote(ctx, u) then
      UrlPassResult(ReplaceFirst(acc.text, u.url, ""), acc.links,
                    acc.selfQuotes + [ctx.byId[QuoteKey(ctx, u.expandedUrl)]])
    else
      UrlPassResult(ReplaceFirst(acc.text, u.url, Anchor(u.expandedUrl)),
                    acc.links + [u.expandedUrl], acc.selfQuotes)
  }

  /**
   * A step deletes the first occurrence of the entity's token when the entity is a
   * self-quote and puts the anchor to its expanded URL there otherwise; a text without the
   * token is left alone.
   */
  lemma UrlStepText(ctx: Context, acc: UrlPassResult, u: UrlEntity)
    ensures Absent(acc.text, u.url) ==> UrlStep(ctx, acc, u).text == acc.text
    ensures forall i: nat :: FirstAt(acc.text, u.url, i) ==>
              UrlStep(ctx, acc, u).text
                == acc.text[..i] + (if IsSelfQuote(ctx, u) then "" else Anchor(u.expandedUrl)) + acc.text[i + |u.url|..]
  {
    ReplacesFirst(acc.text, u.url, if IsSelfQuote(ctx, u) then "" else Anchor(u.expandedUrl));
  }

  /** The URL loop over `urls`, in order, starting from `text` and empty lists. */
  function UrlPass(ctx: Context, text: string, urls: seq<UrlEntity>): UrlPassResult {
    if urls == [] then UrlPassResult(text, [], [])
    else UrlStep(ctx, UrlPass(ctx, text, urls[..|urls| - 1]), urls[|urls| - 1])
  }

  /** Reference: the tweets the self-quote entities of `urls` name, in order. */
  function SelfQuotes(ctx: Context, urls: seq<UrlEntity>): (r: seq<nat>)
    requires ctx.Valid()
    ensures forall k :: 0 <= k < |r| ==> r[k] < |ctx.tweets|
  {
    if urls == [] then []
    else
      (if IsSelfQuote(ctx, urls[0]) then [ctx.byId[QuoteKey(ctx, urls[0].expandedUrl)]] else [])
      + SelfQuotes(ctx, urls[1..])
  }

  /** Reference: the expanded URLs of the other entities of `urls`, in order. */
  function ExternalLinks(ctx: Context, urls: seq<UrlEntity>): seq<string> {
    if urls == [] then []
    else
      (if IsSelfQuote(ctx, urls[0]) then [] else [urls[0].expandedUrl])
      + ExternalLinks(ctx, urls[1..])
  }

  lemma {:induction false} SelfQuotesAppend(ctx: Context, a: seq<UrlEntity>, b: seq<UrlEntity>)
    requires ctx.Valid()
    ensures SelfQuotes(ctx, a + b) == SelfQuotes(ctx, a) + SelfQuotes(ctx, b)
    ensures ExternalLinks(ctx, a + b) == ExternalLinks(ctx, a) + ExternalLinks(ctx, b)
  {
    if a != [] {
      assert (a + b)[0] == a[0] && (a + b)[1..] == a[1..] + b;
      SelfQuotesAppend(ctx, a[1..], b);
    } else {
      assert a + b == b;
    }
  }

  /**
   * Every URL entity lands in exactly one of the two lists: `selfqts` holds the tweets of the
   * self-quotes and `links` the expanded URLs of the rest, both in entity order.
   */
  lemma {:induction false} UrlPassClassifies(ctx: Context, text: string, urls: seq<UrlEntity>)
    requires ctx.Valid()
    ensures UrlPass(ctx, text, urls).selfQuotes == SelfQuotes(ctx, urls)
    ensures UrlPass(ctx, text, urls).links == ExternalLinks(ctx, urls)
    ensures |SelfQuotes(ctx, urls)| + |ExternalLinks(ctx, urls)| == |urls|
  {
    if urls != [] {
      var init := urls[..|urls| - 1];
      var u := urls[|urls| - 1];
      UrlPassClassifies(ctx, text, init);
      assert urls == init + [u];
      SelfQuotesAppend(ctx, init, [u]);
      assert [u][1..] == [];
    }
  }

  /** A URL whose key names a loaded tweet is a self-quote, wherever that URL points. */
  lemma SelfQuoteIgnoresPrefix()
    ensures var ctx := Context([], map["42" := 0], "", false, Account("alice", "Alice", "alice"), "");
            IsSelfQuote(ctx, UrlEntity("t.co/q", "https://twitter.com/bobby/status/42"))
  {
    var ctx := Context([], map["42" := 0], "", false, Account("alice", "Alice", "alice"), "");
    var e := "https://twitter.com/bobby/status/42";
    assert |SelfStatusUrlPrefix("alice")| == 33;
    assert e[33..] == "42";
  }

  // ---------------------------------------------------------------- media pass

  /** The file a media entity is shown from: its URL minus the media prefix's length. */
  function MediaPath(ctx: Context, id: string, mediaUrl: string): string {
    ctx.dir + "/data/tweets_media/" + id + "-" + Substr(mediaUrl, |MEDIA_URL_PREFIX|)
  }

  /** The state of the media loop: the text so far and the `imgs` list. */
  datatype MediaPassResult = MediaPassResult(text: string, imgs: seq<string>)

  /** One iteration of the media loop. */
  function MediaStep(ctx: Context, id: string, acc: MediaPassResult, m: MediaEntity): MediaPassResult {
    MediaPassResult(ReplaceFirst(acc.text, m.url, ""), acc.imgs + [MediaPath(ctx, id, m.mediaUrl)])
  }

  /** A step deletes the first occurrence of the entity's token; a text without it is left alone. */
  lemma MediaStepText(ctx: Context, id: string, acc: MediaPassResult, m: MediaEntity)
    ensures Absent(acc.text, m.url) ==> MediaStep(ctx, id, acc, m).text == acc.text
    ensures forall i: nat :: FirstAt(acc.text, m.url, i) ==>
              MediaStep(ctx, id, acc, m).text == acc.text[..i] + acc.text[i + |m.url|..]
  {
    ReplacesFirst(acc.text, m.url, "");
  }

  /** The media loop over `media`, in order: one path per entity, its token deleted. */
  function MediaPass(ctx: Context, id: string, text: string, media: seq<MediaEntity>): MediaPassResult {
    if media == [] then MediaPassResult(text, [])
    else MediaStep(ctx, id, MediaPass(ctx, id, text, media[..|media| - 1]), media[|media| - 1])
  }

  /** `imgs` holds one path per media entity, in entity order. */
  lemma {:induction false} MediaPassPaths(ctx: Context, id: string, text: string, media: seq<MediaEntity>)
    ensures var imgs := MediaPass(ctx, id, text, media).imgs;
            && |imgs| == |media|
            && forall k :: 0 <= k < |media| ==> imgs[k] == MediaPath(ctx, id, media[k].mediaUrl)
  {
    if media != [] {
      MediaPassPaths(ctx, id, text, media[..|media| - 1]);
    }
  }

  /**
   * For a media URL under the media prefix, the file's name is the tweet id, a dash and the
   * file name of the URL.
   */
  lemma MediaFileName(ctx: Context, id: string, file: string)
    requires '/' !in id && '/' !in file
    ensures LastSegment(MediaPath(ctx, id, MEDIA_URL_PREFIX + file)) == id + "-" + file
  {
    var p := ctx.dir + "/data/tweets_media/";
    assert Substr(MEDIA_URL_PREFIX + file, |MEDIA_URL_PREFIX|) == file;
    assert MediaPath(ctx, id, MEDIA_URL_PREFIX + file) == p + id + "-" + file;
    AvatarFileName(p, id, file);
  }

  /** The prefix is not checked: an https media URL keeps a '/' of its own in the file part. */
  lemma MediaPathIgnoresPrefix(ctx: Context)
    ensures MediaPath(ctx, "7", "https://pbs.twimg.com/media/x.jpg") == ctx.dir + "/data/tweets_media/7-/x.jpg"
  {
    var u := "https://pbs.twimg.com/media/x.jpg";
    assert |MEDIA_URL_PREFIX| == 27;
    assert u[27..] == "/x.jpg";
  }

  // ---------------------------------------------------------------- layout of one tweet

  /** The blocks of one tweet, as they are laid out. */
  datatype TweetView = TweetView(
    head: Fragment,
    reply: Option<string>,
    body: string,
    imgs: seq<string>,
    quotes: Option<seq<Fragment>>,
    permalink: Option<string>)

  function ImgTags(imgs: seq<string>): (r: seq<Fragment>)
    ensures |r| == |imgs|
  {
    if imgs == [] then [] else [Img(imgs[0])] + ImgTags(imgs[1..])
  }

  /** One `tweet_img` tag per path, in order. */
  lemma {:induction false} ImgTagsElements(imgs: seq<string>)
    ensures forall k :: 0 <= k < |imgs| ==> ImgTags(imgs)[k] == Img(imgs[k])
  {
    if imgs != [] {
      ImgTagsElements(imgs[1..]);
      assert forall k :: 1 <= k < |imgs| ==> ImgTags(imgs)[k] == ImgTags(imgs[1..])[k - 1];
    }
  }

  lemma {:induction false} ImgTagsSnoc(imgs: seq<string>, x: string)
    ensures ImgTags(imgs + [x]) == ImgTags(imgs) + [Img(x)]
  {
    if imgs != [] {
      assert (imgs + [x])[0] == imgs[0] && (imgs + [x])[1..] == imgs[1..] + [x];
      ImgTagsSnoc(imgs[1..], x);
    } else {
      assert imgs + [x] == [x];
    }
  }

  /** The `tweet_imgs` block: present only when there is an image. */
  function ImgsBlock(imgs: seq<string>): seq<Fragment> {
    if imgs == [] then [] else [ImgsOpen] + ImgTags(imgs) + [ImgsClose]
  }

  /** The `tweet_reply` block: present only for a reply whose parent is not loaded. */
  function ReplyBlockOf(reply: Option<string>): seq<Fragment> {
    if reply.Some? then [ReplyContext(reply.value)] else []
  }

  function QuotesBlock(quotes: Option<seq<Fragment>>): seq<Fragment> {
    if quotes.Some? then [QuotesOpen] + quotes.value + [QuotesClose] else []
  }

  function PermalinkBlockOf(permalink: Option<string>): seq<Fragment> {
    if permalink.Some? then [Permalink(permalink.value)] else []
  }

  /** What follows the images: the quotes block, the permalink and the closing tag. */
  function Tail(quotes: Option<seq<Fragment>>, permalink: Option<string>): seq<Fragment> {
    QuotesBlock(quotes) + (PermalinkBlockOf(permalink) + [TweetClose])
  }

  /** The fragments of a tweet, block after block in the order `formatTweet` appends them. */
  function Layout(v: TweetView): seq<Fragment> {
    [v.head] + (ReplyBlockOf(v.reply) + ([Body(v.body)] + (ImgsBlock(v.imgs) + Tail(v.quotes, v.permalink))))
  }

  // Reading the layout back.

  function ReadTags(f: seq<Fragment>): (r: (seq<string>, seq<Fragment>))
    ensures |r.1| <= |f|
  {
    if f != [] && f[0].Img? then
      var (imgs, rest) := ReadTags(f[1..]);
      ([f[0].src] + imgs, rest)
    else ([], f)
  }

  function ReadImgs(f: seq<Fragment>): Option<(seq<string>, seq<Fragment>)> {
    if f != [] && f[0] == ImgsOpen then
      var (imgs, rest) := ReadTags(f[1..]);
      if rest != [] && rest[0] == ImgsClose then Some((imgs, rest[1..])) else None
    else Some(([], f))
  }

  /** The end of a tweet: the quotes block, the permalink and the closing tag. */
  function ReadTail(f: seq<Fragment>): Option<(Option<seq<Fragment>>, Option<string>)> {
    if f == [] || f[|f| - 1] != TweetClose then None
    else
      var g := f[..|f| - 1];
      var perm := if g != [] && g[|g| - 1].Permalink? then Some(g[|g| - 1].url) else None;
      var q := if perm.Some? then g[..|g| - 1] else g;
      if q == [] then Some((None, perm))
      else if |q| >= 2 && q[0] == QuotesOpen && q[|q| - 1] == QuotesClose then Some((Some(q[1..|q| - 1]), perm))
      else None
  }

  function ReadAfterBody(head: Fragment, reply: Option<string>, body: string, f: seq<Fragment>): Option<TweetView> {
    var imgs := ReadImgs(f);
    if imgs.None? then None
    else
      var tail := ReadTail(imgs.value.1);
      if tail.None? then None
      else Some(TweetView(head, reply, body, imgs.value.0, tail.value.0, tail.value.1))
  }

  function ReadAfterReply(head: Fragment, reply: Option<string>, f: seq<Fragment>): Option<TweetView> {
    if f == [] || !f[0].Body? then None else ReadAfterBody(head, reply, f[0].text, f[1..])
  }

  function ReadAfterHead(head: Fragment, f: seq<Fragment>): Option<TweetView> {
    if f != [] && f[0].ReplyContext? then ReadAfterReply(head, Some(f[0].url), f[1..])
    else ReadAfterReply(head, None, f)
  }

  /** Reads the blocks of a tweet back from its fragments. */
  function ReadTweet(f: seq<Fragment>): Option<TweetView> {
    if f == [] || !f[0].TweetOpen? then None else ReadAfterHead(f[0], f[1..])
  }

  lemma {:induction false} ReadTagsOf(imgs: seq<string>, rest: seq<Fragment>)
    requires rest == [] || !rest[0].Img?
    ensures ReadTags(ImgTags(imgs) + rest) == (imgs, rest)
  {
    if imgs != [] {
      var f := ImgTags(imgs) + rest;
      assert f[0] == Img(imgs[0]);
      assert f[1..] == ImgTags(imgs[1..]) + rest;
      ReadTagsOf(imgs[1..], rest);
      assert [imgs[0]] + imgs[1..] == imgs;
    } else {
      assert ImgTags(imgs) + rest == rest;
    }
  }

  lemma ReadImgsOf(imgs: seq<string>, rest: seq<Fragment>)
    requires rest == [] || (rest[0] != ImgsOpen && !rest[0].Img?)
    ensures ReadImgs(ImgsBlock(imgs) + rest) == Some((imgs, rest))
  {
    if imgs != [] {
      ReadImgsPresent(imgs, rest);
    } else {
      assert ImgsBlock(imgs) + rest == rest;
    }
  }

  lemma ReadImgsPresent(imgs: seq<string>, rest: seq<Fragment>)
    requires imgs != [] && (rest == [] || !rest[0].Img?)
    ensures ReadImgs(ImgsBlock(imgs) + rest) == Some((imgs, rest))
  {
    var c := [ImgsClose] + rest;
    var f := [ImgsOpen] + (ImgTags(imgs) + c);
    assert ImgsBlock(imgs) + rest == f;
    assert f[1..] == ImgTags(imgs) + c;
    assert f != [] && f[0] == ImgsOpen;
    ReadTagsOf(imgs, c);
    assert ReadTags(f[1..]) == (imgs, c);
    assert c != [] && c[0] == ImgsClose && c[1..] == rest;
  }

  /** The quotes block is empty exactly when there are no quotes, and is bracketed otherwise. */
  lemma QuotesBlockShape(quotes: Option<seq<Fragment>>)
    ensures var q := QuotesBlock(quotes);
            && (quotes.None? ==> q == [])
            && (quotes.Some? ==> |q| >= 2 && q[0] == QuotesOpen && q[|q| - 1] == QuotesClose && q[1..|q| - 1] == quotes.value)
  {
    if quotes.Some? {
      var q := QuotesBlock(quotes);
      assert q[1..|q| - 1] == quotes.value;
    }
  }

  lemma ReadTailOf(quotes: Option<seq<Fragment>>, perm: Option<string>)
    ensures ReadTail(Tail(quotes, perm)) == Some((quotes, perm))
  {
    QuotesBlockShape(quotes);
    if perm.Some? {
      ReadTailLinked(quotes, perm.value);
    } else {
      ReadTailUnlinked(quotes);
    }
  }

  lemma ReadTailLinked(quotes: Option<seq<Fragment>>, url: string)
    requires QuotesBlock(quotes) == [] || QuotesBlock(quotes)[|QuotesBlock(quotes)| - 1] == QuotesClose
    ensures ReadTail(Tail(quotes, Some(url))) == Some((quotes, Some(url)))
  {
    var q := QuotesBlock(quotes);
    var g := q + [Permalink(url)];
    var f := Tail(quotes, Some(url));
    assert f == g + [TweetClose];
    assert f[..|f| - 1] == g;
    assert g[..|g| - 1] == q;
    QuotesBlockShape(quotes);
  }

  lemma ReadTailUnlinked(quotes: Option<seq<Fragment>>)
    requires QuotesBlock(quotes) == [] || QuotesBlock(quotes)[|QuotesBlock(quotes)| - 1] == QuotesClose
    ensures ReadTail(Tail(quotes, None)) == Some((quotes, None))
  {
    var q := QuotesBlock(quotes);
    var f := Tail(quotes, None);
    assert f == q + [TweetClose];
    assert f[..|f| - 1] == q;
    QuotesBlockShape(quotes);
  }

  lemma ReadAfterBodyOf(head: Fragment, v: TweetView)
    requires head == v.head
    ensures ReadAfterBody(head, v.reply, v.body, ImgsBlock(v.imgs) + Tail(v.quotes, v.permalink)) == Some(v)
  {
    var tail := Tail(v.quotes, v.permalink);
    ReadTailOf(v.quotes, v.permalink);
    assert tail == [] || (tail[0] != ImgsOpen && !tail[0].Img?);
    ReadImgsOf(v.imgs, tail);
  }

  /** The layout is read back exactly: every block of a tweet can be told from its fragments. */
  lemma ReadLayout(v: TweetView)
    requires v.head.TweetOpen?
    ensures ReadTweet(Layout(v)) == Some(v)
  {
    var fb := [Body(v.body)] + (ImgsBlock(v.imgs) + Tail(v.quotes, v.permalink));
    var fr := ReplyBlockOf(v.reply) + fb;
    assert Layout(v)[1..] == fr;
    assert fb[1..] == ImgsBlock(v.imgs) + Tail(v.quotes, v.permalink);
    ReadAfterBodyOf(v.head, v);
    if v.reply.Some? {
      assert fr[1..] == fb;
    } else {
      assert fr == fb;
    }
  }

  // ---------------------------------------------------------------- one tweet, quotes inside

  /** The status a reply points at, as the `tweet_reply` block links it. */
  function ReplyUrl(t: Tweet): string
    requires t.replyToStatus.Some?
  {
    "https://twitter.com/" + AsText(t.replyToScreenName) + "/status/" + t.replyToStatus.value
  }

  /** `formatTweet`'s reply condition: a reply whose parent is not in the index. */
  predicate HasReplyBlock(ctx: Context, t: Tweet) {
    t.replyToStatus.Some? && t.replyToStatus.value !in ctx.byId
  }

  /** The tweets `h` quotes, in the order of its URL entities. */
  function Quotes(ctx: Context, h: nat): (r: seq<nat>)
    requires ctx.Valid() && h < |ctx.tweets|
    ensures forall k :: 0 <= k < |r| ==> r[k] < |ctx.tweets|
  {
    SelfQuotes(ctx, ctx.tweets[h].urls)
  }

  /**
   * The blocks of tweet `t`, given the text and the image paths the two passes left, whether
   * it quotes any tweet, and the markup of the tweets it quotes.
   */
  function Blocks(ctx: Context, t: Tweet, text: string, imgs: seq<string>, quotes: bool, quotesHtml: seq<Fragment>): TweetView {
    TweetView(
      TweetOpen(ctx.avatar, ctx.account.displayName, ctx.account.username, t.date, t.id),
      if HasReplyBlock(ctx, t) then Some(ReplyUrl(t)) else None,
      text,
      imgs,
      if quotes then Some(quotesHtml) else None,
      if ctx.link then Some(SelfStatusUrlPrefix(ctx.account.accountId) + t.id) else None)
  }

  /** The blocks of tweet `h`, given the markup of the tweets it quotes. */
  function View(ctx: Context, h: nat, quotesHtml: seq<Fragment>): TweetView
    requires ctx.Valid() && h < |ctx.tweets|
  {
    var t := ctx.tweets[h];
    var m := MediaPass(ctx, t.id, UrlPass(ctx, t.fullText, t.urls).text, t.media);
    Blocks(ctx, t, m.text, m.imgs, Quotes(ctx, h) != [], quotesHtml)
  }

  predicate AllLoaded(ctx: Context, hs: seq<nat>) {
    forall k :: 0 <= k < |hs| ==> hs[k] < |ctx.tweets|
  }

  // ---------------------------------------------------------------- self-quote expansion

  /** A tweet together with the tweets it quotes, each expanded in turn. */
  datatype Quoted = Quoted(tweet: nat, quotes: seq<Quoted>)

  predicate Loaded(ctx: Context, q: Quoted)
    decreases q
  {
    q.tweet < |ctx.tweets| && forall k :: 0 <= k < |q.quotes| ==> Loaded(ctx, q.quotes[k])
  }

  /**
   * The recursion of `formatTweet` into self-quotes, `fuel` levels deep: tweet `h` with the
   * expansion of each tweet it quotes, or an error when a chain of quotes is deeper.
   */
  function Expand(ctx: Context, h: nat, fuel: nat): (r: Result<Quoted, RenderError>)
    requires ctx.Valid() && h < |ctx.tweets|
    ensures r.Success? ==> r.value.tweet == h && Loaded(ctx, r.value)
    decreases fuel, 0
  {
    if fuel == 0 then Failure(QuoteDepthExceeded)
    else
      var qs := ExpandAll(ctx, Quotes(ctx, h), fuel - 1);
      if qs.Failure? then Failure(qs.error) else Success(Quoted(h, qs.value))
  }

  /** The expansions of the tweets `hs`, in order; the first failure is the result. */
  function ExpandAll(ctx: Context, hs: seq<nat>, fuel: nat): (r: Result<seq<Quoted>, RenderError>)
    requires ctx.Valid() && AllLoaded(ctx, hs)
    ensures r.Success? ==> |r.value| == |hs|
    ensures r.Success? ==> forall k :: 0 <= k < |hs| ==> r.value[k].tweet == hs[k] && Loaded(ctx, r.value[k])
    decreases fuel, 1, |hs|
  {
    if hs == [] then Success([])
    else
      var pre := ExpandAll(ctx, hs[..|hs| - 1], fuel);
      if pre.Failure? then pre
      else
        var last := Expand(ctx, hs[|hs| - 1], fuel);
        if last.Failure? then Failure(last.error) else Success(pre.value + [last.value])
  }

  /** The markup of an expanded tweet, the markup of its quoted tweets inside. */
  function QuotedHtml(ctx: Context, q: Quoted): seq<Fragment>
    requires ctx.Valid() && Loaded(ctx, q)
    decreases q
  {
    Layout(View(ctx, q.tweet, ListHtml(ctx, q.quotes)))
  }

  function ListHtml(ctx: Context, qs: seq<Quoted>): seq<Fragment>
    requires ctx.Valid() && forall k :: 0 <= k < |qs| ==> Loaded(ctx, qs[k])
    decreases qs
  {
    if qs == [] then [] else ListHtml(ctx, qs[..|qs| - 1]) + QuotedHtml(ctx, qs[|qs| - 1])
  }

  /** `formatTweet(t)` with `fuel` levels of self-quote nesting allowed. */
  function TweetHtml(ctx: Context, h: nat, fuel: nat): Result<seq<Fragment>, RenderError>
    requires ctx.Valid() && h < |ctx.tweets|
  {
    var e := Expand(ctx, h, fuel);
    if e.Failure? then Failure(e.error) else Success(QuotedHtml(ctx, e.value))
  }

  /** The markup of the tweets `hs`, one after the other. */
  function TweetsHtml(ctx: Context, hs: seq<nat>, fuel: nat): Result<seq<Fragment>, RenderError>
    requires ctx.Valid() && AllLoaded(ctx, hs)
  {
    var e := ExpandAll(ctx, hs, fuel);
    if e.Failure? then Failure(e.error) else Success(ListHtml(ctx, e.value))
  }

  /**
   * The recursion equation of `formatTweet`: a tweet's markup is its layout around the
   * markup of the tweets it quotes, one level of fuel lower.
   */
  lemma TweetHtmlStep(ctx: Context, h: nat, fuel: nat)
    requires ctx.Valid() && h < |ctx.tweets| && fuel > 0
    ensures var inner := TweetsHtml(ctx, Quotes(ctx, h), fuel - 1);
            TweetHtml(ctx, h, fuel) == if inner.Failure? then Failure(inner.error) else Success(Layout(View(ctx, h, inner.value)))
  {
  }

  /** Appending one tweet to a list appends its markup, or fails the way the list or it fails. */
  lemma TweetsHtmlSnoc(ctx: Context, hs: seq<nat>, x: nat, fuel: nat)
    requires ctx.Valid() && AllLoaded(ctx, hs) && x < |ctx.tweets|
    ensures AllLoaded(ctx, hs + [x])
    ensures var pre := TweetsHtml(ctx, hs, fuel);
            var last := TweetHtml(ctx, x, fuel);
            TweetsHtml(ctx, hs + [x], fuel)
              == if pre.Failure? then pre else if last.Failure? then last else Success(pre.value + last.value)
  {
    var s := hs + [x];
    assert s[..|s| - 1] == hs && s[|s| - 1] == x;
    var e := ExpandAll(ctx, hs, fuel);
    if e.Success? && Expand(ctx, x, fuel).Success? {
      var es := e.value + [Expand(ctx, x, fuel).value];
      assert es[..|es| - 1] == e.value;
    }
  }

  /**
   * What the blocks of a rendered tweet hold. The header names the account and the tweet;
   * the reply block appears iff the tweet replies to a status that is not loaded; the body is
   * the text after both passes; there is one image per media entity, at the path derived
   * from it; the quotes block appears iff a URL entity is a self-quote, and holds the
   * quoted tweets one level deeper; the permalink appears iff `link` is set.
   */
  lemma TweetBlocks(ctx: Context, h: nat, fuel: nat)
    requires ctx.Valid() && h < |ctx.tweets|
    requires TweetHtml(ctx, h, fuel).Success?
    ensures fuel > 0
    ensures var t := ctx.tweets[h];
            var r := ReadTweet(TweetHtml(ctx, h, fuel).value);
            && r.Some?
            && r.value.head == TweetOpen(ctx.avatar, ctx.account.displayName, ctx.account.username, t.date, t.id)
            && (r.value.reply.Some? <==> HasReplyBlock(ctx, t))
            && (r.value.reply.Some? ==> r.value.reply.value == ReplyUrl(t))
            && r.value.body == MediaPass(ctx, t.id, UrlPass(ctx, t.fullText, t.urls).text, t.media).text
            && |r.value.imgs| == |t.media|
            && (forall k :: 0 <= k < |t.media| ==> r.value.imgs[k] == MediaPath(ctx, t.id, t.media[k].mediaUrl))
            && (r.value.quotes.Some? <==> SelfQuotes(ctx, t.urls) != [])
            && (r.value.quotes.Some? ==> TweetsHtml(ctx, SelfQuotes(ctx, t.urls), fuel - 1) == Success(r.value.quotes.value))
            && (r.value.permalink.Some? <==> ctx.link)
            && (r.value.permalink.Some? ==> r.value.permalink.value == SelfStatusUrlPrefix(ctx.account.accountId) + t.id)
  {
    var t := ctx.tweets[h];
    TweetHtmlStep(ctx, h, fuel);
    MediaPassPaths(ctx, t.id, UrlPass(ctx, t.fullText, t.urls).text, t.media);
    var inner := TweetsHtml(ctx, Quotes(ctx, h), fuel - 1);
    ReadLayout(View(ctx, h, inner.value));
  }

  /** Once the expansion of a prefix of `hs` fails, so does that of all of `hs`, alike. */
  lemma {:induction false} ExpandAllPrefixFails(ctx: Context, hs: seq<nat>, k: nat, fuel: nat)
    requires ctx.Valid() && AllLoaded(ctx, hs) && k <= |hs|
    requires ExpandAll(ctx, hs[..k], fuel).Failure?
    ensures ExpandAll(ctx, hs, fuel).Failure? && ExpandAll(ctx, hs, fuel).error == ExpandAll(ctx, hs[..k], fuel).error
    decreases |hs|
  {
    if k < |hs| {
      var init := hs[..|hs| - 1];
      assert init[..k] == hs[..k];
      ExpandAllPrefixFails(ctx, init, k, fuel);
    } else {
      assert hs[..k] == hs;
    }
  }

  /** One tweet whose expansion fails makes the expansion of the whole list fail. */
  lemma {:induction false} ExpandAllMemberFails(ctx: Context, hs: seq<nat>, k: nat, fuel: nat)
    requires ctx.Valid() && AllLoaded(ctx, hs) && k < |hs|
    requires Expand(ctx, hs[k], fuel).Failure?
    ensures ExpandAll(ctx, hs, fuel).Failure?
    decreases |hs|
  {
    if k < |hs| - 1 {
      var init := hs[..|hs| - 1];
      assert init[k] == hs[k];
      ExpandAllMemberFails(ctx, init, k, fuel);
    }
  }

  /** More fuel never changes an expansion that succeeded, so neither the markup. */
  lemma {:induction false} FuelMonotone(ctx: Context, h: nat, f: nat, g: nat)
    requires ctx.Valid() && h < |ctx.tweets| && f <= g
    requires Expand(ctx, h, f).Success?
    ensures Expand(ctx, h, g) == Expand(ctx, h, f)
    ensures TweetHtml(ctx, h, g) == TweetHtml(ctx, h, f)
    decreases f, 0
  {
    FuelMonotoneAll(ctx, Quotes(ctx, h), f - 1, g - 1);
  }

  lemma {:induction false} FuelMonotoneAll(ctx: Context, hs: seq<nat>, f: nat, g: nat)
    requires ctx.Valid() && AllLoaded(ctx, hs) && f <= g
    requires ExpandAll(ctx, hs, f).Success?
    ensures ExpandAll(ctx, hs, g) == ExpandAll(ctx, hs, f)
    decreases f, 1, |hs|
  {
    if hs != [] {
      FuelMonotoneAll(ctx, hs[..|hs| - 1], f, g);
      FuelMonotone(ctx, hs[|hs| - 1], f, g);
    }
  }

  /**
   * A tweet that quotes itself cannot be rendered with any amount of fuel: this is the
   * source's unbounded recursion.
   */
  lemma {:induction false} SelfQuoteDiverges(ctx: Context, h: nat, fuel: nat)
    requires ctx.Valid() && h < |ctx.tweets|
    requires h in multiset(Quotes(ctx, h))
    ensures Expand(ctx, h, fuel).Failure?
    ensures TweetHtml(ctx, h, fuel).Failure?
  {
    if fuel > 0 {
      var qs := Quotes(ctx, h);
      var k :| 0 <= k < |qs| && qs[k] == h;
      SelfQuoteDiverges(ctx, h, fuel - 1);
      ExpandAllMemberFails(ctx, qs, k, fuel - 1);
    }
  }

  /** `rank` strictly decreases from every tweet to each tweet it quotes. */
  predicate QuoteRanked(ctx: Context, rank: seq<nat>)
    requires ctx.Valid()
  {
    && |rank| == |ctx.tweets|
    && forall x, k :: 0 <= x < |ctx.tweets| && 0 <= k < |Quotes(ctx, x)| ==> rank[Quotes(ctx, x)[k]] < rank[x]
  }

  /** When self-quotes never lead back to a tweet, fuel above a tweet's rank suffices. */
  lemma {:induction false} EnoughFuel(ctx: Context, rank: seq<nat>, h: nat, fuel: nat)
    requires ctx.Valid() && QuoteRanked(ctx, rank) && h < |ctx.tweets| && rank[h] < fuel
    ensures Expand(ctx, h, fuel).Success?
    ensures TweetHtml(ctx, h, fuel).Success?
    decreases fuel, 0
  {
    var qs := Quotes(ctx, h);
    assert forall k :: 0 <= k < |qs| ==> rank[qs[k]] < fuel - 1;
    EnoughFuelAll(ctx, rank, qs, fuel - 1);
  }

  lemma {:induction false} EnoughFuelAll(ctx: Context, rank: seq<nat>, hs: seq<nat>, fuel: nat)
    requires ctx.Valid() && QuoteRanked(ctx, rank) && AllLoaded(ctx, hs)
    requires forall k :: 0 <= k < |hs| ==> rank[hs[k]] < fuel
    ensures ExpandAll(ctx, hs, fuel).Success?
    decreases fuel, 1, |hs|
  {
    if hs != [] {
      EnoughFuelAll(ctx, rank, hs[..|hs| - 1], fuel);
      EnoughFuel(ctx, rank, hs[|hs| - 1], fuel);
    }
  }

  // ---------------------------------------------------------------- the formatter's loops

  /** The URL loop of `formatTweet`. */
  method RewriteUrls(ctx: Context, text: string, urls: seq<UrlEntity>) returns (r: UrlPassResult)
    ensures r == UrlPass(ctx, text, urls)
  {
    var s, links, selfqts := text, [], [];
    for i := 0 to |urls|
      invariant UrlPassResult(s, links, selfqts) == UrlPass(ctx, text, urls[..i])
    {
      var u := urls[i];
      var key := Substr(u.expandedUrl, |SelfStatusUrlPrefix(ctx.account.accountId)|);
      if key in ctx.byId {
        selfqts := selfqts + [ctx.byId[key]];
        s := ReplaceFirst(s, u.url, "");
      } else {
        links := links + [u.expandedUrl];
        s := ReplaceFirst(s, u.url, Anchor(u.expandedUrl));
      }
      assert urls[..i + 1][..i] == urls[..i];
    }
    assert urls[..|urls|] == urls;
    r := UrlPassResult(s, links, selfqts);
  }

  /** The media loop of `formatTweet`. */
  method RewriteMedia(ctx: Context, id: string, text: string, media: seq<MediaEntity>) returns (r: MediaPassResult)
    ensures r == MediaPass(ctx, id, text, media)
  {
    var s, imgs := text, [];
    for i := 0 to |media|
      invariant MediaPassResult(s, imgs) == MediaPass(ctx, id, text, media[..i])
    {
      imgs := imgs + [ctx.dir + "/data/tweets_media/" + id + "-" + Substr(media[i].mediaUrl, |MEDIA_URL_PREFIX|)];
      s := ReplaceFirst(s, media[i].url, "");
      assert media[..i + 1][..i] == media[..i];
    }
    assert media[..|media|] == media;
    r := MediaPassResult(s, imgs);
  }

  /**
   * `formatTweet(t)`: the passes over the text, the self-quoted tweets one level deeper,
   * then the blocks. The source renders the quoted tweets while appending the blocks; the
   * result does not depend on that order.
   */
  method FormatTweet(ctx: Context, h: nat, fuel: nat) returns (r: Result<seq<Fragment>, RenderError>)
    requires ctx.Valid() && h < |ctx.tweets|
    ensures r == TweetHtml(ctx, h, fuel)
    decreases fuel, 0
  {
    if fuel == 0 {
      return Failure(QuoteDepthExceeded);
    }
    TweetHtmlStep(ctx, h, fuel);
    var t := ctx.tweets[h];
    var u := RewriteUrls(ctx, t.fullText, t.urls);
    UrlPassClassifies(ctx, t.fullText, t.urls);
    var m := RewriteMedia(ctx, t.id, u.text, t.media);
    assert u.selfQuotes == Quotes(ctx, h);
    var inner := Success([]);
    if |u.selfQuotes| > 0 {
      inner := FormatQuotes(ctx, u.selfQuotes, fuel - 1);
    }
    assert inner == TweetsHtml(ctx, Quotes(ctx, h), fuel - 1);
    if inner.Failure? {
      return Failure(inner.error);
    }
    var v := Blocks(ctx, t, m.text, m.imgs, |u.selfQuotes| > 0, inner.value);
    assert v == View(ctx, h, inner.value);
    var str := EmitTweet(v);
    return Success(str);
  }

  /** The appends that build `str` from the blocks of a tweet. */
  method EmitTweet(v: TweetView) returns (str: seq<Fragment>)
    ensures str == Layout(v)
  {
    var reply := if v.reply.Some? then [ReplyContext(v.reply.value)] else [];
    var imgs := ImgsMarkup(v.imgs);
    var quotes := if v.quotes.Some? then [QuotesOpen] + v.quotes.value + [QuotesClose] else [];
    var permalink := if v.permalink.Some? then [Permalink(v.permalink.value)] else [];
    str := [v.head] + (reply + ([Body(v.body)] + (imgs + (quotes + (permalink + [TweetClose])))));
  }

  /** The `tweet_imgs` block: the opening tag, one tag per image, the closing tag. */
  method ImgsMarkup(imgs: seq<string>) returns (block: seq<Fragment>)
    ensures block == ImgsBlock(imgs)
  {
    block := [];
    if |imgs| > 0 {
      var tags: seq<Fragment> := [];
      ghost var done: seq<string> := [];
      for i := 0 to |imgs|
        invariant done == imgs[..i]
        invariant tags == ImgTags(done)
      {
        ImgTagsSnoc(done, imgs[i]);
        tags := tags + [Img(imgs[i])];
        done := done + [imgs[i]];
      }
      assert done == imgs;
      block := [ImgsOpen] + tags + [ImgsClose];
    }
  }

  /** The loop over `selfqts` that appends the markup of each quoted tweet. */
  method FormatQuotes(ctx: Context, hs: seq<nat>, fuel: nat) returns (r: Result<seq<Fragment>, RenderError>)
    requires ctx.Valid() && AllLoaded(ctx, hs)
    ensures r == TweetsHtml(ctx, hs, fuel)
    decreases fuel, 1
  {
    var acc := [];
    ghost var done: seq<nat> := [];
    for i := 0 to |hs|
      invariant done == hs[..i] && AllLoaded(ctx, done)
      invariant TweetsHtml(ctx, done, fuel) == Success(acc)
    {
      TweetsHtmlSnoc(ctx, done, hs[i], fuel);
      var q := FormatTweet(ctx, hs[i], fuel);
      if q.Failure? {
        assert done + [hs[i]] == hs[..i + 1];
        ExpandAllPrefixFails(ctx, hs, i + 1, fuel);
        return Failure(q.error);
      }
      acc := acc + q.value;
      done := done + [hs[i]];
    }
    assert done == hs;
    return Success(acc);
  }

  // ---------------------------------------------------------------- the text of the markup

  /**
   * The text a fragment stands for, as the formatter writes it; `showDate` is the date's
   * `toDateString()`. `ThreadItem` and `ThreadClose` end with the line break their
   * `console.log` adds.
   */
  function Markup(f: Fragment, showDate: int -> string): string {
    match f
    case TweetOpen(avatar, displayName, username, date, id) =>
      "<div class='tweet'>\n"
      + "<div class='tweet_avatar'><img src='" + avatar + "'></div>\n"
      + "<div class='tweet_header'>\n"
      + " <span class='tweet_displayname'>" + displayName + "</span> <span class='tweet_username'>@" + username
      + "</span> \U{2022} <span class='tweet_timestamp'>" + showDate(date) + "</span> <span class='tweet_id'>" + id + "</span>\n"
      + "</div>\n"
    case ReplyContext(url) =>
      "<div class='tweet_reply'>\n"
      + "\U{21A9}\U{FE0F} <span class='tweet_replyid'><a href='" + url + "'>" + url + "</a></span>\n"
      + "</div>"
    case Body(text) => "<div class='tweet_body'>\n<p>" + text + "</p>\n</div>\n"
    case ImgsOpen => "<div class='tweet_imgs'>\n"
    case Img(src) => "<img class='tweet_img' src=\"" + src + "\">\n"
    case ImgsClose => "</div>\n"
    case QuotesOpen => "<div class='tweet_links'>\n"
    case QuotesClose => "</div>\n"
    case Permalink(url) => "<div class='tweet_original'>\n\U{2022} <a href='" + url + "'>" + url + "</a> \U{2022}\n</div>\n"
    case TweetClose => "</div>\n"
    case ThreadOpen => "<div class='thread'>\n"
    case ThreadClose => "</div>\n"
    case ThreadItem(id) => "<li> THREAD " + id + "\n"
  }

  /** The text of a sequence of fragments, one after the other. */
  function Html(fs: seq<Fragment>, showDate: int -> string): string {
    if fs == [] then "" else Html(fs[..|fs| - 1], showDate) + Markup(fs[|fs| - 1], showDate)
  }

  /** The text of two runs of markup is the text of the first followed by that of the second. */
  lemma {:induction false} HtmlAppend(a: seq<Fragment>, b: seq<Fragment>, showDate: int -> string)
    ensures Html(a + b, showDate) == Html(a, showDate) + Html(b, showDate)
    decreases |b|
  {
    if b != [] {
      var b' := b[..|b| - 1];
      assert (a + b)[..|a + b| - 1] == a + b';
      assert (a + b)[|a + b| - 1] == b[|b| - 1];
      HtmlAppend(a, b', showDate);
    } else {
      assert a + b == a;
    }
  }
}
