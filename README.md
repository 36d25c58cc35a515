# twitter-archive-formatter, modelled in Dafny

`format.js` reads a Twitter archive and writes one HTML page that shows the account's
tweets grouped into threads. A thread is a root tweet followed by the chain of the account's
replies to itself. This project models what the script does once the archive is loaded:

- **Index** (`indexer.dfy`). It builds the `tweets_byid` table. It sorts the tweet array by
  date, in place and stably. It then makes one linking pass over the sorted array: each tweet
  either becomes a root in `threads` or is written into its parent's `.thread` slot, and a
  reply whose parent is missing is dropped.
- **Walk** (`walk.dfy`). `formatThread` follows `.thread` links from a root until a tweet
  has none. The walk terminates, no tweet occurs twice, and it holds at most as many tweets
  as are loaded.
- **One tweet** (`render.dfy`). `formatTweet` first runs the URL pass: each entity is a
  self-quote or an external link, and the first occurrence of its token in the text is
  deleted or replaced by an anchor. The media pass then derives one image path per media
  entity and deletes the token. Last come the blocks: header, optional reply context, body,
  optional images, optional quoted tweets (rendered recursively), optional permalink.
- **Document** (`format.dfy`). A root's thread is emitted iff no ids were given or its id is
  among them. Each emitted thread appears once, and the threads follow the chronological
  order of the roots.
- **JS built-ins** (`strings.dfy`). `String.prototype.replace` with a string pattern (first
  occurrence only, found by a left-to-right search), `substr`, and `split("/").slice(-1)`,
  all over `seq<char>`.

A JavaScript tweet object is identified by its position in the loaded array, its *handle*.
`tweets_byid` is a `map<string, nat>` from ids to handles. The sorted array is an
`array<nat>` of handles, and the `.thread` slots are a `map<nat, nat>` from a parent's handle
to its successor's.

The emitted HTML is a sequence of `Render.Fragment` tokens, one per tag or block the script
appends. `Render.Markup` gives the literal text each token stands for, and the rewritten body
text is carried exactly. The date inside the header is a parameter `showDate`, because
`toDateString()` is not modelled.

The recursion into self-quoted tweets (`format.js:157-159`) has no bound in the source: a
tweet that quotes itself recurses until the stack overflows. The model gives each level of
nesting one unit of `fuel`, and running out yields `Failure(QuoteDepthExceeded)`. Three
lemmas make this explicit:

- more fuel never changes a result that succeeded;
- a tweet that quotes itself fails at every fuel;
- fuel above a well-founded rank of the quote graph always succeeds.

Every loop of the script is a method proved equal to a specification function:

| method | loop | specification function |
|---|---|---|
| `BuildById` | indexing | `IdIndex` |
| `SortByDate` | in-place sort of the handle array | equal to `ChronoOrder` by `ChronologicalUnique` |
| `BuildThreads` | linking | `Roots`, `Links` |
| `RewriteUrls` | URL pass | `UrlPass` |
| `RewriteMedia` | media pass | `MediaPass` |
| `ImgsMarkup` | image tags | `ImgsBlock` |
| `FormatQuotes` | quoted tweets | `TweetsHtml` |
| `FormatTweet` | one tweet | `TweetHtml` |
| `FormatThread` | thread walk | `ThreadHtml` of `ThreadChain` |
| `RenderThreads` | final loop | `DocumentBody` |
| `Run` | the whole run | `Document` |

Lemmas then prove the script's properties about those functions.

One might expect every entity token to be stripped from the rendered body. The code uses
`String.prototype.replace` with a string pattern, which removes only the first occurrence, so
a second copy of a token stays in the text: `JsString.StripRemovesOnlyFirst` shows one.

## Model

| member | source | states |
|---|---|---|
| JsString.IndexFrom | format.js:119-131 | the search `replace` performs returns -1 or the start of a window of the token's length at or after the start position |
| JsString.IndexFromFinds | format.js:119-131 | that search returns the first occurrence at or after the start position, and -1 only when there is none |
| JsString.ReplaceFirst | format.js:119-131 | `replace` with a string pattern; `ReplacesFirst` states that it replaces exactly the first occurrence and leaves a text without the token alone |
| JsString.ReplacesFirst | format.js:119-131 | `replace` with a string pattern replaces exactly the first occurrence, and leaves a string without the token unchanged |
| JsString.Substr | format.js:116 | `substr(k)` is what follows the first k characters, and empty when the string is shorter |
| JsString.LastSegment | format.js:73 | `split("/").slice(-1)` is the longest '/'-free suffix of the string, preceded by a '/' when it is not the whole string |
| JsString.LastSegmentAfterSlash | format.js:73 | after a path ending in '/', the last segment of path + name is the '/'-free name |
| JsString.StripRemovesOnlyFirst | format.js:119 | deleting a token that occurs twice leaves its second copy in the text |
| Records.IsRoot | format.js:97 | the root test; `Indexer.Roots` states that `threads` holds exactly the tweets it accepts, and `Indexer.DroppedReply` what becomes of the others |
| Records.AvatarPath | format.js:73 | the avatar file's name is the account id, a dash, and the file name of the avatar URL |
| Records.AvatarFileName | format.js:73 | a path formed of a directory, an id, a dash and a file name ends in that id-file name |
| Indexer.IdIndex | format.js:82-88 | the id table maps every id to a loaded tweet |
| Indexer.IdIndexLastWins | format.js:82-88 | an id is a key iff some loaded tweet has it, and it maps to the last such tweet in input order |
| Indexer.BuildById | format.js:82-88 | the indexing loop builds exactly the id table |
| Indexer.SortByDate | format.js:91 | the in-place sort leaves the handle array in chronological order and a permutation of its input |
| Indexer.SinkLast | format.js:91 | one insertion step extends the sorted prefix by one element, permutes the array and leaves the rest of it unchanged |
| Indexer.InsertPermutes | format.js:91 | inserting a handle adds exactly that handle to the multiset |
| Indexer.ConsChronological | format.js:91 | a handle that precedes every element of a chronological sequence can go in front of it |
| Indexer.InsertKeepsOrder | format.js:91 | inserting into a chronological sequence keeps it chronological |
| Indexer.SortHandlesSorts | format.js:91 | the reference sort is chronological and a permutation of its input |
| Indexer.FirstPrecedesAll | format.js:91 | the first element of a chronological sequence precedes all of its elements |
| Indexer.ChronologicalUnique | format.js:91 | two chronological arrangements of the same handles are equal, so a stable sort has a single result |
| Indexer.InsertDistinct | format.js:91 | inserting a handle not yet present keeps the handles distinct |
| Indexer.SortHandlesDistinct | format.js:91 | sorting distinct handles keeps them distinct |
| Indexer.Precedes | format.js:91 | the comparator `a.date - b.date` with the stable sort's tie-break by input position; `Indexer.ChronoOrderIsStableSort` states the order it makes |
| Indexer.ChronoOrder | format.js:91 | the sorted `tweets` array; `Indexer.ChronoOrderIsStableSort` states that it is the stable sort by date, and `Indexer.ChronologicalUnique` that the in-place sort yields it |
| Indexer.ChronoOrderIsStableSort | format.js:91 | the chronological order holds every loaded tweet once, by non-decreasing date, and tweets with equal dates keep their input order |
| Indexer.Roots | format.js:95-99 | `threads` holds exactly the tweets of the sorted array that are not self-replies; `Indexer.RootsDistinct` states that each appears once, `Indexer.RootsChronological` that they keep the sorted order |
| Indexer.RootsDistinct | format.js:95-99 | a sorted array without duplicates gives `threads` without duplicates, so each root's thread is emitted at most once |
| Indexer.ReplyTarget | format.js:100-102 | the slot a self-reply is written into: its parent's, when the parent is indexed; `Indexer.LinkTargets` and `Indexer.DroppedReply` state both cases |
| Indexer.Links | format.js:100-102 | the `.thread` slots after the linking pass; `Indexer.LinksLastWins` states that each holds the last self-reply to its owner, `Indexer.LinksFormChains` that they form chains |
| Indexer.BuildThreads | format.js:93-104 | the linking loop produces exactly `Roots` and `Links` of the sorted array |
| Indexer.RootsChronological | format.js:95-99 | the roots keep the chronological order of the sorted array |
| Indexer.LinksLastWins | format.js:100-103 | a parent's slot is set iff some self-reply goes to it, and it holds the last such reply in date order |
| Indexer.LinkTargets | format.js:100-103 | every `.thread` slot holds a self-reply whose parent id is indexed to that slot's owner |
| Indexer.DroppedReply | format.js:100-103 | a self-reply whose parent is not loaded is neither a root nor in any `.thread` slot |
| Indexer.LinksFormChains | format.js:97-102 | links stay among loaded tweets, no tweet is the successor of two tweets, and no root is anyone's successor |
| Walk.DistinctBelow | format.js:175-178 | a duplicate-free walk over handles below n has at most n tweets |
| Walk.NextLeavesWalk | format.js:175-178 | the successor of a walk's last tweet is not already on the walk, so the walk stays duplicate-free and shorter than n |
| Walk.ChainFrom | format.js:175-178 | the walk extended from a prefix keeps that prefix, follows links, stays within n tweets and ends at a tweet without a successor |
| Walk.ThreadChain | format.js:172-181 | the thread of a root starts at it, follows `.thread` links, ends at a tweet without one, is duplicate-free and holds at most n tweets |
| Render.Anchor | format.js:122-123 | the anchor to an expanded URL; `Render.UrlStepText` states that it takes the token's place |
| Render.QuoteKey | format.js:116 | the id looked up for a URL: the expanded URL minus the length of the account's status prefix; `Render.SelfQuoteIgnoresPrefix` shows the prefix is never compared |
| Render.IsSelfQuote | format.js:116-117 | a URL is a self-quote iff its key is indexed; `Render.UrlPassClassifies` states how the pass sorts entities by it |
| Render.UrlPass | format.js:114-126 | the URL loop as a fold; `Render.UrlPassClassifies` and `Render.UrlStepText` state its lists and its text |
| Render.UrlStep | format.js:116-124 | one iteration of the URL loop; `Render.UrlStepText` states its text and `Render.UrlPassClassifies` its lists |
| Render.UrlStepText | format.js:116-124 | a URL step deletes the first occurrence of the token of a self-quote, or replaces it by the anchor to the expanded URL, and leaves a text without the token unchanged |
| Render.SelfQuotes | format.js:116-118 | every self-quote names a loaded tweet |
| Render.SelfQuotesAppend | format.js:114-126 | the classification of a concatenation of entities is the concatenation of the classifications |
| Render.UrlPassClassifies | format.js:114-126 | `selfqts` holds the tweets of the self-quotes and `links` the expanded URLs of the others, both in entity order, and together they account for every entity |
| Render.SelfQuoteIgnoresPrefix | format.js:116-117 | a URL that points to another account's status still counts as a self-quote when its id is loaded, because the prefix is never compared |
| Render.MediaPath | format.js:130 | the path of a media file; `Render.MediaFileName` states its file name, `Render.MediaPathIgnoresPrefix` that the prefix is never compared |
| Render.MediaPass | format.js:128-133 | the media loop as a fold of `MediaStep`; `Render.MediaPassPaths` states its paths and `Render.MediaStepText` its text |
| Render.MediaStep | format.js:129-132 | one iteration of the media loop; `Render.MediaStepText` states its text and `Render.MediaPassPaths` its paths |
| Render.MediaStepText | format.js:131 | a media step deletes the first occurrence of the entity's token and leaves a text without the token unchanged |
| Render.MediaPassPaths | format.js:128-133 | `imgs` holds one path per media entity, in entity order, each derived from the entity's media URL |
| Render.MediaFileName | format.js:130 | for a media URL under the media prefix, the file's name is the tweet id, a dash and the URL's file name |
| Render.MediaPathIgnoresPrefix | format.js:130 | an https media URL keeps a '/' in its file part, because the prefix is never compared |
| Render.ImgsBlock | format.js:148-154 | the images block; `Render.ImgsMarkup` states that it is empty without images and otherwise bracketed tags, `Render.ImgTagsElements` one tag per path |
| Render.ImgTags | format.js:150-152 | there is one image tag per path |
| Render.ImgTagsElements | format.js:150-152 | the k-th image tag shows the k-th path |
| Render.ImgTagsSnoc | format.js:150-152 | one more path appends one more tag |
| Render.Layout | format.js:134-168 | the blocks of a tweet in the order they are appended; `Render.ReadLayout` states that each block is read back from it |
| Render.ReplyUrl | format.js:140 | the link of the reply block; `Render.TweetBlocks` states that the block carries it |
| Render.HasReplyBlock | format.js:139 | the reply condition; `Render.TweetBlocks` states that the reply block appears iff it holds |
| Render.Blocks | format.js:134-167 | the blocks of a tweet under the source's conditions; `Render.TweetBlocks` states each of them |
| Render.View | format.js:111-167 | the blocks of a tweet after both passes; `Render.TweetBlocks` states them |
| Render.ReadLayout | format.js:134-168 | every block of a tweet is read back exactly from its fragments |
| Render.Quotes | format.js:116-118 | the tweets a tweet quotes are loaded tweets |
| Render.Expand | format.js:155-161 | a successful expansion is of the requested tweet, and every tweet in it is loaded |
| Render.ExpandAll | format.js:157-159 | a successful expansion of a list has one expanded tweet per requested tweet, in order |
| Render.QuotedHtml | format.js:155-161 | the markup of an expanded tweet around that of its quotes; `Render.TweetHtmlStep` states the recursion equation it yields, `Format.QuotedNoItems` that it holds no THREAD line |
| Render.ListHtml | format.js:155-161 | the quoted tweets' markup, one after the other; `Render.TweetsHtmlSnoc` states how it grows, `Format.ListNoItems` that it holds no THREAD line |
| Render.TweetHtml | format.js:110-170 | `formatTweet` at a fuel; `Render.TweetBlocks`, `Render.FuelMonotone`, `Render.SelfQuoteDiverges` and `Render.EnoughFuel` state its properties |
| Render.TweetsHtml | format.js:157-159 | the markup of a list of tweets in order; `Render.TweetsHtmlSnoc` and `Render.ExpandAllPrefixFails` state how it grows and fails |
| Render.TweetHtmlStep | format.js:155-161 | a tweet's markup at fuel f + 1 is its layout around the markup of the tweets it quotes at fuel f, or the failure of those |
| Render.TweetsHtmlSnoc | format.js:157-159 | appending a tweet appends its markup, and the first failure is the result |
| Render.TweetBlocks | format.js:134-168 | the reply block appears iff the parent is not loaded; the body is the text after both passes; there is one image per media entity at its path; the quotes block appears iff a URL is a self-quote; the permalink appears iff `link` is set |
| Render.ExpandAllPrefixFails | format.js:157-159 | once rendering a prefix of a list fails, the whole list fails with the same error |
| Render.ExpandAllMemberFails | format.js:157-159 | one quoted tweet that fails makes the whole list fail |
| Render.FuelMonotone | format.js:157-159 | more fuel never changes a tweet's rendering once it has succeeded |
| Render.FuelMonotoneAll | format.js:157-159 | more fuel never changes a list's rendering once it has succeeded |
| Render.SelfQuoteDiverges | format.js:157-159 | a tweet that quotes itself fails at every fuel: the source's unbounded recursion |
| Render.EnoughFuel | format.js:157-159 | when quotes never lead back to a tweet, fuel above its rank renders it |
| Render.EnoughFuelAll | format.js:157-159 | fuel above every rank in a list renders the whole list |
| Render.RewriteUrls | format.js:114-126 | the URL loop computes the URL pass |
| Render.RewriteMedia | format.js:128-133 | the media loop computes the media pass |
| Render.FormatTweet | format.js:110-170 | `formatTweet` computes the tweet's markup, with the quoted tweets one level of fuel deeper |
| Render.EmitTweet | format.js:134-168 | the appends build the layout of the tweet's blocks |
| Render.ImgsMarkup | format.js:148-154 | the images block is empty when there is no image, and otherwise holds one tag per image between its opening and closing tags |
| Render.FormatQuotes | format.js:155-161 | the loop over `selfqts` computes the markup of the quoted tweets, stopping at the first failure |
| Render.Markup | format.js:134-168 | the literal text each fragment stands for, with the body text carried unchanged; `Render.HtmlAppend` states that the text of a document is that of its fragments in order |
| Render.Html | format.js:134-168 | the text of a run of fragments; `Render.HtmlAppend` states that it distributes over concatenation |
| Render.HtmlAppend | format.js:134-168 | the text of concatenated markup is the concatenation of the texts |
| Format.ThreadHtml | format.js:172-181 | the thread div around the markup of a thread's tweets; `Format.FormatThread` computes it for `Walk.ThreadChain` |
| Format.Thread | format.js:172-181 | the tweets `formatThread` visits; `Walk.ThreadChain` states that it starts at the root, follows the links, ends without a successor and repeats no tweet |
| Format.FormatThread | format.js:172-181 | `formatThread` computes the thread's markup: the root, then every tweet along the `.thread` links |
| Format.TweetsHtmlOne | format.js:173-174 | a list of one tweet renders as that tweet |
| Format.ThreadStart | format.js:173-174 | the walk starts at the root, and a failing root fails the thread |
| Format.ThreadStep | format.js:175-178 | each step of the walk extends the markup by the next tweet's, or fails the thread |
| Format.Emitted | format.js:208-214 | the emitted roots are loaded tweets; `Format.EmittedIff` states which they are, `Format.EmittedOrder` that they keep the roots' order and occur once |
| Format.Selected | format.js:210 | the selection rule; `Format.EmittedIff` states that a root is emitted iff it holds |
| Format.EmittedIff | format.js:210 | a root's thread is emitted iff no ids are given or its id is among them |
| Format.EmittedOrder | format.js:208-214 | emitting from chronological, duplicate-free roots gives chronological, duplicate-free threads |
| Format.DocumentBody | format.js:208-214 | the THREAD line and thread of each selected root in order; `Format.DocumentThreads`, `Format.DocumentFuelMonotone` and `Format.DocumentEnoughFuel` state its properties |
| Format.RenderThreads | format.js:208-214 | the final loop computes the document body |
| Format.DocumentStep | format.js:208-214 | one step of the final loop: an unselected root adds nothing, a selected one adds its THREAD line and thread, or its failure ends the body |
| Format.DocumentPrefixFails | format.js:208-214 | once a prefix of the roots fails, the document fails with the same error |
| Format.DocumentFuelMonotone | format.js:208-214 | more fuel never changes a document body that rendered |
| Format.DocumentEnoughFuel | format.js:208-214 | when quotes never lead back to a tweet, fuel above every rank renders every selected thread |
| Format.ItemsAppend | format.js:211 | the THREAD lines of concatenated markup are those of the first part, then those of the second |
| Format.NoItemsNone | format.js:211 | markup without a THREAD fragment lists no thread |
| Format.LayoutNoItems | format.js:134-168 | a tweet's blocks hold no THREAD line when its quotes hold none |
| Format.QuotedNoItems | format.js:110-170 | a tweet's markup holds no THREAD line, however deeply it quotes |
| Format.ListNoItems | format.js:157-159 | the markup of a list of quoted tweets holds no THREAD line |
| Format.IdsOf | format.js:211 | the ids of a list of tweets, one per tweet, in order |
| Format.DocumentThreads | format.js:208-214 | the THREAD lines of the document name exactly the emitted roots, one line per emitted root, in the roots' order |
| Format.ThreadItems | format.js:211-212 | a root's THREAD line followed by its thread adds exactly that root's id to the THREAD lines |
| Format.ThreadsWellFormed | format.js:91-104 | over the chronological order, the links form chains and every root can start a walk |
| Format.ChronoRoots | format.js:91-99 | a tweet is a root of the chronological order iff it is loaded and passes the root test |
| Format.EmittedThreadsOrder | format.js:91-214 | in a run, a thread is emitted iff its tweet is a root and selected, each such thread once, in chronological order |
| Format.RunContext | format.js:73-88 | what `formatTweet` reads in a run: the id table, which names only loaded tweets, and the avatar path |
| Format.Document | format.js:82-214 | the document at a fuel, from `IdIndex`, `ChronoOrder`, `Roots`, `Links` and `DocumentBody`; `Format.DocumentFuelInvariant` and `Format.DocumentRenders` state that it does not depend on the fuel once it renders, and renders when quotes are acyclic |
| Format.DocumentThreadLines | format.js:91-214 | the THREAD lines of a rendered document name the emitted roots of the chronological order, in order |
| Format.DocumentFuelInvariant | format.js:157-214 | a document that renders at some fuel is the same at every larger fuel, so it is the output of the unbounded recursion |
| Format.DocumentRenders | format.js:157-214 | when a rank falls along every self-quote, fuel above every rank renders the whole document |
| Format.TwoTweetsIndexed | format.js:82-91 | for a root A and the account's reply B, the sort keeps [A, B] and A's id is indexed to A |
| Format.TwoTweetThread | format.js:95-181 | for a root A and the account's reply B: A is the only root, A's `.thread` slot holds B, and the thread of A is [A, B] |
| Format.Run | format.js:82-214 | the run from the loaded archive (index, in-place sort, linking, avatar path, final loop) produces `Document` |

## Left out

- Command-line parsing, `verbose` logging, loading the archive through `window.YTD` and `require`, and the fixed CSS and HTML around the thread list. These are I/O and constant text.
- `Date` parsing and `toDateString()`: a tweet's date is an integer that orders like the parsed Date. An invalid date (NaN) is not modelled. The header shows the date through the `showDate` parameter of `Render.Markup`.
- Render.FormatTweet: the source recurses without a bound; the model stops at `fuel` levels of self-quote nesting with `QuoteDepthExceeded`, where the script would overflow its stack.
- Render.Expand: the quoted tweets are rendered before the blocks are appended. The source renders them while appending. Nothing but the order of evaluation differs.
- `tweets_byid` is a plain JavaScript object. Ids that collide with inherited properties (`__proto__`, `constructor`) are not modelled; the table is a map.
- `String.prototype.replace` interprets `$$`, `$&`, `` $` `` and `$'` in its replacement string (a string pattern has no capture groups, so `$1` stays literal). An expanded URL containing one of those would be spliced differently. The model inserts the replacement literally.
- String lengths and `substr` count characters here. JavaScript counts UTF-16 code units, so text outside the Basic Multilingual Plane is not modelled.
- A missing `entities.urls` or `extended_entities.media` is the empty sequence, which is how the guards at `format.js:114` and `format.js:128` behave.
- `console.log` output is not modelled as a stream. The document body is the sequence of fragments the final loop prints when every selected thread renders.
- Format.DocumentBody: on failure the result is only `Failure(QuoteDepthExceeded)`. The output the script has already printed before its stack overflows is not modelled: the document head, every earlier selected thread, and the failing root's `<li> THREAD` line.
