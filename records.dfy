/** The loaded archive: account, tweets and their entities, as the formatter reads them. */
module Records {
  import opened JsString

  datatype Option<T> = None | Some(value: T)

  datatype Result<T, E> = Success(value: T) | Failure(error: E)

  /** One entry of `entities.urls`: the short token in the text and where it points. */
  datatype UrlEntity = UrlEntity(url: string, expandedUrl: string)

  /** One entry of `extended_entities.media`: the short token in the text and the media source. */
  datatype MediaEntity = MediaEntity(url: string, mediaUrl: string)

  /**
   * A loaded tweet. A missing `entities.urls` or `extended_entities.media` is the empty
   * sequence; `date` is the parsed `created_at`, as a number that orders like the Date.
   */
  datatype Tweet = Tweet(
    id: string,
    replyToStatus: Option<string>,
    replyToUser: Option<string>,
    replyToScreenName: Option<string>,
    date: int,
    fullText: string,
    urls: seq<UrlEntity>,
    media: seq<MediaEntity>)

  datatype Account = Account(accountId: string, displayName: string, username: string)

  /** A tweet starts a thread unless it replies to a status of the account itself. */
  predicate IsRoot(t: Tweet, accountId: string) {
    t.replyToStatus.None? || t.replyToUser != Some(accountId)
  }

  /** A possibly undefined field as string concatenation writes it: `undefined` when absent. */
  function AsText(o: Option<string>): string {
    if o.Some? then o.value else "undefined"
  }

  const MEDIA_URL_PREFIX: string := "http://pbs.twimg.com/media/"

  function SelfStatusUrlPrefix(accountId: string): string {
    "https://twitter.com/" + accountId + "/status/"
  }

  /** The file the avatar is read from: `<dir>/data/profile_media/<accountId>-<file name of the avatar URL>`. */
  function AvatarPath(dir: string, accountId: string, avatarMediaUrl: string): (r: string)
    ensures '/' !in accountId ==> LastSegment(r) == accountId + "-" + LastSegment(avatarMediaUrl)
  {
    AvatarFileName(dir + "/data/profile_media/", accountId, LastSegment(avatarMediaUrl));
    dir + "/data/profile_media/" + accountId + "-" + LastSegment(avatarMediaUrl)
  }

  lemma AvatarFileName(p: string, accountId: string, file: string)
    requires |p| > 0 && p[|p| - 1] == '/' && '/' !in file
    ensures '/' !in accountId ==> LastSegment(p + accountId + "-" + file) == accountId + "-" + file
  {
    var name := accountId + "-" + file;
    assert p + accountId + "-" + file == p + name;
    if '/' !in accountId {
      NoSlash(accountId, file);
      LastSegmentAfterSlash(p, name);
    }
  }

  lemma NoSlash(a: string, f: string)
    requires '/' !in f && '/' !in a
    ensures '/' !in a + "-" + f
  {
    assert '/' !in "-";
  }
}
