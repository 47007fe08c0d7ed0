/**
 * Properties of the user-timeline cache: which path each call takes, what it
 * returns, which API calls it makes and when it writes the cache file.
 */
module TimelineProofs {
  import opened Options
  import opened Timeline
  import Linkify

  // ---------------------------------------------------------------------------
  // The message text

  /** The failure message names the HTTP status in decimal, with a sign when negative. */
  lemma FailureMessageNamesStatus(status: int)
    ensures var m := FailureMessage(status);
            |m| > |FailurePrefix| + |FailureSuffix| &&
            m[..|FailurePrefix|] == FailurePrefix &&
            m[|m| - |FailureSuffix|..] == FailureSuffix &&
            var code := m[|FailurePrefix|..|m| - |FailureSuffix|];
            (status >= 0 ==> code == Digits(status) && DigitsValue(code) == status) &&
            (status < 0 ==> code == "-" + Digits(-status) && DigitsValue(code[1..]) == -status)
  {
    var code := IntString(status);
    Framed(FailurePrefix, code, FailureSuffix);
    if status >= 0 {
      DigitsRoundTrip(status);
    } else {
      assert code[1..] == Digits(-status);
      DigitsRoundTrip(-status);
    }
  }

  /** A string framed by a prefix and a suffix gives back each of its three parts. */
  lemma Framed(prefix: string, code: string, suffix: string)
    ensures var m := prefix + code + suffix;
            m[..|prefix|] == prefix && m[|m| - |suffix|..] == suffix && m[|prefix|..|m| - |suffix|] == code
  {
    var m := prefix + code + suffix;
    assert m[..|prefix|] == prefix;
    assert m[|m| - |suffix|..] == suffix;
    assert m[|prefix|..|m| - |suffix|] == code;
  }

  // ---------------------------------------------------------------------------
  // readCache

  /** `readCache` is falsy exactly when the file is missing or holds an empty reply. */
  lemma ReadCacheTruthyIff(cache: Option<CacheFile>)
    ensures Truthy(ReadCache(cache)) <==> cache.Some? && cache.value.contents.Timeline?
  {
  }

  // ---------------------------------------------------------------------------
  // The fresh path

  /**
   * A fresh cache is served with every tweet's text rendered, without asking
   * the API anything and without touching the cache.
   */
  lemma FreshCacheServedRendered(cache: Option<CacheFile>, screenName: string, number: int, now: int,
                                 remaining: int, status: int, tweets: seq<Tweet>)
    requires IsFresh(cache, now)
    ensures var step := TimelineStep(cache, screenName, number, now, remaining, status, tweets);
            step.reply == RenderReply(cache.value.contents) &&
            step.message == None && step.calls == [] && step.cache == cache
  {
  }

  /**
   * The rate limit is queried exactly when the cache is not fresh: the file is
   * missing, or it was last modified an hour or more before `now`.
   */
  lemma RateLimitQueriedIff(cache: Option<CacheFile>, screenName: string, number: int, now: int,
                            remaining: int, status: int, tweets: seq<Tweet>)
    ensures var step := TimelineStep(cache, screenName, number, now, remaining, status, tweets);
            (step.calls != [] <==> cache.None? || cache.value.mtime <= now - 3600) &&
            (step.calls != [] ==> step.calls[0] == RateLimitStatus)
  {
  }

  // ---------------------------------------------------------------------------
  // The API paths

  /**
   * With no calls remaining the timeline is never requested and the cache is
   * kept; the raw cache is returned if `readCache` is truthy, and otherwise an
   * empty reply with the limit message.
   */
  lemma LimitHitFallsBack(cache: Option<CacheFile>, screenName: string, number: int, now: int,
                          remaining: int, status: int, tweets: seq<Tweet>)
    requires !IsFresh(cache, now) && remaining <= 0
    ensures var step := TimelineStep(cache, screenName, number, now, remaining, status, tweets);
            step.calls == [RateLimitStatus] && step.cache == cache &&
            (Truthy(ReadCache(cache)) ==> step.reply == cache.value.contents && step.message == None) &&
            (!Truthy(ReadCache(cache)) ==> step.reply == NoReply && step.message == Some("Error: API limit hit"))
  {
  }

  /**
   * A successful timeline request overwrites the cache with exactly the
   * response, stamped `now`, and returns that response unrendered.
   */
  lemma SuccessOverwritesCache(cache: Option<CacheFile>, screenName: string, number: int, now: int,
                               remaining: int, tweets: seq<Tweet>)
    requires !IsFresh(cache, now) && remaining > 0
    ensures var step := TimelineStep(cache, screenName, number, now, remaining, 200, tweets);
            step.calls == [RateLimitStatus, UserTimeline(screenName, number)] &&
            step.cache == Some(CacheFile(Timeline(200, tweets), now)) &&
            step.reply == Timeline(200, tweets) && step.message == None
  {
  }

  /**
   * A failed timeline request leaves the cache as it was; the raw cache is
   * returned if `readCache` is truthy, and otherwise the failed response with
   * the failure message.
   */
  lemma FailureFallsBack(cache: Option<CacheFile>, screenName: string, number: int, now: int,
                         remaining: int, status: int, tweets: seq<Tweet>)
    requires !IsFresh(cache, now) && remaining > 0 && status != 200
    ensures var step := TimelineStep(cache, screenName, number, now, remaining, status, tweets);
            step.calls == [RateLimitStatus, UserTimeline(screenName, number)] && step.cache == cache &&
            (Truthy(ReadCache(cache)) ==> step.reply == cache.value.contents && step.message == None) &&
            (!Truthy(ReadCache(cache)) ==>
               step.reply == Timeline(status, tweets) && step.message == Some(FailureMessage(status)))
  {
  }

  /** The timeline is requested exactly when the cache is stale and calls remain. */
  lemma TimelineRequestedIff(cache: Option<CacheFile>, screenName: string, number: int, now: int,
                             remaining: int, status: int, tweets: seq<Tweet>)
    ensures var step := TimelineStep(cache, screenName, number, now, remaining, status, tweets);
            UserTimeline(screenName, number) in step.calls <==> !IsFresh(cache, now) && remaining > 0
  {
  }

  /**
   * The only write to the cache is a successful request on a stale cache with
   * calls remaining; every other call leaves the cache exactly as it was.
   */
  lemma CacheWrittenOnlyOnSuccess(cache: Option<CacheFile>, screenName: string, number: int, now: int,
                                  remaining: int, status: int, tweets: seq<Tweet>)
    ensures var step := TimelineStep(cache, screenName, number, now, remaining, status, tweets);
            var writes := !IsFresh(cache, now) && remaining > 0 && status == 200;
            (writes ==> step.cache == Some(CacheFile(Timeline(status, tweets), now))) &&
            (!writes ==> step.cache == cache)
  {
  }

  /** A message is produced exactly when the API path finds nothing truthy to fall back on. */
  lemma MessageIff(cache: Option<CacheFile>, screenName: string, number: int, now: int,
                   remaining: int, status: int, tweets: seq<Tweet>)
    ensures var step := TimelineStep(cache, screenName, number, now, remaining, status, tweets);
            step.message.Some? <==>
              !IsFresh(cache, now) && !(remaining > 0 && status == 200) && !Truthy(ReadCache(cache))
  {
  }

  // ---------------------------------------------------------------------------
  // The cache over several calls

  /** What the class itself writes: no file, or a successful response. */
  predicate WrittenByClient(cache: Option<CacheFile>) {
    cache.None? || (cache.value.contents.Timeline? && cache.value.contents.httpStatus == 200)
  }

  /** Every call keeps a cache that only the class has written in that form. */
  lemma WrittenByClientPreserved(cache: Option<CacheFile>, screenName: string, number: int, now: int,
                                 remaining: int, status: int, tweets: seq<Tweet>)
    requires WrittenByClient(cache)
    ensures WrittenByClient(TimelineStep(cache, screenName, number, now, remaining, status, tweets).cache)
  {
  }

  /** For such a cache `readCache` is truthy exactly when the file exists. */
  lemma WrittenByClientTruthyIff(cache: Option<CacheFile>)
    requires WrittenByClient(cache)
    ensures Truthy(ReadCache(cache)) <==> cache.Some?
  {
  }

  /**
   * After a successful request, a second call less than an hour later is served
   * from the cache, rendered, with no API call, whatever screen name or count
   * it asks for: there is one cache file for every user.
   */
  lemma SecondCallServedFromCache(cache: Option<CacheFile>, name1: string, number1: int, now1: int,
                                  remaining1: int, tweets: seq<Tweet>,
                                  name2: string, number2: int, now2: int,
                                  remaining2: int, status2: int, tweets2: seq<Tweet>)
    requires !IsFresh(cache, now1) && remaining1 > 0
    requires now1 <= now2 < now1 + 3600
    ensures var first := TimelineStep(cache, name1, number1, now1, remaining1, 200, tweets);
            var second := TimelineStep(first.cache, name2, number2, now2, remaining2, status2, tweets2);
            first.reply == Timeline(200, tweets) &&
            second.reply == Timeline(200, RenderTweets(tweets)) &&
            second.calls == [] && second.cache == first.cache
  {
  }

  /**
   * The same cached reply comes back rendered on the fresh path but raw on
   * both fallback paths.
   */
  lemma FreshRendersFallbackDoesNot(file: CacheFile, screenName: string, number: int,
                                    remaining: int, status: int, tweets: seq<Tweet>)
    requires file.contents.Timeline?
    ensures TimelineStep(Some(file), screenName, number, file.mtime, remaining, status, tweets).reply ==
            RenderReply(file.contents)
    ensures TimelineStep(Some(file), screenName, number, file.mtime + 3600, 0, status, tweets).reply ==
            file.contents
    ensures status != 200 ==>
            TimelineStep(Some(file), screenName, number, file.mtime + 3600, 1, status, tweets).reply ==
            file.contents
  {
  }

  // ---------------------------------------------------------------------------
  // The json flag

  /**
   * Two clients with the same cache, asked the same question with and without
   * the json flag, return the same reply (encoded or not), the same message and
   * the same calls, and leave the same cache.
   */
  method JsonOnlyChangesEncoding(cache: Option<CacheFile>, screenName: string, number: int, now: int,
                                 remaining: int, status: int, tweets: seq<Tweet>)
    returns (plain: Output, encoded: Output, plainMessage: Option<string>, encodedMessage: Option<string>,
             plainCalls: seq<ApiCall>, encodedCalls: seq<ApiCall>,
             plainCache: Option<CacheFile>, encodedCache: Option<CacheFile>)
    ensures plain == Native(encoded.reply) && encoded.Json?
    ensures plain.reply == TimelineStep(cache, screenName, number, now, remaining, status, tweets).reply
    ensures plainMessage == encodedMessage && plainCalls == encodedCalls && plainCache == encodedCache
  {
    var a := new Twitter(cache);
    var b := new Twitter(cache);
    plain, plainMessage, plainCalls := a.GetUserTimeline(screenName, number, false, now, remaining, status, tweets);
    encoded, encodedMessage, encodedCalls := b.GetUserTimeline(screenName, number, true, now, remaining, status, tweets);
    plainCache := a.cache;
    encodedCache := b.cache;
  }
}
