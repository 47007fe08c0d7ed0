/**
 * The user-timeline cache of the `Twitter` class: `getUserTimeline` serves a
 * one-hour file cache when it is fresh, and otherwise asks the API for the
 * rate limit and, when calls remain, for the timeline itself, falling back to
 * the cache when the API refuses.
 *
 * The cache file is an optional `CacheFile` (its unserialized contents and its
 * modification time), the clock is the `now` parameter, and the two API answers
 * (the remaining call count and the timeline response) are parameters too; the
 * calls the method makes are returned as a trace, and what the source echoes is
 * returned as a message.
 */
module Timeline {
  import opened Options
  import Linkify

  /** One tweet; `id` stands for every field other than the text, which render never touches. */
  datatype Tweet = Tweet(id: int, text: string)

  /**
   * A reply: `NoReply` is PHP's empty array (or any value that unserializes
   * to something falsy); `Timeline` is the API's answer, its HTTP status and
   * its tweets.
   */
  datatype Reply = NoReply | Timeline(httpStatus: int, tweets: seq<Tweet>)

  /** The cache file: what `unserialize` gives back for its contents, and its modification time. */
  datatype CacheFile = CacheFile(contents: Reply, mtime: int)

  /** The two API endpoints the method may call. */
  datatype ApiCall = RateLimitStatus | UserTimeline(screenName: string, count: int)

  /** What the method returns: the reply itself, or its JSON encoding (left uninterpreted). */
  datatype Output = Native(reply: Reply) | Json(reply: Reply)

  /** The cache lifetime, in seconds. */
  const CacheLifetime: int := 60 * 60

  /** The HTTP status of a successful timeline request. */
  const HttpOk: int := 200

  /** `readCache`: the unserialized contents when the file exists, and `false` (here `None`) when not. */
  function ReadCache(cache: Option<CacheFile>): (r: Option<Reply>)
    ensures r.None? <==> cache.None?
    ensures r.Some? ==> r.value == cache.value.contents
  {
    match cache
    case None => None
    case Some(file) => Some(file.contents)
  }

  /** PHP truthiness of what `readCache` returned: the file exists and holds a non-empty reply. */
  predicate Truthy(r: Option<Reply>) {
    r.Some? && r.value.Timeline?
  }

  /** The cache is fresh when the file exists and was modified strictly less than an hour before `now`. */
  predicate IsFresh(cache: Option<CacheFile>, now: int) {
    cache.Some? && cache.value.mtime > now - CacheLifetime
  }

  /** A tweet with its text rendered; every other field is kept. */
  function RenderTweet(t: Tweet): (r: Tweet)
    ensures r.id == t.id && r.text == Linkify.Render(t.text)
  {
    t.(text := Linkify.Render(t.text))
  }

  /** Each tweet rendered in place, in order. */
  function RenderTweets(ts: seq<Tweet>): (r: seq<Tweet>)
    ensures |r| == |ts|
    ensures forall i :: 0 <= i < |ts| ==> r[i] == RenderTweet(ts[i])
  {
    if ts == [] then [] else [RenderTweet(ts[0])] + RenderTweets(ts[1..])
  }

  /**
   * A reply whose tweets have all been rendered: an empty reply stays empty, and
   * a timeline keeps its status, its number of tweets and every field but the text.
   */
  function RenderReply(r: Reply): (out: Reply)
    ensures out.NoReply? <==> r.NoReply?
    ensures r.Timeline? ==>
              && out.httpStatus == r.httpStatus
              && |out.tweets| == |r.tweets|
              && forall i :: 0 <= i < |r.tweets| ==>
                   out.tweets[i].id == r.tweets[i].id && out.tweets[i].text == Linkify.Render(r.tweets[i].text)
  {
    match r
    case NoReply => NoReply
    case Timeline(status, ts) => Timeline(status, RenderTweets(ts))
  }

  /** A string made only of decimal digits. */
  predicate IsDecimal(s: string) {
    forall i :: 0 <= i < |s| ==> '0' <= s[i] <= '9'
  }

  /** The decimal digits of a natural number, with no leading zero. */
  function Digits(n: nat): (s: string)
    ensures |s| >= 1 && IsDecimal(s)
    ensures s[0] == '0' <==> n == 0
    ensures |s| == 1 || s[0] != '0'
    decreases n
  {
    var d := ['0' + (n % 10) as char];
    if n < 10 then d else Digits(n / 10) + d
  }

  /** The value of a string of decimal digits. */
  function DigitsValue(s: string): nat
    requires IsDecimal(s)
  {
    if s == [] then 0 else DigitsValue(s[..|s| - 1]) * 10 + (s[|s| - 1] - '0') as nat
  }

  /** The decimal digits of a number read back as that number. */
  lemma {:induction false} DigitsRoundTrip(n: nat)
    ensures DigitsValue(Digits(n)) == n
    decreases n
  {
    var d := ['0' + (n % 10) as char];
    if n >= 10 {
      var s := Digits(n / 10) + d;
      assert s[..|s| - 1] == Digits(n / 10);
      DigitsRoundTrip(n / 10);
    }
  }

  /**
   * PHP's string conversion of an integer: its decimal digits with no leading
   * zero, after a `-` when it is negative.
   */
  function IntString(n: int): (s: string)
    ensures n >= 0 ==> |s| >= 1 && IsDecimal(s) && DigitsValue(s) == n && (|s| == 1 || s[0] != '0')
    ensures n < 0 ==> |s| >= 2 && s[0] == '-' && IsDecimal(s[1..]) && DigitsValue(s[1..]) == -n && s[1] != '0'
  {
    if n < 0 then
      var d := Digits(-n);
      DigitsRoundTrip(-n);
      assert ("-" + d)[1..] == d;
      "-" + d
    else
      DigitsRoundTrip(n);
      Digits(n)
  }

  /** The text echoed before the HTTP status when the timeline request fails without a cache. */
  const FailurePrefix: string := "The Twitter API call failed with code "

  /** The text echoed after the HTTP status. */
  const FailureSuffix: string := ". No cache file to fall back on"

  /** The message echoed when the timeline request fails and there is no cache to fall back on. */
  function FailureMessage(status: int): string {
    FailurePrefix + IntString(status) + FailureSuffix
  }

  /** The message echoed when no API calls remain and there is no cache to fall back on. */
  const LimitMessage: string := "Error: API limit hit"

  /** What one call of `getUserTimeline` decides. */
  datatype Step = Step(reply: Reply, message: Option<string>, calls: seq<ApiCall>, cache: Option<CacheFile>)

  /**
   * The decision tree of `getUserTimeline`, given the cache, the clock, the
   * remaining rate limit and the timeline response the API would give.
   */
  function TimelineStep(cache: Option<CacheFile>, screenName: string, number: int, now: int,
                        remaining: int, status: int, tweets: seq<Tweet>): Step
  {
    if IsFresh(cache, now) then
      Step(RenderReply(ReadCache(cache).value), None, [], cache)
    else if remaining > 0 then
      var calls := [RateLimitStatus, UserTimeline(screenName, number)];
      var response := Timeline(status, tweets);
      if status == HttpOk then
        Step(response, None, calls, Some(CacheFile(response, now)))
      else if Truthy(ReadCache(cache)) then
        Step(ReadCache(cache).value, None, calls, cache)
      else
        Step(response, Some(FailureMessage(status)), calls, cache)
    else
      if Truthy(ReadCache(cache)) then
        Step(ReadCache(cache).value, None, [RateLimitStatus], cache)
      else
        Step(NoReply, Some(LimitMessage), [RateLimitStatus], cache)
  }

  /** The reply, or its JSON encoding when `json` is set. */
  function Encode(reply: Reply, json: bool): (out: Output)
    ensures out.reply == reply && (out.Json? <==> json)
  {
    if json then Json(reply) else Native(reply)
  }

  /** The `foreach` of the fresh path: each tweet's text replaced by its rendering, in order. */
  method RenderEachTweet(tweets: seq<Tweet>) returns (ts: seq<Tweet>)
    ensures ts == RenderTweets(tweets)
  {
    ts := tweets;
    var i := 0;
    while i < |ts|
      invariant 0 <= i <= |ts| == |tweets|
      invariant forall j :: 0 <= j < i ==> ts[j] == RenderTweet(tweets[j])
      invariant forall j :: i <= j < |ts| ==> ts[j] == tweets[j]
    {
      var tweet := ts[i];
      tweet := tweet.(text := Linkify.Render(tweet.text));
      assert tweet == RenderTweet(tweets[i]);
      ts := ts[i := tweet];
      i := i + 1;
    }
  }

  /** The client, reduced to the one piece of state it keeps: the timeline cache file. */
  class Twitter {
    var cache: Option<CacheFile>

    /** The cache file is whatever is on disk when the client is created. */
    constructor(initial: Option<CacheFile>)
      ensures cache == initial
    {
      cache := initial;
    }

    /**
     * `getUserTimeline`: `now` is the clock, `remaining` the rate-limit count
     * the API reports, and `status`/`tweets` the timeline response it would give.
     */
    method GetUserTimeline(screenName: string, number: int, json: bool, now: int,
                           remaining: int, status: int, tweets: seq<Tweet>)
      returns (out: Output, message: Option<string>, calls: seq<ApiCall>)
      modifies this
      ensures var step := TimelineStep(old(cache), screenName, number, now, remaining, status, tweets);
              out == Encode(step.reply, json) && message == step.message &&
              calls == step.calls && cache == step.cache
    {
      var reply := NoReply;
      message := None;
      calls := [];
      if cache.Some? && cache.value.mtime > now - CacheLifetime {
        reply := ReadCache(cache).value;
        if reply.Timeline? {
          var ts := RenderEachTweet(reply.tweets);
          reply := reply.(tweets := ts);
        }
      } else {
        calls := [RateLimitStatus];
        if remaining > 0 {
          calls := calls + [UserTimeline(screenName, number)];
          reply := Timeline(status, tweets);
          if reply.httpStatus == HttpOk {
            cache := Some(CacheFile(reply, now));
          } else {
            var cached := ReadCache(cache);
            if Truthy(cached) {
              reply := cached.value;
            } else {
              message := Some(FailureMessage(reply.httpStatus));
            }
          }
        } else {
          var cached := ReadCache(cache);
          if Truthy(cached) {
            reply := cached.value;
          } else {
            message := Some(LimitMessage);
          }
        }
      }
      out := Encode(reply, json);
    }
  }
}
