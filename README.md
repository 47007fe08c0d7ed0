# Twitter timeline widget: render and the timeline cache

This project models the core of the `Twitter` class in `twitter/Twitter.php`, a
small PHP wrapper that shows a user's recent tweets on a web page. It proves
properties of the model in Dafny. The model covers two parts.

- **`render`** (lines 143-149) turns the text of a tweet into HTML. It runs
  three `preg_replace` passes in a row:
  - URLs (`https?://` followed by `[^\s"<>]+`) become `<a href="url">url</a>`;
  - `@handle`, at the start of the text or after one whitespace character,
    becomes a link to `http://twitter.com/handle`;
  - `#tag`, placed the same way, becomes a link to
    `http://twitter.com/search?q=%23tag`.

  Each pass is a leftmost, non-overlapping scan. `Linkify.Tokenize` cuts the
  subject into pieces: a character copied as is, or one match with its capture
  groups. `Linkify.Substitute` writes the pieces out. The scan is also
  described declaratively (`Linkify.IsLeftmostScan`), and that description is
  proved to pick exactly `Tokenize`'s pieces.

- **`getUserTimeline`** (lines 40-109) and **`readCache`** (lines 119-128)
  form the cache-or-fetch step, with four paths:
  - a cache file younger than one hour is served with every tweet rendered;
  - otherwise the rate limit is queried;
  - when calls remain, the timeline is requested, and a 200 response
    overwrites the cache file;
  - a failed request, or an exhausted limit, falls back to the cache file when
    `readCache` gives something truthy, and otherwise echoes an error message.

  `Timeline.TimelineStep` states the decision as a function. The client
  `Timeline.Twitter` keeps the cache file as its one field, and its imperative
  `GetUserTimeline` is proved to do what `TimelineStep` says. The clock, the
  rate-limit count and the API's response are parameters. The API calls made
  are returned as a trace. The echoed text is returned as a message.

The cache holds raw tweets. Line 71 serializes the 200 response as it came
from the API, and the same response is returned unrendered (lines 64-71).
Rendering happens only on the path that reads a fresh cache file (lines
45-51). The two fallback paths (lines 76-79 and 89-92) return the cache file
raw. So the same cached reply comes back rendered on one path and raw on the
other two (`TimelineProofs.FreshRendersFallbackDoesNot`).

Modules:
- `Options`: the option type.
- `Linkify`: render.
- `LinkifyProofs`: its properties.
- `LinkifyExamples`: concrete renderings.
- `Timeline`: the data, `readCache`, the decision function and the client class.
- `TimelineProofs`: properties of the cache.

## Model

| member | source | states |
|---|---|---|
| Linkify.Span | twitter/Twitter.php:145-147 | the length of the greedy run of class characters at the front: every character before it is in the class, and the next one is not |
| Linkify.Run | twitter/Twitter.php:145-147 | the greedy run of class characters is a prefix of the text that stops at the first character outside the class |
| Linkify.UrlFront | twitter/Twitter.php:145 | a URL match starts at the front exactly when `http://` or `https://` is followed by a URL character; it is a prefix of the text of at least 8 characters, made only of URL characters, and greedy |
| Linkify.SchemeLengthFacts | twitter/Twitter.php:145 | `https://` and `http://` exclude each other, and the scheme is made of URL characters |
| Linkify.TagFront | twitter/Twitter.php:146-147 | a mention or hashtag match starts at the front exactly when the sigil begins the subject or follows one whitespace character; `$1` is empty or that character, and `$2` is the greedy, possibly empty, run of handle characters |
| Linkify.Front | twitter/Twitter.php:145-147 | a match of any of the three patterns is a non-empty prefix of the text |
| Linkify.FirstPiece | twitter/Twitter.php:145-147 | each step of the scan consumes a non-empty prefix of the remaining subject |
| Linkify.Tokenize | twitter/Twitter.php:145-147 | the pieces of a pass cover the subject exactly, in order |
| LinkifyProofs.TokenizeIsLeftmostScan | twitter/Twitter.php:145-147 | the scan is leftmost and greedy: at each piece the remaining text has no match at its front (a copied character) or has exactly that piece's match, and `^` holds only at the first piece |
| LinkifyProofs.LeftmostScanUnique | twitter/Twitter.php:145-147 | any sequence of pieces that is a leftmost scan of the subject is the one `Tokenize` produces |
| LinkifyProofs.PassNeverShrinks | twitter/Twitter.php:145-147 | no pass makes the text shorter |
| LinkifyProofs.PassGrowsOnMatch | twitter/Twitter.php:145-147 | a match anywhere in the subject makes the output strictly longer |
| LinkifyProofs.NoMatchCopies | twitter/Twitter.php:145-147 | a subject with no match is copied unchanged |
| LinkifyProofs.PassUnchangedIff | twitter/Twitter.php:145-147 | a pass leaves the text unchanged if and only if no match starts anywhere in it |
| LinkifyProofs.UrlPassUnchangedIff | twitter/Twitter.php:145 | the URL pass leaves a text unchanged if and only if no position starts a scheme followed by a URL character |
| LinkifyProofs.SchemeFreeTextUnchanged | twitter/Twitter.php:145 | text without `http://` or `https://` passes the URL pass unchanged |
| LinkifyProofs.TagPassUnchangedIff | twitter/Twitter.php:146-147 | a mention or hashtag pass leaves a text unchanged if and only if every sigil is glued to a preceding non-whitespace character |
| LinkifyProofs.SigilFreeUnchanged | twitter/Twitter.php:146-147 | text without the sigil passes the mention or hashtag pass unchanged |
| LinkifyProofs.GluedSigilsUnchanged | twitter/Twitter.php:146-147 | sigils that each follow a non-whitespace character are never linked, even in a suffix of the subject |
| LinkifyProofs.AnchorSpacing | twitter/Twitter.php:145-147 | an anchor whose target and text hold no whitespace has none after its `<a `, so no sigil inside it can start a mention or hashtag |
| LinkifyProofs.TagPassSkipsAnchor | twitter/Twitter.php:146-147 | the mention and hashtag passes leave unchanged any anchor whose target and text hold no whitespace, such as one written by an earlier pass |
| LinkifyProofs.TagPassSkipsAnchorAfter | twitter/Twitter.php:146-147 | the same holds when the anchor follows any character other than the sigil |
| LinkifyProofs.WholeUrlWrapped | twitter/Twitter.php:145 | a word that is one whole URL becomes `<a href="u">u</a>` |
| LinkifyProofs.UrlPassAfterChar | twitter/Twitter.php:145 | a URL after any character is wrapped, and that character is kept |
| LinkifyProofs.TagAtStartWrapped | twitter/Twitter.php:146-147 | a sigil at the start of the subject followed by a handle becomes the profile or search link, with an empty `$1` |
| LinkifyProofs.TagAfterSpaceWrapped | twitter/Twitter.php:146-147 | a sigil after a whitespace character becomes that character followed by the link |
| LinkifyProofs.PassSplitsAtSpace | twitter/Twitter.php:145-147 | a pass over `a + b`, where `b` starts with whitespace, is the pass over `a` followed by the pass over `b` |
| LinkifyProofs.PassKeepsLeadingSpace | twitter/Twitter.php:145-147 | a pass keeps the leading whitespace character of its subject |
| LinkifyProofs.ShortTextHasNoUrl | twitter/Twitter.php:145 | text shorter than 8 characters passes the URL pass unchanged |
| LinkifyProofs.RenderFrom | twitter/Twitter.php:143-149 | render of a part of the subject; on the whole subject it is render |
| LinkifyProofs.RenderSplitsAtSpace | twitter/Twitter.php:143-149 | render distributes over a split before a whitespace character |
| LinkifyProofs.RenderOverWords | twitter/Twitter.php:143-149 | rendering a text made of words that each start with whitespace (after the first) is rendering each word and concatenating |
| LinkifyProofs.WholeUrlRendered | twitter/Twitter.php:143-149 | render turns a whole URL into its anchor, which the mention and hashtag passes then leave alone |
| LinkifyProofs.UrlAfterCharRendered | twitter/Twitter.php:143-149 | a URL after a character other than `@` or `#` is rendered as that character followed by the anchor |
| LinkifyProofs.UrlPassRewritesAnchor | twitter/Twitter.php:145 | the URL pass rewrites any anchor whose target is a URL, making it longer |
| LinkifyProofs.UrlPassMustComeFirst | twitter/Twitter.php:145-146 | a mention link contains a URL, so a URL pass run after the mention pass would change it; this is why the URL pass runs first |
| LinkifyProofs.RenderNotIdempotent | twitter/Twitter.php:143-149 | render wraps a URL in an anchor, and rendering that output again changes it |
| LinkifyExamples.RenderExample | twitter/Twitter.php:143-149 | `check http://x.co now @bob and #tag` renders to the URL anchor, the profile link and the search link, with the plain words kept |
| LinkifyExamples.PlainWordUnchanged | twitter/Twitter.php:143-149 | a word shorter than 8 characters with no `@` or `#` is left alone |
| LinkifyExamples.GluedWordUnchanged | twitter/Twitter.php:143-149 | a word shorter than 8 characters, without whitespace, that does not start with a sigil is left alone |
| LinkifyProofs.ColonFreeUnchanged | twitter/Twitter.php:145 | text without a `:` passes the URL pass unchanged |
| LinkifyProofs.TagLinkUnspaced | twitter/Twitter.php:146-147 | a profile or search link is an anchor whose target and text hold no whitespace |
| LinkifyProofs.MentionWordRendered | twitter/Twitter.php:143-149 | a whitespace character followed by `@` and a handle of any length renders as that character and the profile link; a `#` in the handle stays inside the link |
| LinkifyProofs.HashtagWordRendered | twitter/Twitter.php:143-149 | a whitespace character followed by `#` and a tag of any length renders as that character and the search link; an `@` in the tag stays inside the link |
| LinkifyExamples.PunctuationInsideUrl | twitter/Twitter.php:145 | trailing punctuation such as `).` is taken into the URL |
| LinkifyExamples.FragmentInsideUrl | twitter/Twitter.php:145-147 | a `#` inside a URL is part of the URL and is not linked as a hashtag |
| LinkifyExamples.GluedMentionUntouched | twitter/Twitter.php:146 | `a@b` is not a mention |
| LinkifyExamples.BareSchemeUntouched | twitter/Twitter.php:145 | `http://` followed by whitespace is not a URL |
| LinkifyExamples.LoneAtSign | twitter/Twitter.php:146 | a lone `@` still becomes a link, with an empty handle |
| LinkifyExamples.PassOrderExample | twitter/Twitter.php:145-146 | for `@bob`, running the passes in the opposite order would give a different result |
| Timeline.ReadCache | twitter/Twitter.php:119-128 | `readCache` gives nothing exactly when the file is missing, and otherwise the file's contents |
| TimelineProofs.ReadCacheTruthyIff | twitter/Twitter.php:76-79 | `readCache` is truthy exactly when the file exists and holds a non-empty reply |
| Timeline.RenderTweet | twitter/Twitter.php:49 | a tweet's text is rendered and its other fields are kept |
| Timeline.RenderTweets | twitter/Twitter.php:47-51 | every tweet is rendered in place, in order, and the count is kept |
| Timeline.RenderReply | twitter/Twitter.php:45-51 | an empty reply stays empty; a timeline keeps its status, its number of tweets and each tweet's id, and each tweet's text is rendered |
| Timeline.RenderEachTweet | twitter/Twitter.php:46-51 | the `foreach` loop leaves every tweet rendered, in order |
| Timeline.Digits | twitter/Twitter.php:82 | the decimal form of a number is non-empty, made of digits, starts with `0` only for zero and has no leading zero |
| Timeline.DigitsRoundTrip | twitter/Twitter.php:82 | reading the decimal digits back gives the number |
| Timeline.IntString | twitter/Twitter.php:82 | PHP's conversion of an integer to a string: for a non-negative number, digits without a leading zero that read back as the number; for a negative one, `-` followed by such digits of its magnitude |
| TimelineProofs.FailureMessageNamesStatus | twitter/Twitter.php:82 | the failure message is the fixed prefix, the HTTP status in decimal (read back as the status), then the fixed suffix |
| TimelineProofs.Framed | twitter/Twitter.php:82 | a string built from a prefix, a code and a suffix gives back each part |
| Timeline.Encode | twitter/Twitter.php:100-107 | the reply is returned JSON-encoded exactly when `json` is set, and the reply itself is kept |
| Timeline.Twitter.constructor | twitter/Twitter.php:20-29 | the client starts with whatever cache file is on disk |
| Timeline.Twitter.GetUserTimeline | twitter/Twitter.php:40-109 | the returned reply (encoded when asked), the echoed message, the API calls made and the new cache file are exactly what `TimelineStep` decides for the old cache |
| TimelineProofs.FreshCacheServedRendered | twitter/Twitter.php:44-53 | a fresh cache is served with every tweet rendered, with no API call, and the cache is unchanged |
| TimelineProofs.RateLimitQueriedIff | twitter/Twitter.php:44-60 | the rate limit is queried, first, exactly when the file is missing or was modified an hour or more ago |
| TimelineProofs.TimelineRequestedIff | twitter/Twitter.php:62-67 | the timeline is requested exactly when the cache is not fresh and calls remain |
| TimelineProofs.SuccessOverwritesCache | twitter/Twitter.php:62-72 | a 200 response overwrites the cache with that response, stamped now, and is returned unrendered with no message |
| TimelineProofs.FailureFallsBack | twitter/Twitter.php:73-84 | a non-200 response keeps the cache; the raw cache is returned when `readCache` is truthy, and otherwise the response with the failure message |
| TimelineProofs.LimitHitFallsBack | twitter/Twitter.php:86-97 | with no calls remaining, the timeline is not requested and the cache is kept; the raw cache is returned when truthy, and otherwise an empty reply with `Error: API limit hit` |
| TimelineProofs.CacheWrittenOnlyOnSuccess | twitter/Twitter.php:68-72 | the cache changes only on a 200 response to a request made on a stale cache |
| TimelineProofs.MessageIff | twitter/Twitter.php:80-96 | a message is echoed exactly when the cache is stale, there is no successful response, and nothing truthy can be fallen back on |
| TimelineProofs.WrittenByClientPreserved | twitter/Twitter.php:68-71 | a cache that is missing or holds a 200 response stays so after any call |
| TimelineProofs.WrittenByClientTruthyIff | twitter/Twitter.php:119-128 | for such a cache, `readCache` is truthy exactly when the file exists |
| TimelineProofs.SecondCallServedFromCache | twitter/Twitter.php:44-71 | after a successful request, a call less than an hour later is served from the cache, rendered, with no API call, whatever screen name or count it asks for |
| TimelineProofs.FreshRendersFallbackDoesNot | twitter/Twitter.php:44-97 | the same cached reply is returned rendered on the fresh path but raw on both fallback paths |
| TimelineProofs.JsonOnlyChangesEncoding | twitter/Twitter.php:100-107 | with or without `json`, two clients with the same cache return the same reply, echo the same message, make the same calls and leave the same cache |

## Left out

- The Codebird OAuth client is not part of this model: `require_once` (line 3), the credentials set up in the constructor (lines 26-28), and `getApplicationRateLimit` (lines 136-141). The remaining call count for `/statuses/user_timeline` and the timeline response (status and tweets) are parameters of `GetUserTimeline`.
- The two API calls are recorded as a returned trace of `ApiCall` values; their arguments other than the screen name and count are not modelled.
- File I/O is a field. `file_exists`, `filemtime`, `file_get_contents` and `file_put_contents` become the optional `CacheFile` (its contents and modification time). `time()` becomes the `now` parameter. The cache path (lines 10 and 23) is not modelled, because there is one file.
- `serialize`/`unserialize` are taken as exact inverses. A file that does not unserialize is modelled as holding an empty reply.
- `json_encode` is left uninterpreted: `Output.Json` wraps the reply it would encode.
- `echo` (lines 82 and 95) becomes the returned `message`; output ordering relative to the page is not modelled.
- Tweet fields: only the text is modelled, and every other field of a tweet is abstracted into `id`, since render touches only the text.
- PHP's dynamic typing is not modelled:
  - The response array also holds its `httpstatus` (and rate-limit) entries. Over that array, the loop at line 47 also visits non-tweet values: PHP 5 only warns for them, and PHP 8 raises an error. The model iterates over the tweets only.
  - The `(array)` casts and the `$tweets` array built at line 50 are not modelled, because that array is never used.
  - The tweets are PHP objects updated through shared handles. The model updates them as values, with the same visible result.
- A missing `/statuses/user_timeline` entry in the rate-limit answer (a null `remaining`) is covered by `remaining <= 0`.
- The default arguments `'dusteddesign'` and `5` (line 40) are not modelled; every call passes its arguments.
- `render` is modelled on Unicode characters, where PCRE without the `u` modifier works on bytes. The two agree here, because every byte of a multi-byte character is outside `\s`, `"`, `<`, `>` and `:`. Locale-dependent character tables are not modelled. `\s` is the ASCII set: space, tab, line feed, vertical tab, form feed and carriage return.
- The `i` and `s` modifiers on lines 146-147 change nothing for these patterns, because they contain no letters and no `.`.
- Concurrent page views racing on the cache file are not modelled; each call is one atomic step.
