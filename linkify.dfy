/**
 * The tweet linkifier `Twitter::render` (twitter/Twitter.php:143-149).
 *
 * `render` runs three `preg_replace` calls in a row: URLs, then @mentions,
 * then #hashtags. `preg_replace` finds the leftmost match, writes its
 * replacement, and resumes the search right after the match, copying every
 * character that no match covers. Each pass is modelled in two steps:
 * `Tokenize` cuts the subject into pieces (a character copied as is, or one
 * match with its capture groups), and `Substitute` writes each piece out.
 */
module Linkify {
  import opened Options

  /** PCRE's `\s`: space, tab, line feed, vertical tab, form feed, carriage return. */
  predicate IsSpace(c: char) {
    c == ' ' || c == '\t' || c == '\n' || c == '\U{000B}' || c == '\U{000C}' || c == '\r'
  }

  /**
   * The two negated character classes of the patterns:
   * `[^\s"<>]` for the body of a URL and `[^\s"\t\n\r<:]` for a handle or tag.
   */
  datatype CharClass = UrlChars | HandleChars

  predicate InClass(k: CharClass, c: char) {
    && !IsSpace(c)
    && c != '"'
    && c != '<'
    && match k
       case UrlChars => c != '>'
       case HandleChars => c != ':'
  }

  predicate StartsWith(s: seq<char>, prefix: seq<char>) {
    |prefix| <= |s| && s[..|prefix|] == prefix
  }

  /** Length of the longest run of class-`k` characters at the front of `s` (a greedy `[...]*`). */
  function Span(k: CharClass, s: seq<char>): (n: nat)
    ensures n <= |s|
    ensures forall i :: 0 <= i < n ==> InClass(k, s[i])
    ensures n == |s| || !InClass(k, s[n])
  {
    if s == [] || !InClass(k, s[0]) then 0 else 1 + Span(k, s[1..])
  }

  /** The longest run of class-`k` characters at the front of `s`. */
  function Run(k: CharClass, s: seq<char>): (t: seq<char>)
    ensures StartsWith(s, t)
    ensures forall i :: 0 <= i < |t| ==> InClass(k, t[i])
    ensures |t| == |s| || !InClass(k, s[|t|])
  {
    var n := Span(k, s);
    assert forall i :: 0 <= i < n ==> s[..n][i] == s[i];
    s[..n]
  }

  /** Length of the `https?://` that `s` starts with, 0 if none. */
  function SchemeLength(s: seq<char>): nat {
    if StartsWith(s, "https://") then 8
    else if StartsWith(s, "http://") then 7
    else 0
  }

  /** `s` begins with `http://` or `https://` followed by at least one URL character. */
  predicate UrlStartsAt(s: seq<char>) {
    || (StartsWith(s, "http://") && |s| > 7 && InClass(UrlChars, s[7]))
    || (StartsWith(s, "https://") && |s| > 8 && InClass(UrlChars, s[8]))
  }

  /**
   * The match of `https?:\/\/[^\s"<>]+` that starts at the front of `s`.
   * It exists exactly when a scheme is followed by at least one URL character,
   * and it runs greedily up to the first character outside `[^\s"<>]`.
   */
  function UrlFront(s: seq<char>): (r: Option<seq<char>>)
    ensures r.Some? <==> UrlStartsAt(s)
    ensures r.Some? ==>
              && 8 <= |r.value|
              && StartsWith(s, r.value)
              && (forall i :: 0 <= i < |r.value| ==> InClass(UrlChars, r.value[i]))
              && (|r.value| == |s| || !InClass(UrlChars, s[|r.value|]))
  {
    SchemeLengthFacts(s);
    var k := SchemeLength(s);
    if k == 0 then None
    else
      var n := Span(UrlChars, s[k..]);
      if n == 0 then None else Some(s[..k + n])
  }

  /** `https://` and `http://` exclude each other, and the scheme characters are URL characters. */
  lemma SchemeLengthFacts(s: seq<char>)
    ensures var k := SchemeLength(s);
            && k <= |s|
            && (k == 8 ==> StartsWith(s, "https://") && !StartsWith(s, "http://"))
            && (k == 7 ==> StartsWith(s, "http://"))
            && (k == 0 ==> !StartsWith(s, "http://") && !StartsWith(s, "https://"))
            && forall i :: 0 <= i < k ==> InClass(UrlChars, s[i])
  {
    if StartsWith(s, "https://") {
      assert s[4] == 's';
    }
  }

  /** Capture groups `$1` and `$2` of one match. */
  datatype Groups = Groups(g1: seq<char>, g2: seq<char>)

  /**
   * The match of `(^|[\n\s])S([^\s"\t\n\r<:]*)` at the front of `s`, for the
   * sigil S. `^` holds only where the subject begins (`atStart`); elsewhere
   * the sigil must follow one whitespace character, which becomes `$1`.
   * The handle `$2` is the longest run, possibly empty, of handle characters.
   */
  function TagFront(sigil: char, s: seq<char>, atStart: bool): (r: Option<Groups>)
    ensures r.Some? <==> (atStart && |s| > 0 && s[0] == sigil) || (|s| > 1 && IsSpace(s[0]) && s[1] == sigil)
    ensures r.Some? ==>
              && r.value.g1 == (if atStart && s[0] == sigil then [] else [s[0]])
              && StartsWith(s, r.value.g1 + [sigil] + r.value.g2)
              && (forall i :: 0 <= i < |r.value.g2| ==> InClass(HandleChars, r.value.g2[i]))
              && var end := |r.value.g1| + 1 + |r.value.g2|;
                 end == |s| || !InClass(HandleChars, s[end])
  {
    if atStart && |s| > 0 && s[0] == sigil then
      Some(Groups([], Run(HandleChars, s[1..])))
    else if |s| > 1 && IsSpace(s[0]) && s[1] == sigil then
      Some(Groups([s[0]], Run(HandleChars, s[2..])))
    else
      None
  }

  /** The three passes of `render`, in the order they run. */
  datatype Pattern = Url | Mention | Hashtag

  function Sigil(p: Pattern): char
    requires p != Url
  {
    if p == Mention then '@' else '#'
  }

  /** The text a match with groups `g` covers in the subject. */
  function MatchedText(p: Pattern, g: Groups): seq<char> {
    if p == Url then g.g1 else g.g1 + [Sigil(p)] + g.g2
  }

  /** The match of pattern `p` at the front of `s`, as its capture groups. */
  function Front(p: Pattern, s: seq<char>, atStart: bool): (r: Option<Groups>)
    ensures r.Some? ==> 0 < |MatchedText(p, r.value)| && StartsWith(s, MatchedText(p, r.value))
  {
    if p == Url then
      match UrlFront(s)
      case Some(u) => Some(Groups(u, []))
      case None => None
    else
      TagFront(Sigil(p), s, atStart)
  }

  /** A character no match covers, or one match. */
  datatype Piece = Keep(c: char) | Hit(groups: Groups)

  function PieceText(p: Pattern, x: Piece): seq<char> {
    match x
    case Keep(c) => [c]
    case Hit(g) => MatchedText(p, g)
  }

  /** The subject text a sequence of pieces covers. */
  function Source(p: Pattern, ps: seq<Piece>): seq<char> {
    if ps == [] then [] else PieceText(p, ps[0]) + Source(p, ps[1..])
  }

  /** The piece at the front of `s`: the match there, or else its first character. */
  function FirstPiece(p: Pattern, s: seq<char>, atStart: bool): (x: Piece)
    requires s != []
    ensures 0 < |PieceText(p, x)| && StartsWith(s, PieceText(p, x))
  {
    match Front(p, s, atStart)
    case None => Keep(s[0])
    case Some(g) => Hit(g)
  }

  /**
   * The search loop of `preg_replace`: try a match at the current position;
   * on success resume right after it, otherwise copy one character and move on.
   * The pieces cover the subject exactly.
   */
  function Tokenize(p: Pattern, s: seq<char>, atStart: bool): (ps: seq<Piece>)
    ensures Source(p, ps) == s
    decreases |s|
  {
    if s == [] then []
    else
      var x := FirstPiece(p, s, atStart);
      [x] + Tokenize(p, s[|PieceText(p, x)|..], false)
  }

  /** The match a piece records: none for a copied character. */
  function MatchOf(x: Piece): Option<Groups> {
    match x
    case Keep(_) => None
    case Hit(g) => Some(g)
  }

  /**
   * The reference description of a `preg_replace` search: the pieces cover
   * `s`, and at every piece the text still to be searched has no match at its
   * front (the piece is one copied character) or has exactly the piece's
   * match (leftmost, then greedy). `^` can only hold at the first piece.
   */
  predicate IsLeftmostScan(p: Pattern, s: seq<char>, atStart: bool, ps: seq<Piece>) {
    && Source(p, ps) == s
    && forall i :: 0 <= i < |ps| ==> Front(p, Source(p, ps[i..]), atStart && i == 0) == MatchOf(ps[i])
  }

  /** No match of `p` starts anywhere in `s`. */
  predicate NoMatchIn(p: Pattern, s: seq<char>, atStart: bool) {
    forall i :: 0 <= i < |s| ==> Front(p, s[i..], atStart && i == 0).None?
  }

  /** An HTML anchor to `href` showing `text`. */
  function Anchor(href: seq<char>, text: seq<char>): seq<char> {
    "<a href=\"" + href + "\">" + text + "</a>"
  }

  /** The anchor for handle or tag `h`: a profile link for a mention, a search link for a hashtag. */
  function TagLink(p: Pattern, h: seq<char>): seq<char>
    requires p != Url
  {
    if p == Mention then Anchor("http://twitter.com/" + h, "@" + h)
    else Anchor("http://twitter.com/search?q=%23" + h, "#" + h)
  }

  /** The replacement strings of lines 145-147, with `$1` and `$2` filled in. */
  function Replacement(p: Pattern, x: Piece): seq<char> {
    match x
    case Keep(c) => [c]
    case Hit(g) => if p == Url then Anchor(g.g1, g.g1) else g.g1 + TagLink(p, g.g2)
  }

  function Substitute(p: Pattern, ps: seq<Piece>): seq<char> {
    if ps == [] then [] else Replacement(p, ps[0]) + Substitute(p, ps[1..])
  }

  /** One `preg_replace` pass over `s`; `atStart` says whether `s` is the whole subject. */
  function PassFrom(p: Pattern, s: seq<char>, atStart: bool): seq<char> {
    Substitute(p, Tokenize(p, s, atStart))
  }

  function Pass(p: Pattern, s: seq<char>): seq<char> {
    PassFrom(p, s, true)
  }

  /** `Twitter::render`: URLs first, then mentions, then hashtags, each pass over the previous one's output. */
  function Render(text: seq<char>): seq<char> {
    Pass(Hashtag, Pass(Mention, Pass(Url, text)))
  }
}
