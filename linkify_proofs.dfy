/**
 * Properties of the linkifier: each pass performs exactly the leftmost,
 * greedy, non-overlapping search of `preg_replace`; text with no match comes
 * back unchanged (and only such text); matches never reach across whitespace;
 * and the concrete outputs of `render` on characteristic inputs.
 */
module LinkifyProofs {
  import opened Options
  import opened Linkify

  lemma ConsAppend<T>(x: T, u: seq<T>, v: seq<T>)
    ensures [x] + (u + v) == ([x] + u) + v
  {
  }

  lemma DropAppend<T>(a: seq<T>, b: seq<T>, m: nat)
    requires m <= |a|
    ensures (a + b)[m..] == a[m..] + b
  {
  }

  // ---------------------------------------------------------------------------
  // The scan is the one preg_replace performs

  /** `Tokenize` produces the leftmost, greedy, non-overlapping tokenisation. */
  lemma {:induction false} TokenizeIsLeftmostScan(p: Pattern, s: seq<char>, atStart: bool)
    ensures IsLeftmostScan(p, s, atStart, Tokenize(p, s, atStart))
    decreases |s|
  {
    var ps := Tokenize(p, s, atStart);
    if s != [] {
      var rest := s[|PieceText(p, FirstPiece(p, s, atStart))|..];
      TokenizeIsLeftmostScan(p, rest, false);
      var tail := Tokenize(p, rest, false);
      assert ps == [ps[0]] + tail;
      assert MatchOf(ps[0]) == Front(p, s, atStart);
      forall i | 0 <= i < |ps|
        ensures Front(p, Source(p, ps[i..]), atStart && i == 0) == MatchOf(ps[i])
      {
        if i == 0 {
          assert ps[0..] == ps;
        } else {
          assert ps[i..] == tail[i - 1..];
        }
      }
    }
  }

  /** The first piece of a leftmost scan is the piece at the front of the text, and the rest scans the rest. */
  lemma LeftmostScanTail(p: Pattern, s: seq<char>, atStart: bool, ps: seq<Piece>)
    requires IsLeftmostScan(p, s, atStart, ps) && ps != []
    ensures s != [] && FirstPiece(p, s, atStart) == ps[0]
    ensures IsLeftmostScan(p, s[|PieceText(p, ps[0])|..], false, ps[1..])
  {
    assert ps[0..] == ps;
    var head, tail := ps[0], ps[1..];
    assert Front(p, s, atStart) == MatchOf(head);
    assert s == PieceText(p, head) + Source(p, tail);
    var m := |PieceText(p, head)|;
    assert 0 < m;
    assert Source(p, tail) == s[m..];
    forall i | 0 <= i < |tail|
      ensures Front(p, Source(p, tail[i..]), false && i == 0) == MatchOf(tail[i])
    {
      assert tail[i..] == ps[i + 1..];
      assert tail[i] == ps[i + 1];
    }
    if head.Keep? {
      assert s[0] == head.c;
    }
  }

  /** Any tokenisation that meets the reference description is the one `Tokenize` computes. */
  lemma {:induction false} LeftmostScanUnique(p: Pattern, s: seq<char>, atStart: bool, ps: seq<Piece>)
    requires IsLeftmostScan(p, s, atStart, ps)
    ensures ps == Tokenize(p, s, atStart)
    decreases |ps|
  {
    if ps != [] {
      LeftmostScanTail(p, s, atStart, ps);
      var m := |PieceText(p, ps[0])|;
      LeftmostScanUnique(p, s[m..], false, ps[1..]);
      assert ps == [ps[0]] + ps[1..];
    }
  }

  // ---------------------------------------------------------------------------
  // Unchanged exactly when nothing matches

  lemma {:induction false} SubstituteAppend(p: Pattern, a: seq<Piece>, b: seq<Piece>)
    ensures Substitute(p, a + b) == Substitute(p, a) + Substitute(p, b)
    decreases |a|
  {
    if a == [] {
      assert a + b == b;
    } else {
      assert (a + b)[0] == a[0];
      assert (a + b)[1..] == a[1..] + b;
      SubstituteAppend(p, a[1..], b);
    }
  }

  /** One step of a pass: the first piece's replacement, then the pass over the rest. */
  lemma PassFromStep(p: Pattern, s: seq<char>, atStart: bool)
    requires s != []
    ensures var x := FirstPiece(p, s, atStart);
            PassFrom(p, s, atStart) == Replacement(p, x) + PassFrom(p, s[|PieceText(p, x)|..], false)
  {
    var ps := Tokenize(p, s, atStart);
    assert Substitute(p, ps) == Replacement(p, ps[0]) + Substitute(p, ps[1..]);
  }

  /** A match's replacement is longer than the match; a copied character stays one character. */
  lemma ReplacementGrows(p: Pattern, x: Piece)
    ensures x.Keep? ==> Replacement(p, x) == PieceText(p, x)
    ensures x.Hit? ==> |Replacement(p, x)| > |PieceText(p, x)|
  {
  }

  /** A pass never deletes text. */
  lemma {:induction false} PassNeverShrinks(p: Pattern, s: seq<char>, atStart: bool)
    ensures |PassFrom(p, s, atStart)| >= |s|
    decreases |s|
  {
    if s != [] {
      PassFromStep(p, s, atStart);
      ReplacementGrows(p, FirstPiece(p, s, atStart));
      PassNeverShrinks(p, s[|PieceText(p, FirstPiece(p, s, atStart))|..], false);
    }
  }

  /** The lengths in one step of a pass. */
  lemma PassLengthStep(p: Pattern, s: seq<char>, atStart: bool)
    requires s != []
    ensures var x := FirstPiece(p, s, atStart);
            var t := s[|PieceText(p, x)|..];
            |PassFrom(p, s, atStart)| == |Replacement(p, x)| + |PassFrom(p, t, false)| &&
            |s| == |PieceText(p, x)| + |t|
  {
    PassFromStep(p, s, atStart);
  }

  /** One match anywhere makes the output strictly longer than the input. */
  lemma {:induction false} PassGrowsOnMatch(p: Pattern, s: seq<char>, atStart: bool, i: nat)
    requires i < |s| && Front(p, s[i..], atStart && i == 0).Some?
    ensures |PassFrom(p, s, atStart)| > |s|
    decreases |s|
  {
    if FirstPiece(p, s, atStart).Hit? {
      PassGrowsAtHit(p, s, atStart);
    } else {
      MatchAfterKeep(p, s, atStart, i);
      PassGrowsOnMatch(p, s[1..], false, i - 1);
      PassLengthAtKeep(p, s, atStart);
    }
  }

  /** A match at the front of the subject is the first piece. */
  lemma MatchAtHeadIsHit(p: Pattern, s: seq<char>, atStart: bool)
    requires s != [] && Front(p, s, atStart).Some?
    ensures FirstPiece(p, s, atStart).Hit?
  {
  }

  /** When the first character is copied, a later match is a match of the rest. */
  lemma MatchAfterKeep(p: Pattern, s: seq<char>, atStart: bool, i: nat)
    requires i < |s| && Front(p, s[i..], atStart && i == 0).Some?
    requires FirstPiece(p, s, atStart).Keep?
    ensures 1 <= i && Front(p, s[1..][i - 1..], false && i - 1 == 0).Some?
  {
    assert i != 0 by {
      assert s[0..] == s;
      if i == 0 { MatchAtHeadIsHit(p, s, atStart); }
    }
    assert s[1..][i - 1..] == s[i..];
  }

  /** A pass whose first piece is a match writes more than the subject holds. */
  lemma PassGrowsAtHit(p: Pattern, s: seq<char>, atStart: bool)
    requires s != [] && FirstPiece(p, s, atStart).Hit?
    ensures |PassFrom(p, s, atStart)| > |s|
  {
    var x := FirstPiece(p, s, atStart);
    PassLengthStep(p, s, atStart);
    ReplacementGrows(p, x);
    PassNeverShrinks(p, s[|PieceText(p, x)|..], false);
  }

  /** A copied first character adds one to the length of the rest of the pass. */
  lemma PassLengthAtKeep(p: Pattern, s: seq<char>, atStart: bool)
    requires s != [] && FirstPiece(p, s, atStart).Keep?
    ensures |PassFrom(p, s, atStart)| == 1 + |PassFrom(p, s[1..], false)|
  {
    PassLengthStep(p, s, atStart);
  }

  lemma {:induction false} NoMatchCopies(p: Pattern, s: seq<char>, atStart: bool)
    requires NoMatchIn(p, s, atStart)
    ensures PassFrom(p, s, atStart) == s
    decreases |s|
  {
    if s != [] {
      assert s[0..] == s;
      PassFromStep(p, s, atStart);
      forall i | 0 <= i < |s[1..]| ensures Front(p, s[1..][i..], false && i == 0).None? {
        assert s[1..][i..] == s[i + 1..];
      }
      NoMatchCopies(p, s[1..], false);
    }
  }

  /** A pass leaves its input unchanged if and only if no match starts anywhere in it. */
  lemma PassUnchangedIff(p: Pattern, s: seq<char>, atStart: bool)
    ensures PassFrom(p, s, atStart) == s <==> NoMatchIn(p, s, atStart)
  {
    if NoMatchIn(p, s, atStart) {
      NoMatchCopies(p, s, atStart);
    } else {
      var i :| 0 <= i < |s| && Front(p, s[i..], atStart && i == 0).Some?;
      PassGrowsOnMatch(p, s, atStart, i);
    }
  }

  /**
   * The URL pass changes nothing exactly when no `http://` or `https://` in
   * the text is followed by a URL character; a scheme followed by whitespace,
   * `"`, `<`, `>` or the end of the text is not linked.
   */
  lemma UrlPassUnchangedIff(s: seq<char>)
    ensures Pass(Url, s) == s <==> forall i :: 0 <= i < |s| ==> !UrlStartsAt(s[i..])
  {
    PassUnchangedIff(Url, s, true);
  }

  /** Text that contains no `http://` and no `https://` passes through the URL pass unchanged. */
  lemma SchemeFreeTextUnchanged(s: seq<char>)
    requires forall i :: 0 <= i < |s| ==> !StartsWith(s[i..], "http://") && !StartsWith(s[i..], "https://")
    ensures Pass(Url, s) == s
  {
    UrlPassUnchangedIff(s);
  }

  /**
   * The mention (or hashtag) pass changes nothing exactly when every `@` (or `#`)
   * follows a non-whitespace character: a sigil at the start of the text or
   * right after whitespace always produces an anchor, and no other does.
   */
  lemma TagPassUnchangedIff(p: Pattern, s: seq<char>)
    requires p != Url
    ensures Pass(p, s) == s <==>
              forall i :: 0 <= i < |s| && s[i] == Sigil(p) ==> i > 0 && !IsSpace(s[i - 1])
  {
    PassUnchangedIff(p, s, true);
    if NoMatchIn(p, s, true) {
      forall i | 0 <= i < |s| ensures s[i] == Sigil(p) ==> i > 0 && !IsSpace(s[i - 1]) {
        if i == 0 {
          assert s[0..] == s;
        } else {
          assert s[i - 1..][1] == s[i];
        }
      }
    } else {
      var j :| 0 <= j < |s| && Front(p, s[j..], j == 0).Some?;
      if j == 0 {
        assert s[0..] == s;
        if s[0] != Sigil(p) {
          assert s[1] == Sigil(p) && IsSpace(s[0]);
        }
      } else {
        assert s[j..][1] == s[j + 1];
        assert s[j + 1] == Sigil(p) && IsSpace(s[j]);
      }
    }
  }

  /** With no sigil in the text, the mention or hashtag pass changes nothing, wherever the text sits. */
  lemma SigilFreeUnchanged(p: Pattern, s: seq<char>, atStart: bool)
    requires p != Url && Sigil(p) !in s
    ensures PassFrom(p, s, atStart) == s
  {
    forall i | 0 <= i < |s| ensures Front(p, s[i..], atStart && i == 0).None? {
      assert s[i..][0] == s[i];
      assert |s[i..]| > 1 ==> s[i..][1] == s[i + 1];
    }
    NoMatchCopies(p, s, atStart);
  }

  /**
   * A mention or hashtag pass changes nothing, wherever the text sits, when
   * every sigil in it is glued to a non-whitespace character before it.
   */
  lemma GluedSigilsUnchanged(p: Pattern, s: seq<char>, atStart: bool)
    requires p != Url
    requires forall i :: 0 <= i < |s| && s[i] == Sigil(p) ==> i > 0 && !IsSpace(s[i - 1])
    ensures PassFrom(p, s, atStart) == s
  {
    forall i | 0 <= i < |s| ensures Front(p, s[i..], atStart && i == 0).None? {
      assert s[i..][0] == s[i];
      if i + 1 < |s| {
        assert s[i..][1] == s[i + 1];
      }
    }
    NoMatchCopies(p, s, atStart);
  }

  /** Text without whitespace. */
  predicate Unspaced(s: seq<char>) {
    forall i :: 0 <= i < |s| ==> !IsSpace(s[i])
  }

  /** An anchor whose target and text hold no whitespace has one whitespace character, the one after `<a`. */
  lemma AnchorSpacing(href: seq<char>, text: seq<char>)
    requires Unspaced(href) && Unspaced(text)
    ensures var a := Anchor(href, text);
            |a| > 3 && a[..3] == "<a " && a[3] == 'h' &&
            forall j :: 3 <= j < |a| ==> !IsSpace(a[j])
  {
    var t := "href=\"" + href + "\">" + text + "</a>";
    assert Anchor(href, text) == "<a " + t;
    forall j | 0 <= j < |t| ensures !IsSpace(t[j]) {
      if j < 6 + |href| {
        assert ("href=\"" + href)[j] == t[j];
      } else if j < 8 + |href| {
      } else if j < 8 + |href| + |text| {
        assert t[j] == text[j - 8 - |href|];
      }
    }
    assert forall j :: 3 <= j < |Anchor(href, text)| ==> Anchor(href, text)[j] == t[j - 3];
  }

  /** No mention or hashtag pass finds anything in an anchor whose target and text hold no whitespace. */
  lemma TagPassSkipsAnchor(p: Pattern, href: seq<char>, text: seq<char>, atStart: bool)
    requires p != Url
    requires Unspaced(href) && Unspaced(text)
    ensures PassFrom(p, Anchor(href, text), atStart) == Anchor(href, text)
  {
    var a := Anchor(href, text);
    AnchorSpacing(href, text);
    forall i | 0 <= i < |a| ensures a[i] == Sigil(p) ==> i > 0 && !IsSpace(a[i - 1]) {
      if i < 3 {
        assert a[i] == a[..3][i];
      }
    }
    GluedSigilsUnchanged(p, a, atStart);
  }

  // ---------------------------------------------------------------------------
  // Matches never reach across whitespace

  lemma {:induction false} SpanStopsAt(k: CharClass, a: seq<char>, b: seq<char>)
    requires b != [] && !InClass(k, b[0])
    ensures Span(k, a + b) == Span(k, a)
    decreases |a|
  {
    if a == [] {
      assert a + b == b;
    } else {
      assert (a + b)[0] == a[0];
      assert (a + b)[1..] == a[1..] + b;
      SpanStopsAt(k, a[1..], b);
    }
  }

  lemma RunStopsAt(k: CharClass, a: seq<char>, b: seq<char>)
    requires b != [] && !InClass(k, b[0])
    ensures Run(k, a + b) == Run(k, a)
  {
    SpanStopsAt(k, a, b);
    assert (a + b)[..Span(k, a)] == a[..Span(k, a)];
  }

  lemma StartsWithStopsAt(a: seq<char>, b: seq<char>, prefix: seq<char>)
    requires b != [] && b[0] !in prefix
    ensures StartsWith(a + b, prefix) == StartsWith(a, prefix)
  {
    if |prefix| <= |a| {
      assert (a + b)[..|prefix|] == a[..|prefix|];
    } else {
      assert |a| < |a + b| && (a + b)[|a|] == b[0];
      assert prefix[|a|] != b[0];
    }
  }

  lemma UrlFrontStopsAtSpace(a: seq<char>, b: seq<char>)
    requires a != [] && b != [] && IsSpace(b[0])
    ensures UrlFront(a + b) == UrlFront(a)
  {
    SchemeLengthStopsAt(a, b);
    var k := SchemeLength(a);
    if k > 0 {
      UrlSpanStopsAt(a, b, k);
      assert (a + b)[..k + Span(UrlChars, a[k..])] == a[..k + Span(UrlChars, a[k..])];
    }
  }

  /** The URL characters after the scheme end no later than the whitespace that follows `a`. */
  lemma UrlSpanStopsAt(a: seq<char>, b: seq<char>, k: nat)
    requires k <= |a| && b != [] && IsSpace(b[0])
    ensures Span(UrlChars, (a + b)[k..]) == Span(UrlChars, a[k..]) <= |a| - k
  {
    DropAppend(a, b, k);
    SpanStopsAt(UrlChars, a[k..], b);
  }

  lemma SchemeLengthStopsAt(a: seq<char>, b: seq<char>)
    requires b != [] && IsSpace(b[0])
    ensures SchemeLength(a + b) == SchemeLength(a) <= |a|
  {
    StartsWithStopsAt(a, b, "https://");
    StartsWithStopsAt(a, b, "http://");
  }

  lemma TagFrontStopsAtSpace(sigil: char, a: seq<char>, b: seq<char>, atStart: bool)
    requires !IsSpace(sigil)
    requires a != [] && b != [] && IsSpace(b[0])
    ensures TagFront(sigil, a + b, atStart) == TagFront(sigil, a, atStart)
  {
    var s := a + b;
    assert s[0] == a[0];
    if atStart && s[0] == sigil {
      assert s[1..] == a[1..] + b;
      RunStopsAt(HandleChars, a[1..], b);
    } else if |s| > 1 && IsSpace(s[0]) && s[1] == sigil {
      assert |a| > 1;
      assert s[2..] == a[2..] + b;
      RunStopsAt(HandleChars, a[2..], b);
    } else {
      assert |a| > 1 ==> s[1] == a[1];
    }
  }

  /** The match at the front of `a` does not see past a whitespace character that follows `a`. */
  lemma FrontStopsAtSpace(p: Pattern, a: seq<char>, b: seq<char>, atStart: bool)
    requires a != [] && b != [] && IsSpace(b[0])
    ensures Front(p, a + b, atStart) == Front(p, a, atStart)
  {
    if p == Url {
      UrlFrontStopsAtSpace(a, b);
    } else {
      TagFrontStopsAtSpace(Sigil(p), a, b, atStart);
    }
  }

  lemma TokenizeStep(p: Pattern, s: seq<char>, atStart: bool)
    requires s != []
    ensures var x := FirstPiece(p, s, atStart);
            Tokenize(p, s, atStart) == [x] + Tokenize(p, s[|PieceText(p, x)|..], false)
  {
  }

  /** Where the text begins with whitespace, `^` makes no difference. */
  lemma TokenizeAtSpace(p: Pattern, s: seq<char>, atStart: bool)
    requires s != [] && IsSpace(s[0])
    ensures Tokenize(p, s, atStart) == Tokenize(p, s, false)
  {
    assert FirstPiece(p, s, atStart) == FirstPiece(p, s, false) by {
      assert Front(p, s, atStart) == Front(p, s, false);
    }
    TokenizeStep(p, s, atStart);
    TokenizeStep(p, s, false);
  }

  lemma FirstPieceStopsAtSpace(p: Pattern, a: seq<char>, b: seq<char>, atStart: bool)
    requires a != [] && b != [] && IsSpace(b[0])
    ensures FirstPiece(p, a + b, atStart) == FirstPiece(p, a, atStart)
  {
    FrontStopsAtSpace(p, a, b, atStart);
    assert (a + b)[0] == a[0];
  }

  /** Tokenisation of a text is that of its part before a whitespace character followed by that of the rest. */
  lemma {:induction false} TokenizeSplitsAtSpace(p: Pattern, a: seq<char>, b: seq<char>, atStart: bool)
    requires b != [] && IsSpace(b[0])
    ensures Tokenize(p, a + b, atStart) == Tokenize(p, a, atStart) + Tokenize(p, b, false)
    decreases |a|
  {
    if a == [] {
      assert a + b == b;
      TokenizeAtSpace(p, b, atStart);
    } else {
      var m := |PieceText(p, FirstPiece(p, a, atStart))|;
      TokenizeSplitsAtSpace(p, a[m..], b, false);
      TokenizeSplitStep(p, a, b, atStart);
    }
  }

  lemma TokenizeSplitStep(p: Pattern, a: seq<char>, b: seq<char>, atStart: bool)
    requires a != [] && b != [] && IsSpace(b[0])
    requires var m := |PieceText(p, FirstPiece(p, a, atStart))|;
             Tokenize(p, a[m..] + b, false) == Tokenize(p, a[m..], false) + Tokenize(p, b, false)
    ensures Tokenize(p, a + b, atStart) == Tokenize(p, a, atStart) + Tokenize(p, b, false)
  {
    var x := FirstPiece(p, a, atStart);
    var m := |PieceText(p, x)|;
    assert Tokenize(p, a + b, atStart) == [x] + Tokenize(p, a[m..] + b, false) by {
      FirstPieceStopsAtSpace(p, a, b, atStart);
      DropAppend(a, b, m);
      TokenizeStep(p, a + b, atStart);
    }
    assert Tokenize(p, a, atStart) == [x] + Tokenize(p, a[m..], false) by {
      TokenizeStep(p, a, atStart);
    }
    ConsAppend(x, Tokenize(p, a[m..], false), Tokenize(p, b, false));
  }

  /** Each pass works word by word: its output on `a + b` is its output on `a` followed by its output on `b`. */
  lemma PassSplitsAtSpace(p: Pattern, a: seq<char>, b: seq<char>, atStart: bool)
    requires b != [] && IsSpace(b[0])
    ensures PassFrom(p, a + b, atStart) == PassFrom(p, a, atStart) + PassFrom(p, b, false)
  {
    TokenizeSplitsAtSpace(p, a, b, atStart);
    SubstituteAppend(p, Tokenize(p, a, atStart), Tokenize(p, b, false));
  }

  // ---------------------------------------------------------------------------
  // What a pass writes for one word

  /** A URL needs at least eight characters, so shorter text is never linked. */
  lemma ShortTextHasNoUrl(s: seq<char>, atStart: bool)
    requires |s| < 8
    ensures PassFrom(Url, s, atStart) == s
  {
    forall i | 0 <= i < |s| ensures Front(Url, s[i..], atStart && i == 0).None? {
    }
    NoMatchCopies(Url, s, atStart);
  }

  /** A pass over the empty text writes nothing. */
  lemma PassOfEmpty(p: Pattern, atStart: bool)
    ensures PassFrom(p, [], atStart) == []
  {
  }

  /** A leading whitespace character is copied by the URL pass. */
  lemma UrlPassCopiesSpace(s: seq<char>, atStart: bool)
    requires s != [] && IsSpace(s[0])
    ensures PassFrom(Url, s, atStart) == [s[0]] + PassFrom(Url, s[1..], false)
  {
    UrlNotAtSpace(s, atStart);
    PassFromStep(Url, s, atStart);
  }

  /** A word that is one whole URL `u` becomes `<a href="u">u</a>`. */
  lemma WholeUrlWrapped(u: seq<char>, atStart: bool)
    requires UrlStartsAt(u)
    requires forall i :: 0 <= i < |u| ==> InClass(UrlChars, u[i])
    ensures PassFrom(Url, u, atStart) == Anchor(u, u)
  {
    var r := UrlFront(u);
    assert r.Some?;
    assert |r.value| == |u|;
    assert r.value == u[..|u|] == u;
    PassFromStep(Url, u, atStart);
    assert u[|u|..] == [];
    PassOfEmpty(Url, false);
  }

  /** A run over text made only of the class's characters is the whole text. */
  lemma RunWhole(k: CharClass, s: seq<char>)
    requires forall i :: 0 <= i < |s| ==> InClass(k, s[i])
    ensures Run(k, s) == s
  {
    assert Span(k, s) == |s|;
    assert s[..|s|] == s;
  }

  /** A pass whose first piece is a match covering all of the text writes just that match's replacement. */
  lemma PassOfWholeMatch(p: Pattern, s: seq<char>, atStart: bool, g: Groups)
    requires s != [] && Front(p, s, atStart) == Some(g) && |MatchedText(p, g)| == |s|
    ensures PassFrom(p, s, atStart) == Replacement(p, Hit(g))
  {
    PassFromStep(p, s, atStart);
    assert s[|s|..] == [];
    PassOfEmpty(p, false);
  }

  /** A sigil that begins the text, followed by a handle `h`, becomes the anchor for `h`. */
  lemma TagAtStartWrapped(p: Pattern, h: seq<char>)
    requires p != Url
    requires forall i :: 0 <= i < |h| ==> InClass(HandleChars, h[i])
    ensures PassFrom(p, [Sigil(p)] + h, true) == TagLink(p, h)
  {
    var s := [Sigil(p)] + h;
    assert s[1..] == h;
    RunWhole(HandleChars, h);
    assert Front(p, s, true) == Some(Groups([], h));
    PassOfWholeMatch(p, s, true, Groups([], h));
    assert [] + TagLink(p, h) == TagLink(p, h);
  }

  /** Whitespace, a sigil and a handle `h` become the whitespace followed by the anchor for `h`. */
  lemma TagAfterSpaceWrapped(p: Pattern, w: char, h: seq<char>, atStart: bool)
    requires p != Url && IsSpace(w)
    requires forall i :: 0 <= i < |h| ==> InClass(HandleChars, h[i])
    ensures PassFrom(p, [w, Sigil(p)] + h, atStart) == [w] + TagLink(p, h)
  {
    var s := [w, Sigil(p)] + h;
    assert s[2..] == h;
    assert s[0] != Sigil(p);
    RunWhole(HandleChars, h);
    assert Front(p, s, atStart) == Some(Groups([w], h));
    PassOfWholeMatch(p, s, atStart, Groups([w], h));
  }

  // ---------------------------------------------------------------------------
  // Rendering word by word

  /** A piece whose text starts with whitespace is replaced by text starting with that whitespace. */
  lemma ReplacementKeepsSpace(p: Pattern, x: Piece)
    requires 0 < |PieceText(p, x)| && IsSpace(PieceText(p, x)[0])
    requires p == Url ==> x.Keep?
    ensures Replacement(p, x) != [] && Replacement(p, x)[0] == PieceText(p, x)[0]
  {
  }

  /** A pass starts its output with the whitespace character its input starts with. */
  lemma PassKeepsLeadingSpace(p: Pattern, s: seq<char>, atStart: bool)
    requires s != [] && IsSpace(s[0])
    ensures PassFrom(p, s, atStart) != [] && PassFrom(p, s, atStart)[0] == s[0]
  {
    var x := FirstPiece(p, s, atStart);
    assert PieceText(p, x)[0] == s[0] by {
      assert StartsWith(s, PieceText(p, x));
    }
    assert p == Url ==> x.Keep? by {
      UrlNotAtSpace(s, atStart);
    }
    ReplacementKeepsSpace(p, x);
    PassFromStep(p, s, atStart);
  }

  /** No URL starts at a whitespace character. */
  lemma UrlNotAtSpace(s: seq<char>, atStart: bool)
    requires s != [] && IsSpace(s[0])
    ensures FirstPiece(Url, s, atStart) == Keep(s[0])
  {
    assert !StartsWith(s, "http://") && !StartsWith(s, "https://");
  }

  /** The three passes of render applied to text that may not begin the subject. */
  function RenderFrom(text: seq<char>, atStart: bool): (r: seq<char>)
    ensures atStart ==> r == Render(text)
  {
    PassFrom(Hashtag, PassFrom(Mention, PassFrom(Url, text, atStart), atStart), atStart)
  }

  /** Render treats the text on either side of a whitespace character independently. */
  lemma RenderSplitsAtSpace(a: seq<char>, b: seq<char>, atStart: bool)
    requires b != [] && IsSpace(b[0])
    ensures RenderFrom(a + b, atStart) == RenderFrom(a, atStart) + RenderFrom(b, false)
  {
    PassSplitsAtSpace(Url, a, b, atStart);
    var u := PassFrom(Url, b, false);
    PassKeepsLeadingSpace(Url, b, false);
    PassSplitsAtSpace(Mention, PassFrom(Url, a, atStart), u, atStart);
    var m := PassFrom(Mention, u, false);
    PassKeepsLeadingSpace(Mention, u, false);
    PassSplitsAtSpace(Hashtag, PassFrom(Mention, PassFrom(Url, a, atStart), atStart), m, atStart);
  }

  /** The concatenation of a list of words. */
  function Join(ws: seq<seq<char>>): (r: seq<char>)
    ensures |ws| == 1 ==> r == ws[0]
  {
    if ws == [] then [] else ws[0] + Join(ws[1..])
  }

  /** Each word rendered on its own; only the first may begin the subject. */
  function RenderEach(ws: seq<seq<char>>, atStart: bool): seq<char>
  {
    if ws == [] then [] else RenderFrom(ws[0], atStart) + RenderEach(ws[1..], false)
  }

  /** Splitting text before whitespace characters and rendering the words one by one gives render's output. */
  lemma {:induction false} RenderOverWords(ws: seq<seq<char>>, atStart: bool)
    requires forall j :: 1 <= j < |ws| ==> ws[j] != [] && IsSpace(ws[j][0])
    ensures RenderFrom(Join(ws), atStart) == RenderEach(ws, atStart)
    decreases |ws|
  {
    if ws == [] {
      PassOfEmpty(Url, atStart);
      PassOfEmpty(Mention, atStart);
      PassOfEmpty(Hashtag, atStart);
    } else if |ws| == 1 {
      assert RenderEach(ws[1..], false) == [];
    } else {
      JoinStep(ws);
      RenderSplitsAtSpace(ws[0], Join(ws[1..]), atStart);
      RenderOverWords(ws[1..], false);
    }
  }

  /** Joining two or more words: the first, then the rest, which begins with whitespace. */
  lemma JoinStep(ws: seq<seq<char>>)
    requires |ws| >= 2
    requires forall j :: 1 <= j < |ws| ==> ws[j] != [] && IsSpace(ws[j][0])
    ensures Join(ws) == ws[0] + Join(ws[1..])
    ensures Join(ws[1..]) != [] && IsSpace(Join(ws[1..])[0])
    ensures forall j :: 1 <= j < |ws[1..]| ==> ws[1..][j] != [] && IsSpace(ws[1..][j][0])
  {
    var rest := ws[1..];
    assert Join(rest) == rest[0] + Join(rest[1..]);
  }

  // ---------------------------------------------------------------------------
  // Whole URLs, and why the URL pass comes first

  /** The URL pass turns a word that is one whole URL `u` into `<a href="u">u</a>` and leaves the character before it alone. */
  lemma UrlPassAfterChar(c: char, u: seq<char>, atStart: bool)
    requires UrlStartsAt(u)
    requires forall i :: 0 <= i < |u| ==> InClass(UrlChars, u[i])
    ensures PassFrom(Url, [c] + u, atStart) == [c] + Anchor(u, u)
  {
    var s := [c] + u;
    NoUrlBeforeH(c, u, atStart);
    PassFromStep(Url, s, atStart);
    assert s[1..] == u;
    WholeUrlWrapped(u, false);
  }

  /** No URL starts one character before an `h`, since neither scheme has an `h` second. */
  lemma NoUrlBeforeH(c: char, u: seq<char>, atStart: bool)
    requires |u| >= 1 && u[0] == 'h'
    ensures FirstPiece(Url, [c] + u, atStart) == Keep(c)
  {
    var s := [c] + u;
    assert s[1] == 'h';
    CharDiffers(s, "http://", 1);
    CharDiffers(s, "https://", 1);
  }

  /** The mention and hashtag passes leave a URL's markup, and a non-sigil character before it, alone. */
  lemma TagPassSkipsAnchorAfter(p: Pattern, c: char, href: seq<char>, text: seq<char>, atStart: bool)
    requires p != Url && c != Sigil(p)
    requires Unspaced(href) && Unspaced(text)
    ensures PassFrom(p, [c] + Anchor(href, text), atStart) == [c] + Anchor(href, text)
  {
    var s := [c] + Anchor(href, text);
    assert s[1] == '<';
    assert FirstPiece(p, s, atStart) == Keep(c);
    PassFromStep(p, s, atStart);
    assert s[1..] == Anchor(href, text);
    TagPassSkipsAnchor(p, href, text, false);
  }

  /**
   * Render turns a word that is one whole URL into its anchor: a `#` or `@`
   * inside a URL never becomes a hashtag or mention link.
   */
  lemma WholeUrlRendered(u: seq<char>, atStart: bool)
    requires UrlStartsAt(u)
    requires forall i :: 0 <= i < |u| ==> InClass(UrlChars, u[i])
    ensures RenderFrom(u, atStart) == Anchor(u, u)
  {
    WholeUrlWrapped(u, atStart);
    assert Unspaced(u);
    TagPassSkipsAnchor(Mention, u, u, atStart);
    TagPassSkipsAnchor(Hashtag, u, u, atStart);
  }

  /** Render turns a character other than `@` or `#` followed by a whole URL into that character and the URL's anchor. */
  lemma UrlAfterCharRendered(c: char, u: seq<char>, atStart: bool)
    requires c != '@' && c != '#' && UrlStartsAt(u)
    requires forall i :: 0 <= i < |u| ==> InClass(UrlChars, u[i])
    ensures RenderFrom([c] + u, atStart) == [c] + Anchor(u, u)
  {
    UrlPassAfterChar(c, u, atStart);
    assert Unspaced(u);
    TagPassSkipsAnchorAfter(Mention, c, u, u, atStart);
    TagPassSkipsAnchorAfter(Hashtag, c, u, u, atStart);
  }

  lemma CharDiffers(s: seq<char>, prefix: seq<char>, k: nat)
    requires k < |s| && k < |prefix| && s[k] != prefix[k]
    ensures !StartsWith(s, prefix)
  {
    if |prefix| <= |s| {
      assert s[..|prefix|][k] == s[k];
    }
  }

  lemma StartsWithAppend(s: seq<char>, t: seq<char>, prefix: seq<char>)
    requires StartsWith(s, prefix)
    ensures StartsWith(s + t, prefix)
  {
    assert (s + t)[..|prefix|] == s[..|prefix|];
  }

  /** The target of an anchor starts right after `<a href="`. */
  lemma AnchorHref(href: seq<char>, text: seq<char>)
    ensures Anchor(href, text)[9..] == href + ("\">" + text + "</a>")
  {
    var a := Anchor(href, text);
    var t := "\">" + text + "</a>";
    assert a == "<a href=\"" + (href + t);
    DropAppend("<a href=\"", href + t, 9);
  }

  /** Whenever an anchor's target is itself a URL, the URL pass would rewrite the anchor. */
  lemma UrlPassRewritesAnchor(href: seq<char>, text: seq<char>, atStart: bool)
    requires UrlStartsAt(href)
    ensures |PassFrom(Url, Anchor(href, text), atStart)| > |Anchor(href, text)|
  {
    var a := Anchor(href, text);
    var rest := "\">" + text + "</a>";
    AnchorHref(href, text);
    assert a[9..] == href + rest;
    assert UrlStartsAt(a[9..]) by {
      if StartsWith(href, "http://") && |href| > 7 && InClass(UrlChars, href[7]) {
        StartsWithAppend(href, rest, "http://");
        assert (href + rest)[7] == href[7];
      } else {
        StartsWithAppend(href, rest, "https://");
        assert (href + rest)[8] == href[8];
      }
    }
    PassGrowsOnMatch(Url, a, atStart, 9);
  }

  /**
   * The mention pass writes a `http://` target, so a URL pass run after it
   * would link the target again; render therefore runs the URL pass first.
   */
  lemma UrlPassMustComeFirst(h: seq<char>)
    requires forall i :: 0 <= i < |h| ==> InClass(HandleChars, h[i])
    ensures Pass(Mention, [Sigil(Mention)] + h) == TagLink(Mention, h)
    ensures Pass(Url, Pass(Mention, [Sigil(Mention)] + h)) != Pass(Mention, [Sigil(Mention)] + h)
  {
    TagAtStartWrapped(Mention, h);
    MentionHrefIsUrl(h);
    UrlPassRewritesAnchor("http://twitter.com/" + h, "@" + h, true);
  }

  /** A mention's link target is a URL. */
  lemma MentionHrefIsUrl(h: seq<char>)
    ensures UrlStartsAt("http://twitter.com/" + h)
  {
    var href := "http://twitter.com/" + h;
    assert href[..7] == "http://" && href[7] == 't';
  }

  /** Render is not idempotent: rendering a rendered URL links the anchor's target again. */
  lemma RenderNotIdempotent(u: seq<char>)
    requires UrlStartsAt(u)
    requires forall i :: 0 <= i < |u| ==> InClass(UrlChars, u[i])
    ensures Render(u) == Anchor(u, u)
    ensures Render(Render(u)) != Render(u)
  {
    WholeUrlRendered(u, true);
    var a := Anchor(u, u);
    UrlPassRewritesAnchor(u, u, true);
    PassNeverShrinks(Mention, Pass(Url, a), true);
    PassNeverShrinks(Hashtag, Pass(Mention, Pass(Url, a)), true);
  }

  // ---------------------------------------------------------------------------
  // Mentions and hashtags as words

  /** Every URL starts with a scheme holding `:`, so text without `:` passes the URL pass unchanged. */
  lemma ColonFreeUnchanged(s: seq<char>, atStart: bool)
    requires ':' !in s
    ensures PassFrom(Url, s, atStart) == s
  {
    forall i | 0 <= i < |s| ensures Front(Url, s[i..], atStart && i == 0).None? {
      var t := s[i..];
      assert !StartsWith(t, "http://") by {
        if |t| >= 7 { assert t[4] == s[i + 4]; }
      }
      assert !StartsWith(t, "https://") by {
        if |t| >= 8 { assert t[5] == s[i + 5]; }
      }
    }
    NoMatchCopies(Url, s, atStart);
  }

  /** A sigil, whitespace before it and a handle: none holds `:`. */
  lemma TagWordColonFree(c: char, sigil: char, h: seq<char>)
    requires IsSpace(c) && sigil != ':'
    requires forall i :: 0 <= i < |h| ==> InClass(HandleChars, h[i])
    ensures ':' !in [c, sigil] + h
  {
    var s := [c, sigil] + h;
    forall i | 0 <= i < |s| ensures s[i] != ':' {
      if i >= 2 { assert s[i] == h[i - 2]; }
    }
  }

  /** The profile or search link target and the link text for a handle hold no whitespace. */
  lemma TagLinkUnspaced(p: Pattern, h: seq<char>)
    requires p != Url
    requires forall i :: 0 <= i < |h| ==> InClass(HandleChars, h[i])
    ensures var href := (if p == Mention then "http://twitter.com/" else "http://twitter.com/search?q=%23") + h;
            var text := [Sigil(p)] + h;
            TagLink(p, h) == Anchor(href, text) && Unspaced(href) && Unspaced(text)
  {
    var base := if p == Mention then "http://twitter.com/" else "http://twitter.com/search?q=%23";
    assert Unspaced(base);
    forall i | 0 <= i < |base + h| ensures !IsSpace((base + h)[i]) {
      if i >= |base| { assert (base + h)[i] == h[i - |base|]; }
    }
    forall i | 0 <= i < |[Sigil(p)] + h| ensures !IsSpace(([Sigil(p)] + h)[i]) {
      if i >= 1 { assert ([Sigil(p)] + h)[i] == h[i - 1]; }
    }
  }

  /**
   * Whitespace, `@` and a handle of any length render as the whitespace and the
   * profile link; a `#` in the handle stays inside the link.
   */
  lemma MentionWordRendered(c: char, h: seq<char>)
    requires IsSpace(c)
    requires forall i :: 0 <= i < |h| ==> InClass(HandleChars, h[i])
    ensures RenderFrom([c, '@'] + h, false) == [c] + TagLink(Mention, h)
  {
    TagWordColonFree(c, '@', h);
    ColonFreeUnchanged([c, '@'] + h, false);
    TagAfterSpaceWrapped(Mention, c, h, false);
    TagLinkUnspaced(Mention, h);
    TagPassSkipsAnchorAfter(Hashtag, c, "http://twitter.com/" + h, "@" + h, false);
  }

  /**
   * Whitespace, `#` and a tag of any length render as the whitespace and the
   * search link; an `@` in the tag is glued to the characters before it.
   */
  lemma HashtagWordRendered(c: char, h: seq<char>)
    requires IsSpace(c)
    requires forall i :: 0 <= i < |h| ==> InClass(HandleChars, h[i])
    ensures RenderFrom([c, '#'] + h, false) == [c] + TagLink(Hashtag, h)
  {
    var s := [c, '#'] + h;
    TagWordColonFree(c, '#', h);
    ColonFreeUnchanged(s, false);
    TagWordGlued(c, '#', '@', h);
    GluedSigilsUnchanged(Mention, s, false);
    TagAfterSpaceWrapped(Hashtag, c, h, false);
  }

  /** In a tag word, every other sigil follows a handle character, so it is glued. */
  lemma TagWordGlued(c: char, sigil: char, other: char, h: seq<char>)
    requires c != other && sigil != other && !IsSpace(sigil)
    requires forall i :: 0 <= i < |h| ==> InClass(HandleChars, h[i])
    ensures forall i :: 0 <= i < |[c, sigil] + h| && ([c, sigil] + h)[i] == other ==>
      i > 0 && !IsSpace(([c, sigil] + h)[i - 1])
  {
    var s := [c, sigil] + h;
    forall i | 0 <= i < |s| && s[i] == other ensures i > 0 && !IsSpace(s[i - 1]) {
      if i >= 3 { assert s[i - 1] == h[i - 3]; }
    }
  }
}
