/**
 * Worked examples of render: the exact markup it writes for a typical
 * status text, and the corner cases of its three patterns.
 */
module LinkifyExamples {
  import opened Linkify
  import opened LinkifyProofs

  /** Short text with neither sigil passes through render unchanged. */
  lemma PlainWordUnchanged(w: seq<char>, atStart: bool)
    requires |w| < 8 && '@' !in w && '#' !in w
    ensures RenderFrom(w, atStart) == w
  {
    ShortTextHasNoUrl(w, atStart);
    SigilFreeUnchanged(Mention, w, atStart);
    SigilFreeUnchanged(Hashtag, w, atStart);
  }

  /** The markup render writes for the URL `http://x.co` after a space. */
  lemma UrlWordMarkup()
    ensures RenderFrom(" http://x.co", false) == " " + "<a href=\"http://x.co\">http://x.co</a>"
  {
    var u := "http://x.co";
    assert " http://x.co" == [' '] + u;
    UrlAfterCharRendered(' ', u, false);
    UrlAnchorLiteral();
  }

  lemma UrlAnchorLiteral()
    ensures Anchor("http://x.co", "http://x.co") == "<a href=\"http://x.co\">http://x.co</a>"
  {
  }

  /** A mention anchor contains `#` only if its handle does. */
  lemma MentionLinkHasNoHash(h: seq<char>)
    requires '#' !in h
    ensures '#' !in TagLink(Mention, h)
  {
    var href := "http://twitter.com/" + h;
    var text := "@" + h;
    assert '#' !in href;
    assert '#' !in text;
    assert TagLink(Mention, h) == "<a href=\"" + href + "\">" + text + "</a>";
  }

  /** The markup render writes for the mention `@bob` after a space. */
  lemma MentionWordMarkup()
    ensures RenderFrom(" @bob", false) == " " + "<a href=\"http://twitter.com/bob\">@bob</a>"
  {
    assert " @bob" == [' ', '@'] + "bob";
    MentionWordRendered(' ', "bob");
    MentionAnchorLiteral();
  }

  lemma MentionAnchorLiteral()
    ensures TagLink(Mention, "bob") == "<a href=\"http://twitter.com/bob\">@bob</a>"
  {
    assert "http://twitter.com/" + "bob" == "http://twitter.com/bob";
    assert "@" + "bob" == "@bob";
    assert "<a href=\"" + "http://twitter.com/bob" == "<a href=\"http://twitter.com/bob";
    assert "<a href=\"http://twitter.com/bob" + "\">" == "<a href=\"http://twitter.com/bob\">";
    assert "<a href=\"http://twitter.com/bob\">" + "@bob" == "<a href=\"http://twitter.com/bob\">@bob";
  }

  /** The markup render writes for the hashtag `#tag` after a space. */
  lemma HashtagWordMarkup()
    ensures RenderFrom(" #tag", false) == " " + "<a href=\"http://twitter.com/search?q=%23tag\">#tag</a>"
  {
    assert " #tag" == [' ', '#'] + "tag";
    HashtagWordRendered(' ', "tag");
    HashtagAnchorLiteral();
  }

  lemma HashtagAnchorLiteral()
    ensures TagLink(Hashtag, "tag") == "<a href=\"http://twitter.com/search?q=%23tag\">#tag</a>"
  {
    assert "http://twitter.com/search?q=%23" + "tag" == "http://twitter.com/search?q=%23tag";
    assert "#" + "tag" == "#tag";
    SearchAnchorLiteral();
  }

  lemma SearchAnchorLiteral()
    ensures Anchor("http://twitter.com/search?q=%23tag", "#tag") == "<a href=\"http://twitter.com/search?q=%23tag\">#tag</a>"
  {
    SearchOpeningTag();
    assert "<a href=\"http://twitter.com/search?q=%23tag" + "\">" == "<a href=\"http://twitter.com/search?q=%23tag\">";
    assert "<a href=\"http://twitter.com/search?q=%23tag\">" + "#tag" == "<a href=\"http://twitter.com/search?q=%23tag\">#tag";
  }

  /** The plain words of the example status are left alone. */
  lemma FirstWordUnchanged()
    ensures RenderFrom("check", true) == "check"
  {
    PlainWordUnchanged("check", true);
  }

  lemma NowWordUnchanged()
    ensures RenderFrom(" now", false) == " now"
  {
    PlainWordUnchanged(" now", false);
  }

  lemma AndWordUnchanged()
    ensures RenderFrom(" and", false) == " and"
  {
    PlainWordUnchanged(" and", false);
  }

  lemma SearchOpeningTag()
    ensures "<a href=\"" + "http://twitter.com/search?q=%23tag" == "<a href=\"http://twitter.com/search?q=%23tag"
  {
  }

  lemma FragmentOpeningTag()
    ensures "<a href=\"" + "http://x.co/#frag" == "<a href=\"http://x.co/#frag"
  {
  }

  /** Six words, each after the first starting with whitespace, are rendered one by one. */
  lemma RenderSixWords(w1: seq<char>, w2: seq<char>, w3: seq<char>, w4: seq<char>, w5: seq<char>, w6: seq<char>)
    requires w2 != [] && IsSpace(w2[0]) && w3 != [] && IsSpace(w3[0]) && w4 != [] && IsSpace(w4[0])
    requires w5 != [] && IsSpace(w5[0]) && w6 != [] && IsSpace(w6[0])
    ensures Render(w1 + (w2 + (w3 + (w4 + (w5 + w6))))) ==
            RenderFrom(w1, true) + (RenderFrom(w2, false) + (RenderFrom(w3, false) +
            (RenderFrom(w4, false) + (RenderFrom(w5, false) + (RenderFrom(w6, false) + [])))))
  {
    var ws := [w1, w2, w3, w4, w5, w6];
    assert Join(ws[5..]) == w6;
    assert Join(ws[4..]) == w5 + w6;
    assert Join(ws[3..]) == w4 + (w5 + w6);
    assert Join(ws[2..]) == w3 + (w4 + (w5 + w6));
    assert Join(ws[1..]) == w2 + (w3 + (w4 + (w5 + w6)));
    assert Join(ws) == w1 + (w2 + (w3 + (w4 + (w5 + w6))));
    RenderOverWords(ws, true);
    assert RenderEach(ws[6..], false) == [];
    assert RenderEach(ws[5..], false) == RenderFrom(w6, false) + [];
    assert RenderEach(ws[4..], false) == RenderFrom(w5, false) + RenderEach(ws[5..], false);
    assert RenderEach(ws[3..], false) == RenderFrom(w4, false) + RenderEach(ws[4..], false);
    assert RenderEach(ws[2..], false) == RenderFrom(w3, false) + RenderEach(ws[3..], false);
    assert RenderEach(ws[1..], false) == RenderFrom(w2, false) + RenderEach(ws[2..], false);
  }

  /** Moving the whitespace that starts each rendered word onto the end of the text before it. */
  lemma Regroup(w1: seq<char>, s2: seq<char>, a2: seq<char>, w3: seq<char>, s4: seq<char>, a4: seq<char>,
                w5: seq<char>, s6: seq<char>, a6: seq<char>)
    ensures w1 + ((s2 + a2) + (w3 + ((s4 + a4) + (w5 + ((s6 + a6) + []))))) ==
            w1 + s2 + a2 + w3 + s4 + a4 + w5 + s6 + a6
  {
  }

  /** The exact markup render writes for a status with a URL, a mention and a hashtag. */
  lemma RenderExample()
    ensures Render("check http://x.co now @bob and #tag") ==
            "check" + " " + "<a href=\"http://x.co\">http://x.co</a>" +
            " now" + " " + "<a href=\"http://twitter.com/bob\">@bob</a>" +
            " and" + " " + "<a href=\"http://twitter.com/search?q=%23tag\">#tag</a>"
  {
    assert "check http://x.co now @bob and #tag" == "check" + (" http://x.co" + (" now" + (" @bob" + (" and" + " #tag"))));
    RenderSixWords("check", " http://x.co", " now", " @bob", " and", " #tag");
    FirstWordUnchanged();
    NowWordUnchanged();
    AndWordUnchanged();
    UrlWordMarkup();
    MentionWordMarkup();
    HashtagWordMarkup();
    Regroup("check", " ", "<a href=\"http://x.co\">http://x.co</a>", " now", " ", "<a href=\"http://twitter.com/bob\">@bob</a>",
            " and", " ", "<a href=\"http://twitter.com/search?q=%23tag\">#tag</a>");
  }

  // ---------------------------------------------------------------------------
  // Corner cases

  /** Trailing punctuation is part of a URL; the opening parenthesis before it is not. */
  lemma PunctuationInsideUrl()
    ensures Render("(http://x.co).") == "(" + "<a href=\"http://x.co).\">http://x.co).</a>"
  {
    var u := "http://x.co).";
    assert "(http://x.co)." == ['('] + u;
    PunctuatedUrlIsUrl();
    UrlAfterCharRendered('(', u, true);
    PunctuatedUrlAnchor();
  }

  lemma PunctuatedUrlIsUrl()
    ensures UrlStartsAt("http://x.co).")
    ensures forall i :: 0 <= i < |"http://x.co)."| ==> InClass(UrlChars, "http://x.co)."[i])
  {
  }

  lemma PunctuatedUrlAnchor()
    ensures Anchor("http://x.co).", "http://x.co).") == "<a href=\"http://x.co).\">http://x.co).</a>"
  {
    assert "<a href=\"" + "http://x.co)." == "<a href=\"http://x.co).";
    assert "<a href=\"http://x.co)." + "\">" == "<a href=\"http://x.co).\">";
    assert "<a href=\"http://x.co).\">" + "http://x.co)." == "<a href=\"http://x.co).\">http://x.co).";
  }

  /** A `#` inside a URL stays part of the URL and is not a hashtag. */
  lemma FragmentInsideUrl()
    ensures Render("http://x.co/#frag") == "<a href=\"http://x.co/#frag\">http://x.co/#frag</a>"
  {
    FragmentUrlIsUrl();
    WholeUrlRendered("http://x.co/#frag", true);
    FragmentUrlAnchor();
  }

  lemma FragmentUrlIsUrl()
    ensures UrlStartsAt("http://x.co/#frag")
    ensures forall i :: 0 <= i < |"http://x.co/#frag"| ==> InClass(UrlChars, "http://x.co/#frag"[i])
  {
  }

  lemma FragmentUrlAnchor()
    ensures Anchor("http://x.co/#frag", "http://x.co/#frag") == "<a href=\"http://x.co/#frag\">http://x.co/#frag</a>"
  {
    FragmentOpeningTag();
    assert "<a href=\"http://x.co/#frag" + "\">" == "<a href=\"http://x.co/#frag\">";
    assert "<a href=\"http://x.co/#frag\">" + "http://x.co/#frag" == "<a href=\"http://x.co/#frag\">http://x.co/#frag";
  }

  /** A short word without whitespace that does not start with a sigil passes through render unchanged. */
  lemma GluedWordUnchanged(w: seq<char>, atStart: bool)
    requires |w| < 8 && (w == [] || (w[0] != '@' && w[0] != '#'))
    requires forall i :: 0 <= i < |w| ==> !IsSpace(w[i])
    ensures RenderFrom(w, atStart) == w
  {
    ShortTextHasNoUrl(w, atStart);
    GluedSigilsUnchanged(Mention, w, atStart);
    GluedSigilsUnchanged(Hashtag, w, atStart);
  }

  /** An `@` glued to the word before it is not a mention. */
  lemma GluedMentionUntouched()
    ensures Render("a@b") == "a@b"
  {
    GluedWordUnchanged("a@b", true);
  }

  /** A scheme followed by whitespace is not a URL. */
  lemma BareSchemeUntouched()
    ensures Render("http:// x") == "http:// x"
  {
    assert "http:// x" == "http://" + " x";
    RenderSplitsAtSpace("http://", " x", true);
    SchemeWordUnchanged();
    SpaceXUnchanged();
  }

  lemma SchemeWordUnchanged()
    ensures RenderFrom("http://", true) == "http://"
  {
    GluedWordUnchanged("http://", true);
  }

  lemma SpaceXUnchanged()
    ensures RenderFrom(" x", false) == " x"
  {
    PlainWordUnchanged(" x", false);
  }

  /** A lone `@` followed by whitespace still becomes a mention anchor, with an empty handle. */
  lemma LoneAtSign()
    ensures Render("@ ") == "<a href=\"http://twitter.com/\">@</a>" + " "
  {
    ShortTextHasNoUrl("@ ", true);
    assert "@ " == [Sigil(Mention)] + [] + " ";
    PassSplitsAtSpace(Mention, [Sigil(Mention)] + [], " ", true);
    TagAtStartWrapped(Mention, []);
    SigilFreeUnchanged(Mention, " ", false);
    MentionLinkHasNoHash([]);
    SigilFreeUnchanged(Hashtag, TagLink(Mention, []) + " ", true);
    EmptyMentionLiteral();
  }

  lemma EmptyMentionLiteral()
    ensures TagLink(Mention, []) == "<a href=\"http://twitter.com/\">@</a>"
  {
    assert "http://twitter.com/" + [] == "http://twitter.com/";
    assert "@" + [] == "@";
    assert "<a href=\"" + "http://twitter.com/" == "<a href=\"http://twitter.com/";
    assert "<a href=\"http://twitter.com/" + "\">" == "<a href=\"http://twitter.com/\">";
    assert "<a href=\"http://twitter.com/\">" + "@" == "<a href=\"http://twitter.com/\">@";
  }

  /** Running the URL pass after the mention pass would link the mention's target a second time. */
  lemma PassOrderExample()
    ensures Pass(Mention, Pass(Url, "@bob")) == "<a href=\"http://twitter.com/bob\">@bob</a>"
    ensures Pass(Url, Pass(Mention, "@bob")) != Pass(Mention, Pass(Url, "@bob"))
  {
    ShortTextHasNoUrl("@bob", true);
    BobMentionRelinked();
    MentionAnchorLiteral();
  }

  /** `@bob` alone becomes a profile link, which a later URL pass would change. */
  lemma BobMentionRelinked()
    ensures Pass(Mention, "@bob") == TagLink(Mention, "bob")
    ensures Pass(Url, Pass(Mention, "@bob")) != Pass(Mention, "@bob")
  {
    assert "@bob" == [Sigil(Mention)] + "bob";
    UrlPassMustComeFirst("bob");
  }
}
