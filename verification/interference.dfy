/** Passes rewrite inside the fragments of earlier passes. Escaping keeps
    `[` and `]`, and every pass scans the whole text, including what the
    handlers of earlier tags produced; so a guarantee a handler gives for
    its own fragment (attribute values escaped, code content escaped) does
    not carry over to the rendered post. */
module Interference {
  import opened Text
  import opened Escaping
  import opened Tags
  import opened Scanner
  import opened Pass
  import opened BBCode
  import opened Literals
  import opened Examples

  /** Later passes rewrite inside the fragments of earlier ones: a `url`
      tag inside `code` is shown escaped by the `code` handler, but the
      brackets survive escaping, so the `url` pass that follows turns them
      into a live link inside the code element. */
  lemma {:induction false} LinkInsideCode(x: string)
    requires '[' !in x && '&' !in x
    ensures RunPass(Handle(Code, "[url]" + x + "[/url]", None), Url, Plain)
         == "<code>" + Handle(Url, x, None) + "</code>"
  {
    var ex := EscapeHtml(x);
    CodeOfLink(x);
    EscapeAddsNoSyntax(x);
    LinkPassInCode(ex);
    UnescapeEscape(x);
    Assoc("<code>", Handle(Url, x, None), "</code>");
  }

  /** The `code` fragment of a link tag: the link tag, escaped. */
  lemma {:induction false} CodeOfLink(x: string)
    ensures Handle(Code, "[url]" + x + "[/url]", None) == "<code>" + ("[url]" + EscapeHtml(x) + "[/url]" + "</code>")
  {
    EscapeAround("[url]", x, "[/url]");
    Assoc("<code>", "[url]" + EscapeHtml(x) + "[/url]", "</code>");
  }

  /** The plain `url` pass over a link tag inside a code element. */
  lemma {:induction false} LinkPassInCode(ex: string)
    requires '[' !in ex
    ensures RunPass("<code>" + ("[url]" + ex + "[/url]" + "</code>"), Url, Plain)
         == "<code>" + (Handle(Url, Unescape(ex), None) + "</code>")
  {
    UrlColorSpelling();
    EndTagsNoBracket();
    PassKeepsPlainText("<code>", "[url]" + ex + "[/url]" + "</code>", Url, Plain);
    PlainFormThenRest(Url, ex, "</code>");
  }

  /** Later passes also rewrite inside attribute values: the `color` pass
      finds the escaped tag that the `url` handler put into the `href` and
      replaces it by a span, whose own `"` then ends the `href` early. */
  lemma {:induction false} ColorInsideLink(x: string)
    requires '[' !in x && '&' !in x
    ensures var span := Handle(Color, x, None);
            (RunPass(Handle(Url, "[color]" + x + "[/color]", None), Color, Plain)
             == "<a href=\"" + span + "\" target=\"_blank\" rel=\"noopener noreferrer\">" + span + "</a>")
  {
    var ex := EscapeHtml(x);
    var span := Handle(Color, x, None);
    LinkOfColor(x);
    EscapeAddsNoSyntax(x);
    ColorPassInLink(ex, x);
    UnescapeEscape(x);
    Regroup5("<a href=\"", span, "\" target=\"_blank\" rel=\"noopener noreferrer\">", span, "</a>");
  }

  /** The link fragment of a color tag: the escaped tag in the `href` and
      the tag itself as the link text. */
  lemma {:induction false} LinkOfColor(x: string)
    ensures Handle(Url, "[color]" + x + "[/color]", None)
         == "<a href=\"" + ("[color]" + EscapeHtml(x) + "[/color]"
              + ("\" target=\"_blank\" rel=\"noopener noreferrer\">" + ("[color]" + x + "[/color]" + "</a>")))
  {
    var c := "[color]" + x + "[/color]";
    var e := EscapeHtml(c);
    LinkFragment(c);
    assert e == "[color]" + EscapeHtml(x) + "[/color]" by {
      EscapeAround("[color]", x, "[/color]");
    }
    Regroup5("<a href=\"", e, "\" target=\"_blank\" rel=\"noopener noreferrer\">", c, "</a>");
  }

  /** The link fragment for a text given as content only. */
  lemma LinkFragment(c: string)
    ensures Handle(Url, c, None)
         == "<a href=\"" + EscapeHtml(c) + "\" target=\"_blank\" rel=\"noopener noreferrer\">" + c + "</a>"
  {
    assert OrElse(None, c) == c;
  }

  /** The plain `color` pass over a link fragment holding a color tag in
      both its `href` and its text. */
  lemma {:induction false} ColorPassInLink(ex: string, x: string)
    requires '[' !in ex && '[' !in x
    ensures var h := "<a href=\"";
            var mid := "\" target=\"_blank\" rel=\"noopener noreferrer\">";
            (RunPass(h + ("[color]" + ex + "[/color]" + (mid + ("[color]" + x + "[/color]" + "</a>"))), Color, Plain)
             == h + (Handle(Color, Unescape(ex), None) + (mid + (Handle(Color, Unescape(x), None) + "</a>"))))
  {
    var h := "<a href=\"";
    var mid := "\" target=\"_blank\" rel=\"noopener noreferrer\">";
    var tail := "[color]" + x + "[/color]" + "</a>";
    UrlColorSpelling();
    LinkHeadNoBracket();
    LinkMiddleNoBracket();
    EndTagsNoBracket();
    PassKeepsPlainText(h, "[color]" + ex + "[/color]" + (mid + tail), Color, Plain);
    PlainFormThenRest(Color, ex, mid + tail);
    PassKeepsPlainText(mid, tail, Color, Plain);
    PlainFormThenRest(Color, x, "</a>");
  }

  /** A chunk of a text whose `k`-th character rules out the opener of
      tag `t` in form `f`, and which holds no `[` after its first
      character. */
  predicate RulesOut(chunk: string, t: Tag, f: Form, k: nat) {
    && |chunk| > 0 && '[' !in chunk[1..]
    && k < |chunk| && k < |Opener(Name(t), f)|
    && Lower(chunk[k]) != Lower(Opener(Name(t), f)[k])
  }

  /** A pass leaves a tag nested in another alone when each of the four
      tag chunks rules out its opener. */
  lemma {:induction false} NestedIdle(o1: string, o2: string, e: string, c2: string, c1: string,
                                      t: Tag, f: Form, k1: nat, k2: nat, k3: nat, k4: nat)
    requires RulesOut(o1, t, f, k1) && RulesOut(o2, t, f, k2)
    requires RulesOut(c2, t, f, k3) && RulesOut(c1, t, f, k4)
    requires '[' !in e
    ensures RunPass(o1 + o2 + e + c2 + c1, t, f) == o1 + o2 + e + c2 + c1
  {
    PassOverLastChunk(c1, t, f, k4);
    PassOverChunk(c2, c1, t, f, k3);
    PassOverTagText(o2, e, c2 + c1, t, f, k2);
    PassOverChunk(o1, o2 + e + (c2 + c1), t, f, k1);
    Regroup5(o1, o2, e, c2, c1);
  }

  /** Tags each of whose passes leaves a text alone leave it alone
      together. */
  lemma {:induction false} PassesIdle(s: string, tags: seq<Tag>)
    requires forall t :: t in tags ==> RunPass(s, t, WithParam) == s && RunPass(s, t, Plain) == s
    ensures Passes(s, tags) == s
    decreases |tags|
  {
    if |tags| > 0 {
      assert tags[0] in tags;
      PassesIdle(s, tags[1..]);
    }
  }

  /** Escaping a tag nested in another escapes only the text inside. */
  lemma {:induction false} EscapeNestedTags(o1: string, o2: string, x: string, c2: string, c1: string)
    requires forall k :: 0 <= k < |o1| ==> !IsSpecial(o1[k])
    requires forall k :: 0 <= k < |o2| ==> !IsSpecial(o2[k])
    requires forall k :: 0 <= k < |c2| ==> !IsSpecial(c2[k])
    requires forall k :: 0 <= k < |c1| ==> !IsSpecial(c1[k])
    ensures EscapeHtml(o1 + o2 + x + c2 + c1) == o1 + o2 + EscapeHtml(x) + c2 + c1
  {
    EscapeConcat(o1 + o2 + x + c2, c1);
    EscapeConcat(o1 + o2 + x, c2);
    EscapeConcat(o1 + o2, x);
    EscapeConcat(o1, o2);
    EscapePlain(o1);
    EscapePlain(o2);
    EscapePlain(c2);
    EscapePlain(c1);
  }

  /** The passes of b, i, u and s leave `[code][url]e[/url][/code]` alone:
      the second character of each tag rules out b, i and s, and the
      third character of `[url]` rules out `u`. */
  lemma {:induction false} CodePostIdle(ex: string, t: Tag)
    requires '[' !in ex && (t == B || t == I || t == U || t == S)
    ensures var s := "[code]" + "[url]" + ex + "[/url]" + "[/code]";
            RunPass(s, t, WithParam) == s && RunPass(s, t, Plain) == s
  {
    var k2 := if t == U then 2 else 1;
    NestedIdle("[code]", "[url]", ex, "[/url]", "[/code]", t, WithParam, 1, k2, 1, 1);
    NestedIdle("[code]", "[url]", ex, "[/url]", "[/code]", t, Plain, 1, k2, 1, 1);
  }

  /** The link tag is no closer of `code`: its `[/` is followed by `u`. */
  lemma {:induction false} LinkIsNoCodeCloser(ex: string)
    requires '[' !in ex
    ensures NoCloserOf("[url]" + ex + "[/url]", Name(Code))
  {
    var e := "[url]" + ex + "[/url]";
    forall k | 0 <= k < |e| && e[k] == '['
      ensures k + 1 < |e| && (e[k + 1] != '/' || (k + 2 < |e| && Lower(e[k + 2]) != Lower(Name(Code)[0])))
    {
      if k >= 5 + |ex| {
        assert k == 5 + |ex|;
        assert e[k + 2] == 'u';
      } else {
        assert k == 0;
      }
    }
  }

  /** Both passes of `code` over the escaped post: the param form finds
      `]` where it needs `=`, and the plain form pairs `[code]` with
      `[/code]` and hands the `code` handler the link tag. */
  lemma {:induction false} CodePassOverLink(x: string)
    requires '[' !in x && '&' !in x
    ensures Passes("[code]" + "[url]" + EscapeHtml(x) + "[/url]" + "[/code]", [Code])
         == "<code>" + ("[url]" + EscapeHtml(x) + "[/url]" + "</code>")
  {
    var ex := EscapeHtml(x);
    var e := "[url]" + ex + "[/url]";
    var s := "[code]" + "[url]" + ex + "[/url]" + "[/code]";
    EscapeAddsNoSyntax(x);
    PassesOne(s, Code);
    CodeParamIdle(ex);
    CodePlainOverLink(ex);
    UnescapeLinkTag(x);
    CodeOfLink(x);
  }

  /** The content the `code` handler receives is the link tag as typed. */
  lemma {:induction false} UnescapeLinkTag(x: string)
    requires '&' !in x
    ensures Unescape("[url]" + EscapeHtml(x) + "[/url]") == "[url]" + x + "[/url]"
  {
    EscapeAround("[url]", x, "[/url]");
    UnescapeEscape("[url]" + x + "[/url]");
  }

  /** The param form of `code` leaves the escaped post alone. */
  lemma {:induction false} CodeParamIdle(ex: string)
    requires '[' !in ex
    ensures var s := "[code]" + "[url]" + ex + "[/url]" + "[/code]";
            RunPass(s, Code, WithParam) == s
  {
    NestedIdle("[code]", "[url]", ex, "[/url]", "[/code]", Code, WithParam, 5, 1, 1, 1);
  }

  /** The plain form of `code` over the escaped post. */
  lemma {:induction false} CodePlainOverLink(ex: string)
    requires '[' !in ex
    ensures RunPass("[code]" + "[url]" + ex + "[/url]" + "[/code]", Code, Plain)
         == Handle(Code, Unescape("[url]" + ex + "[/url]"), None)
  {
    var e := "[url]" + ex + "[/url]";
    BoldCodeSpelling();
    assert "[code]" + "[url]" + ex + "[/url]" + "[/code]" == Opener(Name(Code), Plain) + e + Closer(Name(Code)) + "";
    LinkIsNoCodeCloser(ex);
    PlainFormThenRest(Code, e, "");
  }

  /** Both passes of `url` over the `code` fragment: the param form finds
      `]` where it needs `=`, and the plain form replaces the link tag. */
  lemma {:induction false} UrlPassOverCode(x: string)
    requires '[' !in x && '&' !in x
    ensures Passes("<code>" + ("[url]" + EscapeHtml(x) + "[/url]" + "</code>"), [Url])
         == "<code>" + (Handle(Url, x, None) + "</code>")
  {
    var ex := EscapeHtml(x);
    var s := "<code>" + ("[url]" + ex + "[/url]" + "</code>");
    EscapeAddsNoSyntax(x);
    PassesOne(s, Url);
    UrlParamInCode(ex);
    LinkPassInCode(ex);
    UnescapeEscape(x);
  }

  /** The param form of `url` leaves the `code` fragment alone. */
  lemma {:induction false} UrlParamInCode(ex: string)
    requires '[' !in ex
    ensures var s := "<code>" + ("[url]" + ex + "[/url]" + "</code>");
            RunPass(s, Url, WithParam) == s
  {
    var rest := "[/url]" + "</code>";
    assert RunPass(rest, Url, WithParam) == rest by {
      EndTagsNoBracket();
      PassOverChunk("[/url]", "</code>", Url, WithParam, 1);
    }
    assert RunPass("[url]" + ex + rest, Url, WithParam) == "[url]" + ex + rest by {
      PassOverTagText("[url]", ex, rest, Url, WithParam, 4);
    }
    Assoc("[url]" + ex, "[/url]", "</code>");
    PassKeepsPlainText("<code>", "[url]" + ex + "[/url]" + "</code>", Url, WithParam);
  }

  /** The tag passes over the escaped post `[code][url]x[/url][/code]`, up
      to and including `url`. */
  lemma {:induction false} CodePostPasses(x: string)
    requires '[' !in x && '&' !in x
    ensures Passes(EscapeHtml("[code]" + "[url]" + x + "[/url]" + "[/code]"), Registry[..6])
         == "<code>" + (Handle(Url, x, None) + "</code>")
  {
    var ex := EscapeHtml(x);
    var s := "[code]" + "[url]" + ex + "[/url]" + "[/code]";
    var s1 := "<code>" + ("[url]" + ex + "[/url]" + "</code>");
    EscapeNestedTags("[code]", "[url]", x, "[/url]", "[/code]");
    EscapeAddsNoSyntax(x);
    RegistryHead();
    forall t | t in Registry[..4]
      ensures RunPass(s, t, WithParam) == s && RunPass(s, t, Plain) == s
    {
      CodePostIdle(ex, t);
    }
    PassesIdle(s, Registry[..4]);
    CodePassOverLink(x);
    UrlPassOverCode(x);
    PassesCompose(s, Registry[..4], [Code]);
    PassesCompose(s, Registry[..4] + [Code], [Url]);
  }

  /** A link inside a code block is live in the rendered post: the `code`
      handler escapes the link tag, but its brackets survive escaping, and
      the `url` pass that comes after it turns the tag into an `a` element
      inside the code element. */
  lemma {:induction false} LinkInCodeIsLive(x: string)
    requires '[' !in x && '&' !in x && '\n' !in x
    ensures ParseBBCode("[code]" + "[url]" + x + "[/url]" + "[/code]") == "<code>" + Handle(Url, x, None) + "</code>"
  {
    var raw := "[code]" + "[url]" + x + "[/url]" + "[/code]";
    var link := Handle(Url, x, None);
    CodePostPasses(x);
    Assoc("<code>", link, "</code>");
    assert '[' !in link by {
      LinkHasNoBracket(x);
    }
    assert '\n' !in "<code>" + link + "</code>" by {
      HandlerAddsNoNewline(Url, x, None);
      HandlerAddsNoNewline(Code, "", None);
    }
    EndTagsNoBracket();
    ParseSettles(raw, 6, "<code>" + link + "</code>");
  }

  /** A link fragment for text without `[` holds no `[`. */
  lemma {:induction false} LinkHasNoBracket(x: string)
    requires '[' !in x
    ensures '[' !in Handle(Url, x, None)
  {
    LinkFragment(x);
    EscapeAddsNoSyntax(x);
    LinkHeadNoBracket();
    LinkMiddleNoBracket();
    EndTagsNoBracket();
  }

  /** The passes of b, i, u, s and code leave `[url][color]e[/color][/url]`
      alone: the second character of each tag rules out b, i and s, the
      third character of `[url]` rules out `u`, and the fourth character of
      `[color]` rules out `code`. */
  lemma {:induction false} ColorPostIdle(ex: string, t: Tag)
    requires '[' !in ex && (t == B || t == I || t == U || t == S || t == Code)
    ensures var s := "[url]" + "[color]" + ex + "[/color]" + "[/url]";
            RunPass(s, t, WithParam) == s && RunPass(s, t, Plain) == s
  {
    var k1 := if t == U then 2 else 1;
    var k2 := if t == Code then 3 else 1;
    NestedIdle("[url]", "[color]", ex, "[/color]", "[/url]", t, WithParam, k1, k2, 1, 1);
    NestedIdle("[url]", "[color]", ex, "[/color]", "[/url]", t, Plain, k1, k2, 1, 1);
  }

  /** The color tag is no closer of `url`: its `[/` is followed by `c`. */
  lemma {:induction false} ColorIsNoLinkCloser(ex: string)
    requires '[' !in ex
    ensures NoCloserOf("[color]" + ex + "[/color]", Name(Url))
  {
    var e := "[color]" + ex + "[/color]";
    forall k | 0 <= k < |e| && e[k] == '['
      ensures k + 1 < |e| && (e[k + 1] != '/' || (k + 2 < |e| && Lower(e[k + 2]) != Lower(Name(Url)[0])))
    {
      if k >= 7 + |ex| {
        assert k == 7 + |ex|;
        assert e[k + 2] == 'c';
      } else {
        assert k == 0;
      }
    }
  }

  /** The content the `url` handler receives is the color tag as typed. */
  lemma {:induction false} UnescapeColorTag(x: string)
    requires '&' !in x
    ensures Unescape("[color]" + EscapeHtml(x) + "[/color]") == "[color]" + x + "[/color]"
  {
    EscapeAround("[color]", x, "[/color]");
    UnescapeEscape("[color]" + x + "[/color]");
  }

  /** The param form of `url` leaves the escaped post alone. */
  lemma {:induction false} UrlParamIdle(ex: string)
    requires '[' !in ex
    ensures var s := "[url]" + "[color]" + ex + "[/color]" + "[/url]";
            RunPass(s, Url, WithParam) == s
  {
    NestedIdle("[url]", "[color]", ex, "[/color]", "[/url]", Url, WithParam, 4, 1, 1, 1);
  }

  /** The plain form of `url` over the escaped post. */
  lemma {:induction false} UrlPlainOverColor(ex: string)
    requires '[' !in ex
    ensures RunPass("[url]" + "[color]" + ex + "[/color]" + "[/url]", Url, Plain)
         == Handle(Url, Unescape("[color]" + ex + "[/color]"), None)
  {
    var e := "[color]" + ex + "[/color]";
    UrlColorSpelling();
    assert "[url]" + "[color]" + ex + "[/color]" + "[/url]" == Opener(Name(Url), Plain) + e + Closer(Name(Url)) + "";
    ColorIsNoLinkCloser(ex);
    PlainFormThenRest(Url, e, "");
  }

  /** Both passes of `url` over the escaped post: the plain form pairs
      `[url]` with `[/url]` and hands the `url` handler the color tag. */
  lemma {:induction false} UrlPassOverColor(x: string)
    requires '[' !in x && '&' !in x
    ensures Passes("[url]" + "[color]" + EscapeHtml(x) + "[/color]" + "[/url]", [Url])
         == Handle(Url, "[color]" + x + "[/color]", None)
  {
    var ex := EscapeHtml(x);
    var s := "[url]" + "[color]" + ex + "[/color]" + "[/url]";
    EscapeAddsNoSyntax(x);
    PassesOne(s, Url);
    UrlParamIdle(ex);
    UrlPlainOverColor(ex);
    UnescapeColorTag(x);
  }

  /** The end of the link fragment, from its text on, is left alone by a
      pass whose opener the color tags rule out. */
  lemma {:induction false} LinkTailIdle(x: string, t: Tag, f: Form, k: nat)
    requires '[' !in x && RulesOut("[color]", t, f, k) && RulesOut("[/color]", t, f, 1)
    ensures var tail := "[color]" + x + "[/color]" + "</a>";
            RunPass(tail, t, f) == tail
  {
    EndTagsNoBracket();
    PassOverChunk("[/color]", "</a>", t, f, 1);
    PassOverTagText("[color]", x, "[/color]" + "</a>", t, f, k);
    Assoc("[color]" + x, "[/color]", "</a>");
  }

  /** The whole link fragment is left alone by such a pass. */
  lemma {:induction false} LinkIdle(ex: string, x: string, t: Tag, f: Form, k: nat)
    requires '[' !in ex && '[' !in x && RulesOut("[color]", t, f, k) && RulesOut("[/color]", t, f, 1)
    ensures var h := "<a href=\"";
            var mid := "\" target=\"_blank\" rel=\"noopener noreferrer\">";
            var l := h + ("[color]" + ex + "[/color]" + (mid + ("[color]" + x + "[/color]" + "</a>")));
            RunPass(l, t, f) == l
  {
    var h := "<a href=\"";
    var mid := "\" target=\"_blank\" rel=\"noopener noreferrer\">";
    var tail := "[color]" + x + "[/color]" + "</a>";
    LinkTailIdle(x, t, f, k);
    LinkHeadNoBracket();
    LinkMiddleNoBracket();
    PassKeepsPlainText(mid, tail, t, f);
    PassOverChunk("[/color]", mid + tail, t, f, 1);
    PassOverTagText("[color]", ex, "[/color]" + (mid + tail), t, f, k);
    Assoc("[color]" + ex, "[/color]", mid + tail);
    PassKeepsPlainText(h, "[color]" + ex + "[/color]" + (mid + tail), t, f);
  }

  /** Both passes of img and of quote leave the link fragment alone. */
  lemma {:induction false} LinkIdleFor(x: string, t: Tag)
    requires '[' !in x && '&' !in x && (t == Img || t == Quote)
    ensures var l := Handle(Url, "[color]" + x + "[/color]", None);
            RunPass(l, t, WithParam) == l && RunPass(l, t, Plain) == l
  {
    EscapeAddsNoSyntax(x);
    LinkOfColor(x);
    LinkIdle(EscapeHtml(x), x, t, WithParam, 1);
    LinkIdle(EscapeHtml(x), x, t, Plain, 1);
  }

  /** The passes of img and quote leave the link fragment alone. */
  lemma {:induction false} ImgQuoteIdle(x: string)
    requires '[' !in x && '&' !in x
    ensures var l := Handle(Url, "[color]" + x + "[/color]", None);
            Passes(l, [Img, Quote]) == l
  {
    var l := Handle(Url, "[color]" + x + "[/color]", None);
    forall t | t in [Img, Quote]
      ensures RunPass(l, t, WithParam) == l && RunPass(l, t, Plain) == l
    {
      LinkIdleFor(x, t);
    }
    PassesIdle(l, [Img, Quote]);
  }

  /** The param form of `color` leaves the link fragment alone: `[color]`
      has `]` where it needs `=`. */
  lemma {:induction false} ColorParamIdle(x: string)
    requires '[' !in x && '&' !in x
    ensures var l := Handle(Url, "[color]" + x + "[/color]", None);
            RunPass(l, Color, WithParam) == l
  {
    EscapeAddsNoSyntax(x);
    LinkOfColor(x);
    LinkIdle(EscapeHtml(x), x, Color, WithParam, 6);
  }

  /** The color span for a text without `[` holds no `[`. */
  lemma {:induction false} SpanHasNoBracket(x: string)
    requires '[' !in x
    ensures '[' !in Handle(Color, x, None)
  {
    SpanLiteralsNoBracket();
    EscapeAddsNoSyntax("inherit");
  }

  /** The tag passes over the escaped post `[url][color]x[/color][/url]`,
      up to and including `url`. */
  lemma {:induction false} LinkPostUpToUrl(x: string)
    requires '[' !in x && '&' !in x
    ensures Passes(EscapeHtml("[url]" + "[color]" + x + "[/color]" + "[/url]"), Registry[..6])
         == Handle(Url, "[color]" + x + "[/color]", None)
  {
    var ex := EscapeHtml(x);
    var s := "[url]" + "[color]" + ex + "[/color]" + "[/url]";
    EscapeNestedTags("[url]", "[color]", x, "[/color]", "[/url]");
    EscapeAddsNoSyntax(x);
    RegistryAroundUrl();
    forall t | t in Registry[..5]
      ensures RunPass(s, t, WithParam) == s && RunPass(s, t, Plain) == s
    {
      ColorPostIdle(ex, t);
    }
    PassesIdle(s, Registry[..5]);
    UrlPassOverColor(x);
    PassesCompose(s, Registry[..5], [Url]);
  }

  /** The tag passes over the escaped post `[url][color]x[/color][/url]`,
      up to and including `color`. */
  lemma {:induction false} LinkPostPasses(x: string)
    requires '[' !in x && '&' !in x
    ensures Passes(EscapeHtml("[url]" + "[color]" + x + "[/color]" + "[/url]"), Registry[..9])
         == RunPass(Handle(Url, "[color]" + x + "[/color]", None), Color, Plain)
  {
    var s := EscapeHtml("[url]" + "[color]" + x + "[/color]" + "[/url]");
    var l := Handle(Url, "[color]" + x + "[/color]", None);
    LinkPostUpToUrl(x);
    ImgQuoteIdle(x);
    ColorParamIdle(x);
    PassesOne(l, Color);
    RegistryAroundUrl();
    PassesCompose(s, Registry[..6], [Img, Quote]);
    PassesCompose(s, Registry[..6] + [Img, Quote], [Color]);
  }

  /** A color tag inside a link breaks the link's `href` in the rendered
      post: the `url` handler escapes its content into the `href`, but the
      brackets survive, and the `color` pass that comes after it puts a
      span there, whose `"` ends the attribute early. */
  lemma {:induction false} ColorInLinkBreaksHref(x: string)
    requires '[' !in x && '&' !in x && '\n' !in x
    ensures var span := Handle(Color, x, None);
            (ParseBBCode("[url]" + "[color]" + x + "[/color]" + "[/url]")
             == "<a href=\"" + span + "\" target=\"_blank\" rel=\"noopener noreferrer\">" + span + "</a>")
  {
    var raw := "[url]" + "[color]" + x + "[/color]" + "[/url]";
    var span := Handle(Color, x, None);
    var r := "<a href=\"" + span + "\" target=\"_blank\" rel=\"noopener noreferrer\">" + span + "</a>";
    LinkPostPasses(x);
    ColorInsideLink(x);
    assert '[' !in r by {
      SpanHasNoBracket(x);
      LinkHeadNoBracket();
      LinkMiddleNoBracket();
      EndTagsNoBracket();
    }
    assert '\n' !in r by {
      HandlerAddsNoNewline(Color, x, None);
      UrlMarkupNoNewline();
      NoNewlineJoin("<a href=\"", span, "\" target=\"_blank\" rel=\"noopener noreferrer\">", span, "</a>");
    }
    ParseSettles(raw, 9, r);
  }
}
