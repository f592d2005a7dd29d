/** The tag registry: the ten tags in processing order and the handler that
    turns a tag's (un-escaped) content and optional parameter into an HTML
    fragment. */
module Tags {
  import opened Text
  import opened Escaping

  datatype Tag = B | I | U | S | Code | Url | Img | Quote | Color | Size

  /** The tag name as written between the brackets (lower case). */
  function Name(t: Tag): (n: string)
    ensures |n| > 0 && forall k :: 0 <= k < |n| ==> 'a' <= n[k] <= 'z'
  {
    match t
    case B => "b"
    case I => "i"
    case U => "u"
    case S => "s"
    case Code => "code"
    case Url => "url"
    case Img => "img"
    case Quote => "quote"
    case Color => "color"
    case Size => "size"
  }

  /** Processing order of the tag passes. */
  const Registry: seq<Tag> := [B, I, U, S, Code, Url, Img, Quote, Color, Size]

  /** The registry lists every tag exactly once. */
  lemma RegistryListsEveryTagOnce()
    ensures forall t: Tag :: t in Registry
    ensures forall j, k :: 0 <= j < k < |Registry| ==> Registry[j] != Registry[k]
  {
    forall t: Tag
      ensures t in Registry
    {
      match t
      case B => assert Registry[0] == t;
      case I => assert Registry[1] == t;
      case U => assert Registry[2] == t;
      case S => assert Registry[3] == t;
      case Code => assert Registry[4] == t;
      case Url => assert Registry[5] == t;
      case Img => assert Registry[6] == t;
      case Quote => assert Registry[7] == t;
      case Color => assert Registry[8] == t;
      case Size => assert Registry[9] == t;
    }
  }

  /** JavaScript truthiness of an optional parameter: present and non-empty. */
  predicate Truthy(param: Option<string>) {
    param.Some? && |param.value| > 0
  }

  /** `param || fallback`. */
  function OrElse(param: Option<string>, fallback: string): string {
    if Truthy(param) then param.value else fallback
  }

  /** The handler of each tag. Content is inserted as given except by `code`
      (which escapes it); every value placed in an attribute or in the quote
      author line goes through `EscapeHtml`. No handler writes a newline of
      its own: every newline of the fragment comes from the content or the
      parameter. */
  function Handle(t: Tag, content: string, param: Option<string>): (r: string)
    ensures |r| > |content| && r[0] == '<'
  {
    match t
    case B => "<strong>" + content + "</strong>"
    case I => "<em>" + content + "</em>"
    case U => "<u>" + content + "</u>"
    case S => "<s>" + content + "</s>"
    case Code => "<code>" + EscapeHtml(content) + "</code>"
    case Url =>
      var href := OrElse(param, content);
      "<a href=\"" + EscapeHtml(href) + "\" target=\"_blank\" rel=\"noopener noreferrer\">" + content + "</a>"
    case Img => "<img src=\"" + EscapeHtml(content) + "\" alt=\"Image\" style=\"max-width: 100%;\" />"
    case Quote =>
      var author := if Truthy(param) then "<strong>" + EscapeHtml(param.value) + " wrote:</strong><br>" else "";
      "<blockquote>" + author + content + "</blockquote>"
    case Color => "<span style=\"color: " + EscapeHtml(OrElse(param, "inherit")) + "\">" + content + "</span>"
    case Size => "<span style=\"font-size: " + EscapeHtml(OrElse(param, "1")) + "em\">" + content + "</span>"
  }

  /** A fragment is a complete element: it opens with `<` and closes with `>`. */
  lemma FragmentIsElement(t: Tag, content: string, param: Option<string>)
    ensures var r := Handle(t, content, param); |r| > 0 && r[0] == '<' && r[|r| - 1] == '>'
  {
    var r := Handle(t, content, param);
    var last: string;
    match t
    case B => last := "</strong>";
    case I => last := "</em>";
    case U => last := "</u>";
    case S => last := "</s>";
    case Code => last := "</code>";
    case Url => last := "</a>";
    case Img => last := " />";
    case Quote => last := "</blockquote>";
    case Color => last := "</span>";
    case Size => last := "</span>";
    assert r[|r| - |last|..] == last;
    assert r[|r| - 1] == last[|last| - 1];
  }

  /** The raw value a handler places in its attribute (or, for `quote`, in
      its author line), with the fallbacks for a missing parameter: `url`
      links to its content, `color` is `inherit`, `size` is `1`, and `quote`
      has no author line. Tags without such a slot give `None`. */
  function SlotValue(t: Tag, content: string, param: Option<string>): Option<string> {
    match t
    case Url => Some(if Truthy(param) then param.value else content)
    case Img => Some(content)
    case Quote => if Truthy(param) then Some(param.value) else None
    case Color => Some(if Truthy(param) then param.value else "inherit")
    case Size => Some(if Truthy(param) then param.value else "1")
    case _ => None
  }

  /** Fixed text a fragment starts with, up to its slot. */
  function SlotPrefix(t: Tag): string {
    match t
    case Url => "<a href=\""
    case Img => "<img src=\""
    case Quote => "<blockquote>" + "<strong>"
    case Color => "<span style=\"color: "
    case Size => "<span style=\"font-size: "
    case _ => ""
  }

  /** Number of fixed plain characters between the slot value and the
      markup character that closes the slot (`em` for `size`, ` wrote:` for
      the quote author). */
  function SlotGap(t: Tag): nat {
    match t
    case Size => 2
    case Quote => 7
    case _ => 0
  }

  /** The character that closes the slot: the attribute's quote, or the `<`
      of `</strong>` after a quote author. */
  function SlotClose(t: Tag): char {
    if t == Quote then '<' else '"'
  }

  /** In the fragment `r`, the text `v` fills the slot that starts after the
      fixed text `prefix`; `v` holds no markup character, and the first
      markup character from the slot on is `close`, `gap` characters after
      `v`. */
  predicate SlotHolds(r: string, prefix: string, v: string, gap: nat, close: char) {
    var a := |prefix|;
    && a + |v| + gap < |r|
    && r[..a] == prefix
    && r[a..a + |v|] == v
    && (forall k :: a <= k < a + |v| + gap ==> !IsMarkupChar(r[k]))
    && r[a + |v| + gap] == close
  }

  lemma SlotLayout(prefix: string, v: string, tail: string, gap: nat, close: char)
    requires NoMarkup(v)
    requires gap < |tail| && tail[gap] == close
    requires forall k :: 0 <= k < gap ==> !IsMarkupChar(tail[k])
    ensures SlotHolds(prefix + v + tail, prefix, v, gap, close)
  {
    var r := prefix + v + tail;
    var a := |prefix|;
    assert forall k :: a <= k < a + |v| ==> r[k] == v[k - a];
    assert forall k :: a + |v| <= k < |r| ==> r[k] == tail[k - a - |v|];
  }

  /** `SlotLayout` for the shape `prefix + v + mid + content + last` of the
      `url`, `color` and `size` fragments. */
  lemma SlotLayoutAround(prefix: string, v: string, mid: string, content: string, last: string, gap: nat, close: char)
    requires NoMarkup(v)
    requires gap < |mid| && mid[gap] == close
    requires forall k :: 0 <= k < gap ==> !IsMarkupChar(mid[k])
    ensures SlotHolds(prefix + v + mid + content + last, prefix, v, gap, close)
  {
    var tail := mid + content + last;
    assert prefix + v + mid + content + last == prefix + v + tail;
    SlotLayout(prefix, v, tail, gap, close);
  }

  /** `SlotLayout` for the shape of a `quote` fragment with an author line,
      whose slot prefix is split over the wrapper and the author line. */
  lemma SlotLayoutQuote(outer: string, inner: string, v: string, wrote: string, content: string, last: string, gap: nat, close: char)
    requires NoMarkup(v)
    requires gap < |wrote| && wrote[gap] == close
    requires forall k :: 0 <= k < gap ==> !IsMarkupChar(wrote[k])
    ensures SlotHolds(outer + (inner + v + wrote) + content + last, outer + inner, v, gap, close)
  {
    var tail := wrote + content + last;
    assert outer + (inner + v + wrote) + content + last == (outer + inner) + v + tail;
    SlotLayout(outer + inner, v, tail, gap, close);
  }

  /** A slot value cannot break out of its slot: after the fragment's fixed
      opening text, the escaped value holds no markup character, and the
      first markup character after it is the one the handler wrote to close
      the attribute (or the author line). */
  lemma SlotContained(t: Tag, content: string, param: Option<string>)
    requires SlotValue(t, content, param).Some? && t != Quote
    ensures SlotHolds(Handle(t, content, param), SlotPrefix(t), EscapeHtml(SlotValue(t, content, param).value), SlotGap(t), SlotClose(t))
  {
    match t
    case Url => UrlSlotContained(content, param);
    case Img => ImgSlotContained(content, param);
    case Color => ColorSlotContained(content, param);
    case Size => SizeSlotContained(content, param);
  }

  lemma UrlSlotContained(content: string, param: Option<string>)
    requires SlotValue(Url, content, param).Some?
    ensures SlotHolds(Handle(Url, content, param), SlotPrefix(Url), EscapeHtml(SlotValue(Url, content, param).value), SlotGap(Url), SlotClose(Url))
  {
    var v := EscapeHtml(SlotValue(Url, content, param).value);
    var mid := "\" target=\"_blank\" rel=\"noopener noreferrer\">";
    SlotLayoutAround(SlotPrefix(Url), v, mid, content, "</a>", 0, '"');
  }

  lemma ImgSlotContained(content: string, param: Option<string>)
    requires SlotValue(Img, content, param).Some?
    ensures SlotHolds(Handle(Img, content, param), SlotPrefix(Img), EscapeHtml(SlotValue(Img, content, param).value), SlotGap(Img), SlotClose(Img))
  {
    var v := EscapeHtml(SlotValue(Img, content, param).value);
    SlotLayout(SlotPrefix(Img), v, "\" alt=\"Image\" style=\"max-width: 100%;\" />", 0, '"');
  }

  lemma ColorSlotContained(content: string, param: Option<string>)
    requires SlotValue(Color, content, param).Some?
    ensures SlotHolds(Handle(Color, content, param), SlotPrefix(Color), EscapeHtml(SlotValue(Color, content, param).value), SlotGap(Color), SlotClose(Color))
  {
    var v := EscapeHtml(SlotValue(Color, content, param).value);
    SlotLayoutAround(SlotPrefix(Color), v, "\">", content, "</span>", 0, '"');
  }

  lemma SizeSlotContained(content: string, param: Option<string>)
    requires SlotValue(Size, content, param).Some?
    ensures SlotHolds(Handle(Size, content, param), SlotPrefix(Size), EscapeHtml(SlotValue(Size, content, param).value), SlotGap(Size), SlotClose(Size))
  {
    var v := EscapeHtml(SlotValue(Size, content, param).value);
    var em := "em\">";
    assert !IsMarkupChar(em[0]) && !IsMarkupChar(em[1]);
    SlotLayoutAround(SlotPrefix(Size), v, em, content, "</span>", 2, '"');
  }

  /** The quote author cannot break out of the author line: the first markup
      character after the escaped author is the `<` of `</strong>`. */
  lemma QuoteAuthorContained(content: string, param: Option<string>)
    requires Truthy(param)
    ensures SlotHolds(Handle(Quote, content, param), SlotPrefix(Quote), EscapeHtml(param.value), SlotGap(Quote), SlotClose(Quote))
  {
    var wrote := " wrote:</strong><br>";
    assert forall k :: 0 <= k < 7 ==> !IsMarkupChar(wrote[k]);
    SlotLayoutQuote("<blockquote>", "<strong>", EscapeHtml(param.value), wrote, content, "</blockquote>", 7, '<');
  }

  /** The content of a `code` fragment is escaped: apart from the `<code>`
      wrapper the fragment holds no markup character, and the chain recovers
      the content from it whenever the content has no `&`. */
  lemma CodeContentEscaped(content: string, param: Option<string>)
    ensures var r := Handle(Code, content, param);
            && |r| >= 13
            && r[..6] == "<code>" && r[|r| - 7..] == "</code>"
            && (forall k :: 6 <= k < |r| - 7 ==> !IsMarkupChar(r[k]))
            && ('&' !in content ==> Unescape(r[6..|r| - 7]) == content)
  {
    var r := Handle(Code, content, param);
    var v := EscapeHtml(content);
    assert r == "<code>" + v + "</code>";
    assert r[6..|r| - 7] == v;
    if '&' !in content {
      UnescapeEscape(content);
    }
  }

  /** Without a parameter, `quote` writes no author line. */
  lemma QuoteWithoutAuthor(content: string)
    ensures Handle(Quote, content, None) == "<blockquote>" + content + "</blockquote>"
  {
  }

  /** No handler writes a newline of its own: a fragment holds a newline
      only when its content or its parameter does. */
  lemma {:induction false} HandlerAddsNoNewline(t: Tag, content: string, param: Option<string>)
    requires '\n' !in content
    requires param.Some? ==> '\n' !in param.value
    ensures '\n' !in Handle(t, content, param)
  {
    if t == Url {
      UrlAddsNoNewline(content, param);
    } else if t == Img {
      ImgAddsNoNewline(content, param);
    } else if t == Quote {
      QuoteAddsNoNewline(content, param);
    } else if t == Color || t == Size {
      StyleAddsNoNewline(t, content, param);
    } else {
      InlineAddsNoNewline(t, content, param);
    }
  }

  lemma {:induction false} InlineAddsNoNewline(t: Tag, content: string, param: Option<string>)
    requires '\n' !in content
    requires param.Some? ==> '\n' !in param.value
    requires t in {B, I, U, S, Code}
    ensures '\n' !in Handle(t, content, param)
  {
    match t
    case B => NoNewlineJoin("<strong>", content, "</strong>", "", "");
    case I => NoNewlineJoin("<em>", content, "</em>", "", "");
    case U => NoNewlineJoin("<u>", content, "</u>", "", "");
    case S => NoNewlineJoin("<s>", content, "</s>", "", "");
    case Code =>
      EscapeNoNewline(content);
      NoNewlineJoin("<code>", EscapeHtml(content), "</code>", "", "");
  }

  lemma {:induction false} UrlAddsNoNewline(content: string, param: Option<string>)
    requires '\n' !in content
    requires param.Some? ==> '\n' !in param.value
    ensures '\n' !in Handle(Url, content, param)
  {
    var v := EscapeHtml(OrElse(param, content));
    EscapeNoNewline(OrElse(param, content));
    UrlMarkupNoNewline();
    NoNewlineJoin("<a href=\"", v, "\" target=\"_blank\" rel=\"noopener noreferrer\">", content, "</a>");
  }

  lemma {:induction false} ImgAddsNoNewline(content: string, param: Option<string>)
    requires '\n' !in content
    requires param.Some? ==> '\n' !in param.value
    ensures '\n' !in Handle(Img, content, param)
  {
    EscapeNoNewline(content);
    ImgMarkupNoNewline();
    NoNewlineJoin("<img src=\"", EscapeHtml(content), "\" alt=\"Image\" style=\"max-width: 100%;\" />", "", "");
  }

  lemma {:induction false} QuoteAddsNoNewline(content: string, param: Option<string>)
    requires '\n' !in content
    requires param.Some? ==> '\n' !in param.value
    ensures '\n' !in Handle(Quote, content, param)
  {
    var author := if Truthy(param) then "<strong>" + EscapeHtml(param.value) + " wrote:</strong><br>" else "";
    if Truthy(param) {
      EscapeNoNewline(param.value);
      NoNewlineJoin("<strong>", EscapeHtml(param.value), " wrote:</strong><br>", "", "");
    }
    NoNewlineJoin("<blockquote>", author, content, "</blockquote>", "");
  }

  lemma {:induction false} StyleAddsNoNewline(t: Tag, content: string, param: Option<string>)
    requires '\n' !in content
    requires param.Some? ==> '\n' !in param.value
    requires t == Color || t == Size
    ensures '\n' !in Handle(t, content, param)
  {
    if t == Color {
      ColorAddsNoNewline(content, param);
    } else {
      SizeAddsNoNewline(content, param);
    }
  }

  lemma {:induction false} ColorAddsNoNewline(content: string, param: Option<string>)
    requires '\n' !in content
    requires param.Some? ==> '\n' !in param.value
    ensures '\n' !in Handle(Color, content, param)
  {
    var v := EscapeHtml(OrElse(param, "inherit"));
    EscapeNoNewline(OrElse(param, "inherit"));
    SpanMarkupNoNewline();
    NoNewlineJoin("<span style=\"color: ", v, "\">", content, "</span>");
  }

  lemma {:induction false} SizeAddsNoNewline(content: string, param: Option<string>)
    requires '\n' !in content
    requires param.Some? ==> '\n' !in param.value
    ensures '\n' !in Handle(Size, content, param)
  {
    var v := EscapeHtml(OrElse(param, "1"));
    EscapeNoNewline(OrElse(param, "1"));
    SpanMarkupNoNewline();
    NoNewlineJoin("<span style=\"font-size: ", v, "em\">", content, "</span>");
  }

  // Line breaks in the fixed texts of the fragments: none, each stated
  // on its own so that the solver does not unfold the literals itself.

  /** The fixed text of the span fragments holds no line break. */
  lemma SpanMarkupNoNewline()
    ensures '\n' !in "<span style=\"color: " && '\n' !in "<span style=\"font-size: "
  {
  }

  /** The fixed text of the link fragment holds no line break. */
  lemma UrlMarkupNoNewline()
    ensures '\n' !in "<a href=\""
    ensures '\n' !in "\" target=\"_blank\" rel=\"noopener noreferrer\">"
  {
  }

  /** The fixed text of the image fragment holds no line break. */
  lemma ImgMarkupNoNewline()
    ensures '\n' !in "<img src=\""
    ensures '\n' !in "\" alt=\"Image\" style=\"max-width: 100%;\" />"
  {
  }

  lemma {:induction false} NoNewlineJoin(a: string, b: string, c: string, d: string, e: string)
    requires '\n' !in a && '\n' !in b && '\n' !in c && '\n' !in d && '\n' !in e
    ensures '\n' !in a + b + c + d + e
  {
  }

  lemma {:induction false} EscapeNoNewline(s: string)
    requires '\n' !in s
    ensures '\n' !in EscapeHtml(s)
  {
    EscapeKeepsCount(s, '\n');
  }
}
