/** Facts about fixed texts: how the tags are spelled, where they sit in
    the registry, and which characters the literal parts of the fragments
    and example posts hold. Each is immediate, but the solver only finds
    them reliably when asked for them one at a time, so the worked
    examples call these small lemmas instead of unfolding the literals in
    their own proofs. */
module Literals {
  import opened Escaping
  import opened Tags
  import opened Scanner
  import opened BBCode

  // Spelling of the tags.

  /** The literal spelling of the `b` and `code` tags. */
  lemma BoldCodeSpelling()
    ensures Opener(Name(B), Plain) == "[b]" && Closer(Name(B)) == "[/b]"
    ensures Opener(Name(Code), Plain) == "[code]" && Closer(Name(Code)) == "[/code]"
  {
  }

  /** The literal spelling of the `url` and `color` tags. */
  lemma UrlColorSpelling()
    ensures Opener(Name(Url), Plain) == "[url]" && Closer(Name(Url)) == "[/url]"
    ensures Opener(Name(Color), Plain) == "[color]" && Closer(Name(Color)) == "[/color]"
  {
  }

  /** The first letters of the tag names: b, i, u, s, c and q; only `b`
      starts with `b`. */
  lemma Initials(t: Tag)
    ensures var i := Name(t)[0];
            i == 'b' || i == 'i' || i == 'u' || i == 's' || i == 'c' || i == 'q'
    ensures Name(t)[0] == 'b' ==> t == B
  {
  }

  // Positions in the registry.

  /** The registry is the tags before a position followed by the rest. */
  lemma RegistrySplits(done: nat)
    requires done <= |Registry|
    ensures Registry[..done] + Registry[done..] == Registry
  {
  }

  /** `code` is the fifth tag of the registry. */
  lemma CodeIsFifth()
    ensures Registry[..4] + [Code] == Registry[..5]
  {
  }

  /** The first four tags of the registry, and the two after them. */
  lemma RegistryHead()
    ensures Registry[..4] == [B, I, U, S]
    ensures Registry[..4] + [Code] + [Url] == Registry[..6]
  {
  }

  /** The registry split where the passes over `[url][color]x[/color][/url]`
      change the text. */
  lemma RegistryAroundUrl()
    ensures Registry[..5] == [B, I, U, S, Code]
    ensures Registry[..5] + [Url] == Registry[..6]
    ensures Registry[..6] + [Img, Quote] + [Color] == Registry[..9]
  {
  }

  // Characters of the literal texts.

  /** The unknown tag's literals hold no special character and no newline. */
  lemma FooLiterals()
    ensures forall k :: 0 <= k < |"[foo]"| ==> !IsSpecial("[foo]"[k])
    ensures forall k :: 0 <= k < |"[/foo]"| ==> !IsSpecial("[/foo]"[k])
    ensures '\n' !in "[foo]" && '\n' !in "[/foo]"
  {
  }

  /** The fixed text of the link fragment holds no `[`. */
  lemma LinkHeadNoBracket()
    ensures '[' !in "<a href=\""
  {
  }

  /** The text between the link's `href` and its content holds no `[`. */
  lemma LinkMiddleNoBracket()
    ensures '[' !in "\" target=\"_blank\" rel=\"noopener noreferrer\">"
  {
  }

  /** The closing tags of the link and code elements hold no `[`. */
  lemma EndTagsNoBracket()
    ensures '[' !in "</a>" && '[' !in "</code>"
  {
  }

  /** The fixed text of the color fragment and its fallback hold no `[`. */
  lemma SpanLiteralsNoBracket()
    ensures '[' !in "<span style=\"color: " && '[' !in "\">" && '[' !in "</span>" && '[' !in "inherit"
  {
  }

  /** The text between the two closers of the rendered nested post holds
      no `[`. */
  lemma {:induction false} NestedTail(y: string, ez: string)
    requires '[' !in y && '[' !in ez
    ensures '[' !in y + "</strong>" + ez
  {
  }

  /** The rendered nested post holds no line break. */
  lemma {:induction false} NestedNoNewline(x: string, y: string, ez: string)
    requires '\n' !in x && '\n' !in y && '\n' !in ez
    ensures '\n' !in "<strong>" + x + "[b]" + y + "</strong>" + ez + "[/b]"
  {
  }

  /** An ampersand escaped once and twice. */
  lemma AmpersandEscapes()
    ensures EscapeHtml("&") == "&amp;"
    ensures EscapeHtml("&amp;") == "&amp;amp;"
  {
  }
}
