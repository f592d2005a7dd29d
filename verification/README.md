# BBCode renderer and rank lookup, modelled in Dafny

This project models two pieces of a forum:

- the BBCode-to-HTML renderer of `src/lib/utils/bbcode.ts`;
- the post-count rank lookup of `src/lib/utils/ranks.ts`.

Post text is stored raw. `parseBBCode` turns it into HTML in four steps:

1. It escapes the whole post with `escapeHtml`.
2. For each of ten tags in table order (b, i, u, s, code, url, img, quote,
   color, size) it runs two global, case-insensitive, non-greedy rewrite
   passes. The first pass handles `[tag=param]content[/tag]`; the second
   handles `[tag]content[/tag]`.
3. Each matched content is un-escaped by a chain of five replacements and
   handed to the tag's handler.
4. Every newline becomes `<br>`.

The rank lookup searches a fixed table of five thresholds from the top down.

Modules, one per file:

- `Text` (text.dfy) holds the string primitives: ASCII case folding, a
  case-insensitive prefix test and search, the global replacement of a
  literal, and the regrouping of long concatenations.
- `Escaping` (escaping.dfy) holds `escapeHtml` and the un-escape chain.
- `Tags` (tags.dfy) holds the closed tag datatype, the registry order, the
  handlers, and where each handler puts an escaped value.
- `Scanner` (scanner.dfy) holds one regex pass as a left-to-right scanner:
  - the leftmost match at each position;
  - a parameter of one or more non-`]` characters;
  - the shortest content up to the first closer, compared up to ASCII case;
  - one character skipped when nothing matches;
  - no rescan of inserted text.

  `IsMatch` is a declarative reading of the pattern, and `Leftmost` is one
  of the whole scan. The scanner is proved to agree with both, in both
  directions.
- `Pass` (pass.dfy) is one `replace` call: the scan, rendered with the
  handler.
- `BBCode` (bbcode.dfy) holds the pipeline `ParseBBCode`.
- `Literals` (literals.dfy) collects facts about fixed texts that the
  worked examples use: how the tags are spelled, where they sit in the
  registry, and which characters the literal parts of fragments hold.
- `Provenance` (provenance.dfy) runs the same pipeline over characters
  tagged with their origin: post text or markup written by a handler. It
  proves that post text never reaches the output as a markup character
  unless a tag handler placed it there, and that every `&` of the post text
  in the output begins one of the five entities.
- `Examples` (examples.dfy) gives whole-post results for a single tag, the
  param form, `code`, an unknown tag and a nested `b`, and for the
  behaviours a reader may not expect.
- `Interference` (interference.dfy) shows how a later tag's passes rewrite
  inside the fragment of an earlier tag.
- `Ranks` (ranks.dfy) holds the rank table and `getRankByPostCount`.

The renderer does not promise that its output is free of author markup. The
content of b, i, u, s, url, quote, color and size is un-escaped and inserted
as it stands, so `[b]<script>[/b]` renders a live script element. The model
proves this as a counterexample (`Examples.ScriptInBold`).

What the code does guarantee is narrower:

- within the fragment a handler returns, values placed in attributes are
  escaped and `code` content is escaped;
- in the rendered post, text outside any tag stays escaped.

The first guarantee does not survive the rest of the pipeline. `escapeHtml`
keeps `[` and `]`, and every later tag's passes scan the whole text,
earlier fragments included. Two whole-post counterexamples are proved:

- `[code][url]x[/url][/code]` renders a live link inside `<code>`
  (`Interference.LinkInCodeIsLive`);
- `[url][color]x[/color][/url]` puts a `<span style="...">` element inside
  the `href`, whose first `"` ends the attribute
  (`Interference.ColorInLinkBreaksHref`).

The parameter of the `=param` form is handed to the handler as it stands in
the already-escaped text, and the handler escapes it again. A link target
such as `a&b` therefore ends up as `a&amp;amp;b` in the `href`. The model
follows the code here (`Examples.LinkTargetEscapedTwice`, and
`Examples.AmpersandInLinkTarget` for targets shaped like `a&b`).

## Model

| member | source | states |
|---|---|---|
| Text.FindCIIsFirst | src/lib/utils/bbcode.ts:43 | the result is the leftmost position where the closer occurs up to ASCII case, and none is found only when it occurs nowhere |
| Text.ReplaceCharRemoves | src/lib/utils/bbcode.ts:59 | replacing a character by a text without it leaves no occurrence of it, and a text without it is unchanged |
| Text.ReplaceAll | src/lib/utils/bbcode.ts:46 | a global replacement by a text no longer than the pattern never lengthens the text, and a text without the pattern's first character is unchanged |
| Escaping.EscapeChar | src/lib/utils/bbcode.ts:25-32 | a character is mapped to something other than itself exactly when it is one of the five specials, and then to an entity `&...;` without markup characters |
| Escaping.EscapeHtml | src/lib/utils/bbcode.ts:24-33 | the escaped text holds none of `<`, `>`, `"`, `'` and is never shorter than the input |
| Escaping.EscapeKeepsCount | src/lib/utils/bbcode.ts:24-33 | characters other than the five specials and the letters of the entities (brackets, `=`, `/`, newline, ...) occur as often after escaping as before |
| Escaping.EscapeConcat | src/lib/utils/bbcode.ts:32 | escaping works character by character, so it distributes over concatenation |
| Escaping.EscapePlain | src/lib/utils/bbcode.ts:24-33 | a text without special characters is its own escape |
| Escaping.DecodeStage | src/lib/utils/bbcode.ts:46 | on text without `&`, each stage of the un-escape chain decodes exactly its own entity |
| Escaping.UnescapeEscape | src/lib/utils/bbcode.ts:46 | the un-escape chain inverts `escapeHtml` on every text without `&` |
| Escaping.Unescape | src/lib/utils/bbcode.ts:46-53 | the chain never lengthens the text and leaves a text without `&` unchanged; `UnescapeEscape` makes it the inverse of `EscapeHtml` on `&`-free text |
| Escaping.UnescapeDecodesTwice | src/lib/utils/bbcode.ts:46 | `&amp;` is decoded first, so user text `&lt;` comes back as `<`: the chain is no inverse once `&` occurs |
| Tags.Handle | src/lib/utils/bbcode.ts:5-22 | every handler returns an element that opens with `<` and is longer than its content; `SlotContained`, `QuoteAuthorContained` and `CodeContentEscaped` state what each places where |
| Tags.RegistryListsEveryTagOnce | src/lib/utils/bbcode.ts:5-22 | the processing order lists each of the ten tags exactly once |
| Tags.FragmentIsElement | src/lib/utils/bbcode.ts:5-22 | every handler returns a fragment that opens with `<` and closes with `>` |
| Tags.SlotContained | src/lib/utils/bbcode.ts:11-21 | the url href (the parameter, else the content), the img src, the color value (else `inherit`) and the size value (else `1`) appear escaped, and nothing between them and the closing quote can end the attribute |
| Tags.QuoteAuthorContained | src/lib/utils/bbcode.ts:16-17 | a quote author appears escaped in its author line, with no markup character before the line's closing tag |
| Tags.QuoteWithoutAuthor | src/lib/utils/bbcode.ts:16-18 | a quote without an author is the blockquote around its content, with no author line |
| Tags.CodeContentEscaped | src/lib/utils/bbcode.ts:10 | `code` wraps an escape of its content: nothing between the tags is a markup character, and on `&`-free content it un-escapes back to the content |
| Tags.HandlerAddsNoNewline | src/lib/utils/bbcode.ts:5-22 | a fragment holds a newline only when its content or parameter does |
| Scanner.MatchAt | src/lib/utils/bbcode.ts:43-51 | a match found covers a non-empty prefix of the text; `MatchAtIsTheMatch` makes it exactly the declarative reading of the pattern |
| Scanner.Scan | src/lib/utils/bbcode.ts:44-52 | a non-empty text gives at least one piece and never more pieces than characters; `ScanIsLeftmost` and `LeftmostIsScan` make it the unique leftmost, non-overlapping global replace |
| Scanner.CloseBracketIsFirst | src/lib/utils/bbcode.ts:43 | the position of the first `]`, or the end of the text when there is none: the extent of `[^\]]+` |
| Scanner.MatchAtIsTheMatch | src/lib/utils/bbcode.ts:43 | a match found at a position satisfies the pattern's reading (opener up to case, a parameter, shortest content, closer), and any such match is the one found |
| Scanner.ParamIsDetermined | src/lib/utils/bbcode.ts:43 | a position admits at most one parameter |
| Scanner.MatchNeedsOpener | src/lib/utils/bbcode.ts:43 | a match starts with `[` and the tag's initial up to case, and in the param form has `=` right after the name |
| Scanner.ScanCoversInput | src/lib/utils/bbcode.ts:44 | the spans a pass keeps or replaces concatenate back to its input |
| Scanner.ScanIsLeftmost | src/lib/utils/bbcode.ts:44 | the scan is the leftmost, non-overlapping reading of the input, resuming after each match |
| Scanner.LeftmostIsScan | src/lib/utils/bbcode.ts:44 | that reading is unique: any leftmost reading is the scan |
| Pass.Fragment | src/lib/utils/bbcode.ts:44-54 | a replaced match becomes an element opening with `<`: the handler's output for the un-escaped content, with the parameter in the param form |
| Pass.RunPass | src/lib/utils/bbcode.ts:44-55 | one `replace` call: the scan rendered with the handler, which leaves a text without `[` unchanged; by `ScanIsLeftmost` and `LeftmostIsScan` the scan is the leftmost global replace |
| Pass.PassKeepsPlainText | src/lib/utils/bbcode.ts:52-55 | a pass copies a leading text without `[` and carries on after it |
| Pass.PassWithoutEquals | src/lib/utils/bbcode.ts:43 | the param form does nothing to a text without `=` |
| Pass.PassClear | src/lib/utils/bbcode.ts:43-55 | a text where no `[` is followed by the tag's initial is left alone by both forms of that tag |
| Pass.ClearEscape | src/lib/utils/bbcode.ts:38 | escaping keeps a text clear of a tag |
| Pass.PassNoOpener | src/lib/utils/bbcode.ts:43-55 | a text in which no opener of a tag (`[name=` or `[name]`, in any case) starts anywhere is left alone by both forms of that tag |
| Pass.PrefixOfEscape | src/lib/utils/bbcode.ts:24-33 | a pattern without `&` that starts the escape of a text already starts the text itself |
| Pass.EscapeKeepsNoOpener | src/lib/utils/bbcode.ts:38 | escaping creates no opener of a tag where the post had none |
| Pass.ClearHasNoOpener | src/lib/utils/bbcode.ts:43-51 | a text where no `[` is followed by the tag's initial holds no opener of that tag |
| BBCode.Lines | src/lib/utils/bbcode.ts:59 | no newline is left, each newline adds three characters, and a text without newlines is unchanged |
| BBCode.ParseBBCode | src/lib/utils/bbcode.ts:35-62 | an empty post renders as the empty text, and a rendered post holds no newline |
| BBCode.PassesCompose | src/lib/utils/bbcode.ts:41-56 | running the passes of two runs of tags one after the other is running those of the joined run |
| BBCode.Passes | src/lib/utils/bbcode.ts:41-56 | the tag loop, both forms per tag in order: a text without `[` goes through unchanged |
| BBCode.NoBracketIsEscaped | src/lib/utils/bbcode.ts:35-62 | a post without `[` renders as its escape with newlines turned into `<br>` |
| BBCode.PassesNoOpener | src/lib/utils/bbcode.ts:41-56 | a text holding no opener of any tag of the list goes through all their passes unchanged |
| BBCode.UnknownTagsAreText | src/lib/utils/bbcode.ts:38-59 | a post holding no opener of a known tag in any case, so that its brackets are stray or belong to unknown tags such as `[center]` or `[spoiler]`, renders as its escape with newlines turned into `<br>` |
| Provenance.TParseAgrees | src/lib/utils/bbcode.ts:35-62 | the traced pipeline produces exactly the characters of `parseBBCode` |
| Provenance.TRenderKeepsTextEscaped | src/lib/utils/bbcode.ts:44-55 | a pass keeps every post-text character that was not a markup character free of markup |
| Provenance.TextOutsideTagsStaysEscaped | src/lib/utils/bbcode.ts:38-59 | in every rendered post, the characters that come from the post text and not from a handler are never `<`, `>`, `"` or `'`, and each `&` among them begins one of the five entities |
| Provenance.PlainPostIsText | src/lib/utils/bbcode.ts:36-59 | a non-empty post without `[` and newlines renders as its escape, every character of it post text |
| Examples.PlainTagMatch | src/lib/utils/bbcode.ts:51 | `[name]e[/name]` at the start of a text is one plain-form match with content `e` when no `[` in `e` starts a closer |
| Examples.ParamTagMatch | src/lib/utils/bbcode.ts:43 | `[name=p]e[/name]` is one param-form match with parameter `p` and content `e` |
| Examples.PlainFormThenRest | src/lib/utils/bbcode.ts:51-55 | a leading `[tag]e[/tag]` becomes the handler's fragment for the un-escaped `e`, and the pass carries on after it, when no `[` in `e` starts the closer |
| Examples.PlainFormReplaces | src/lib/utils/bbcode.ts:51-55 | the plain form turns `[tag]` escape-of-`x` `[/tag]` into the handler's fragment for `x` itself |
| Examples.ParamFormReplaces | src/lib/utils/bbcode.ts:43-48 | the param form hands the handler the un-escaped content but the parameter still escaped |
| Examples.LinkTargetEscapedTwice | src/lib/utils/bbcode.ts:11-14 | a url target given as a parameter appears in the href escaped twice |
| Examples.EscapeAmpersand | src/lib/utils/bbcode.ts:24-33 | escaping turns the one `&` of a text otherwise free of special characters into `&amp;`, and `&amp;` into `&amp;amp;`, leaving the rest as it is |
| Examples.AmpersandInLinkTarget | src/lib/utils/bbcode.ts:11-14 | a url target such as `a&b`, which the post carries as `a&amp;b`, appears in the href as `a&amp;amp;b` |
| Examples.SimpleTag | src/lib/utils/bbcode.ts:41-56 | both passes of a tag on `[tag]x[/tag]` give the handler's fragment for `x` |
| Examples.BoldContentIsRaw | src/lib/utils/bbcode.ts:6 | `[b]x[/b]` renders as `<strong>x</strong>` with `x` exactly as typed, markup included |
| Examples.ScriptInBold | src/lib/utils/bbcode.ts:53-54 | `[b]<script>[/b]` renders as `<strong><script></strong>` |
| Examples.CodeContentIsEscaped | src/lib/utils/bbcode.ts:10 | `[code]x[/code]` renders as `<code>` escape-of-`x` `</code>`, so `[code]<b>x</b>[/code]` shows the tags as text |
| Examples.UnknownTagPassesThrough | src/lib/utils/bbcode.ts:38-59 | `[foo]x[/foo]` renders as `[foo]` escape-of-`x` `[/foo]` |
| Examples.NestedPlainForm | src/lib/utils/bbcode.ts:51-55 | the plain `b` pass pairs the first `[b]` with the first `[/b]`, keeping the inner `[b]` as content and leaving the last `[/b]` |
| Examples.NestedBoldPairsFirstCloser | src/lib/utils/bbcode.ts:41-59 | `[b]x[b]y[/b]z[/b]` renders as `<strong>x[b]y</strong>` escape-of-`z` `[/b]` |
| Interference.LinkInsideCode | src/lib/utils/bbcode.ts:51-55 | the url pass turns `[url]x[/url]` inside a `code` fragment into a live link |
| Interference.ColorInsideLink | src/lib/utils/bbcode.ts:51-55 | the color pass rewrites the `[color]` tags inside a link's `href`, putting a `"` there |
| Interference.LinkInCodeIsLive | src/lib/utils/bbcode.ts:35-62 | `[code][url]x[/url][/code]` renders as `<code>` around the live link for `x` |
| Interference.ColorInLinkBreaksHref | src/lib/utils/bbcode.ts:35-62 | `[url][color]x[/color][/url]` renders with the color span, and its first `"`, inside the `href` |
| Ranks.TableShape | src/lib/utils/ranks.ts:12-18 | the table has five ranks with strictly increasing thresholds, the first needing no posts |
| Ranks.QualifiedIsPrefix | src/lib/utils/ranks.ts:12-18 | on an ascending table, the ranks a count reaches are exactly a prefix of the table |
| Ranks.RankIndexIsLastQualifying | src/lib/utils/ranks.ts:23-30 | the rank index is the last rank whose threshold the count reaches, and the first rank when the count is negative |
| Ranks.GetRankByPostCount | src/lib/utils/ranks.ts:23-31 | the downward search returns a rank of the table that the count reaches (for a non-negative count), no higher rank is reached, a negative count gets `Newbie`, and the result is the rank at the counted index |
| Ranks.RankIsMonotone | src/lib/utils/ranks.ts:12-29 | more posts never earn a lower rank |
| Ranks.RankBands | src/lib/utils/ranks.ts:13-17 | 0–9 posts (and negative counts) give Newbie, 10–49 Regular, 50–99 Veteran, 100–199 Elite, 200 and more Legend |

## Left out

- Null and undefined posts: the model takes a string. `!text` is modelled as the empty string.
- Post counts that are not integers (fractions, NaN, infinities): `getRankByPostCount` is modelled on `int`.
- Strings are sequences of code points, not UTF-16 code units. No step of the renderer looks at surrogates, so nothing changes.
- Regular expressions in general and Unicode case folding: each pass is modelled by its own scanner, and tag names are compared with ASCII folding.
- Object.entries order: the ten tags are taken in the order of the literal table, which is what `Object.entries` gives for these string keys.
- BBCode.ParseBBCode: states the newline-free result and the empty case. The exact output is given by the definition and by the lemmas about it, not by one closed formula.
- Examples.NestedBoldPairsFirstCloser and the other whole-post examples, including Interference.LinkInCodeIsLive and Interference.ColorInLinkBreaksHref: proved for the shapes they state (texts without `[`, `&` or newlines where required), not for every post.
- Tags.SlotContained and Tags.CodeContentEscaped: hold for the fragment a handler returns, not for the rendered post, since later passes rewrite inside earlier fragments (see `Interference`).
- Findings are not claimed. The double escape of parameters and the live markup in b/i/u/s content are modelled as the code behaves and stated as lemmas; whether they are intended is not decided here.
- The rest of the application (database access, authentication, search, reactions, routes and page templates) is not part of this model.
