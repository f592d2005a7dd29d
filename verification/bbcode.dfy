/** `parseBBCode`: escape the whole post, run both passes of every tag in
    registry order, then turn newlines into `<br>`. */
module BBCode {
  import opened Text
  import opened Escaping
  import opened Tags
  import opened Scanner
  import opened Pass

  /** Both passes of each tag of `tags`, in order, the param form first.
      Every pattern starts with `[`, so a text without one goes through all
      passes unchanged. */
  function Passes(s: string, tags: seq<Tag>): (r: string)
    ensures '[' !in s ==> r == s
    decreases |tags|
  {
    if |tags| == 0 then s
    else Passes(RunPass(RunPass(s, tags[0], WithParam), tags[0], Plain), tags[1..])
  }

  /** The newline pass: every newline becomes `<br>`, which lengthens the
      text by three characters per newline; a text without newlines is
      unchanged. */
  function Lines(s: string): (r: string)
    ensures '\n' !in r
    ensures |r| == |s| + 3 * Count(s, '\n')
    ensures '\n' !in s ==> r == s
  {
    ReplaceCharRemoves(s, '\n', "<br>");
    ReplaceCharLength(s, '\n', "<br>");
    ReplaceAll(s, "\n", "<br>")
  }

  /** `parseBBCode`. An empty post renders as the empty text, and no
      rendered post contains a newline. */
  function ParseBBCode(raw: string): (r: string)
    ensures |raw| == 0 ==> r == ""
    ensures '\n' !in r
  {
    if |raw| == 0 then "" else Lines(Passes(EscapeHtml(raw), Registry))
  }

  /** Running the passes of two tag lists one after the other is running
      the passes of the joined list. */
  lemma {:induction false} PassesCompose(s: string, first: seq<Tag>, second: seq<Tag>)
    ensures Passes(Passes(s, first), second) == Passes(s, first + second)
    decreases |first|
  {
    if |first| > 0 {
      var t := first[0];
      assert (first + second)[1..] == first[1..] + second;
      PassesCompose(RunPass(RunPass(s, t, WithParam), t, Plain), first[1..], second);
    } else {
      assert first + second == second;
    }
  }

  /** A text clear of every tag of the list goes through all passes
      unchanged. */
  lemma {:induction false} PassesClear(s: string, tags: seq<Tag>)
    requires forall t :: t in tags ==> Clear(s, t)
    ensures Passes(s, tags) == s
    decreases |tags|
  {
    if |tags| > 0 {
      PassClear(s, tags[0], WithParam);
      PassClear(s, tags[0], Plain);
      PassesClear(s, tags[1..]);
    }
  }

  /** Every tag pattern starts with a literal `[`: a post without `[`
      renders as its escape with newlines turned into `<br>`. */
  lemma NoBracketIsEscaped(raw: string)
    requires '[' !in raw
    ensures ParseBBCode(raw) == Lines(EscapeHtml(raw))
  {
    EscapeKeepsCount(raw, '[');
  }

  /** A text without an opener of any tag of the list goes through all
      passes unchanged. */
  lemma {:induction false} PassesNoOpener(s: string, tags: seq<Tag>)
    requires forall t :: t in tags ==> NoOpener(s, t)
    ensures Passes(s, tags) == s
    decreases |tags|
  {
    if |tags| > 0 {
      PassNoOpener(s, tags[0], WithParam);
      PassNoOpener(s, tags[0], Plain);
      PassesNoOpener(s, tags[1..]);
    }
  }

  /** Brackets that do not open a known tag are plain text: when no opener
      of a known tag (`[b]`, `[color=`, ... in any case) occurs in the
      post, so that unknown tags such as `[foo]` or `[center]` and stray
      brackets are all it holds, the post renders as its escape with
      newlines turned into `<br>`. */
  lemma UnknownTagsAreText(raw: string)
    requires forall t: Tag :: NoOpener(raw, t)
    ensures ParseBBCode(raw) == Lines(EscapeHtml(raw))
  {
    forall t: Tag
      ensures NoOpener(EscapeHtml(raw), t)
    {
      EscapeKeepsNoOpener(raw, t);
    }
    PassesNoOpener(EscapeHtml(raw), Registry);
  }
}
