/** Whole-post renderings for families of posts: the behaviour the tag
    table promises (and the places where it is weaker than it looks),
    proved for every filler text of the stated shape. */
module Examples {
  import opened Text
  import opened Escaping
  import opened Tags
  import opened Scanner
  import opened Pass
  import opened BBCode
  import opened Literals

  /** No `[` of `e` starts the closer of `name`, whatever follows `e`:
      each one is followed by a character other than `/`, or by `/` and a
      character other than the name's initial up to case. */
  predicate NoCloserOf(e: string, name: string) {
    forall k :: 0 <= k < |e| && e[k] == '[' ==>
      k + 1 < |e| && (e[k + 1] != '/' || (k + 2 < |e| && |name| > 0 && Lower(e[k + 2]) != Lower(name[0])))
  }

  /** Content `e` after a prefix `pre` and before the closer is the
      shortest content when no `[` of `e` starts the closer. */
  lemma {:induction false} ShortestContentOf(pre: string, e: string, name: string, rest: string)
    requires NoCloserOf(e, name)
    ensures ShortestContent(pre + e + Closer(name) + rest, |pre|, Closer(name), e)
  {
    var c := Closer(name);
    var s := pre + e + c + rest;
    var start := |pre|;
    assert PrefixCI(c, s[start + |e|..]) by {
      assert s[start + |e|..] == c + rest;
      PrefixCIAt(c, c + rest);
    }
    forall k | start <= k < start + |e|
      ensures !PrefixCI(c, s[k..])
    {
      var j := k - start;
      assert s[k] == e[j];
      if e[j] == '[' {
        assert j + 1 < |e| && (e[j + 1] != '/' || (j + 2 < |e| && |name| > 0 && Lower(e[j + 2]) != Lower(name[0])));
        assert s[k + 1] == e[j + 1];
        if e[j + 1] == '/' {
          assert s[k + 2] == e[j + 2];
        }
      }
      NotCloserAt(s[k..], name);
    }
    assert s[start..start + |e|] == e;
  }

  /** A text that does not start with `[`, `/` and the name's initial up
      to case does not start with the closer. */
  lemma NotCloserAt(t: string, name: string)
    requires |t| > 0
    requires t[0] != '[' || (|t| > 1 && (t[1] != '/' || (|t| > 2 && |name| > 0 && Lower(t[2]) != Lower(name[0]))))
    ensures !PrefixCI(Closer(name), t)
  {
    var c := Closer(name);
    PrefixCIAt(c, t);
    assert c[0] == '[' && c[1] == '/';
    if |name| > 0 {
      assert c[2] == name[0];
    }
  }

  /** `[name]e[/name]` at the start of a text is matched by the plain
      form, with content `e`, when no `[` of `e` starts the closer. */
  lemma {:induction false} PlainTagMatch(name: string, e: string, rest: string)
    requires NoCloserOf(e, name)
    ensures var s := Opener(name, Plain) + e + Closer(name) + rest;
            MatchAt(s, name, Plain) == Some(Match(None, e, |Opener(name, Plain)| + |e| + |Closer(name)|))
  {
    var o := Opener(name, Plain);
    var c := Closer(name);
    var s := o + e + c + rest;
    var m := Match(None, e, |o| + |e| + |c|);
    assert PrefixCI(o, s) by {
      PrefixCIAt(o, s);
    }
    ShortestContentOf(o, e, name, rest);
    assert IsMatch(s, name, Plain, m);
    MatchAtIsTheMatch(s, name, Plain);
  }

  /** `[name=p]e[/name]` at the start of a text is matched by the param
      form, with parameter `p` and content `e`, when `p` is a non-empty
      run without `]` and no `[` of `e` starts the closer. */
  lemma {:induction false} ParamTagMatch(name: string, p: string, e: string, rest: string)
    requires |p| > 0 && ']' !in p
    requires NoCloserOf(e, name)
    ensures var o := Opener(name, WithParam);
            var s := o + p + "]" + e + Closer(name) + rest;
            MatchAt(s, name, WithParam) == Some(Match(Some(p), e, |o| + |p| + 1 + |e| + |Closer(name)|))
  {
    var o := Opener(name, WithParam);
    var c := Closer(name);
    var pre := o + p + "]";
    var s := o + p + "]" + e + c + rest;
    var m := Match(Some(p), e, |o| + |p| + 1 + |e| + |c|);
    assert PrefixCI(o, s) by {
      PrefixCIAt(o, s);
    }
    assert ParamAt(s, |o|, p) by {
      assert s[|o|..|o| + |p|] == p;
      assert s[|o| + |p|] == ']';
    }
    assert s == pre + e + c + rest;
    ShortestContentOf(pre, e, name, rest);
    assert IsMatch(s, name, WithParam, m);
    MatchAtIsTheMatch(s, name, WithParam);
  }

  /** The plain form at the start of a text replaces `[tag]e[/tag]` by the
      handler's fragment for the un-escaped `e` and carries on after the
      closer. */
  lemma {:induction false} PlainFormThenRest(t: Tag, e: string, rest: string)
    requires NoCloserOf(e, Name(t))
    ensures RunPass(Opener(Name(t), Plain) + e + Closer(Name(t)) + rest, t, Plain)
         == Handle(t, Unescape(e), None) + RunPass(rest, t, Plain)
  {
    var s := Opener(Name(t), Plain) + e + Closer(Name(t)) + rest;
    var m := Match(None, e, |Opener(Name(t), Plain)| + |e| + |Closer(Name(t))|);
    PlainTagMatch(Name(t), e, rest);
    PassStep(s, t, Plain);
    assert s[m.len..] == rest;
  }

  /** A chunk whose `k`-th character rules out the opener, and which holds
      no other `[` than possibly its first character, is copied by the
      pass. */
  lemma {:induction false} PassOverChunk(chunk: string, rest: string, t: Tag, f: Form, k: nat)
    requires |chunk| > 0 && '[' !in chunk[1..]
    requires k < |chunk| && k < |Opener(Name(t), f)|
    requires Lower(chunk[k]) != Lower(Opener(Name(t), f)[k])
    ensures RunPass(chunk + rest, t, f) == chunk + RunPass(rest, t, f)
  {
    var s := chunk + rest;
    assert s[k] == chunk[k];
    NoOpenerNoMatch(s, Name(t), f, k);
    CopyFirst(chunk, rest, t, f);
  }

  /** A chunk at whose start no match begins, and which holds no `[` after
      its first character, is copied by the pass. */
  lemma CopyFirst(chunk: string, rest: string, t: Tag, f: Form)
    requires |chunk| > 0 && '[' !in chunk[1..]
    requires MatchAt(chunk + rest, Name(t), f).None?
    ensures RunPass(chunk + rest, t, f) == chunk + RunPass(rest, t, f)
  {
    PassStep(chunk + rest, t, f);
    ConsSplit(chunk, rest, RunPass(rest, t, f));
    PassKeepsPlainText(chunk[1..], rest, t, f);
  }

  /** A character that differs from the opener's up to case rules out a
      match. */
  lemma NoOpenerNoMatch(s: string, name: string, f: Form, k: nat)
    requires k < |s| && k < |Opener(name, f)|
    requires Lower(s[k]) != Lower(Opener(name, f)[k])
    ensures MatchAt(s, name, f).None?
  {
    PrefixCIAt(Opener(name, f), s);
  }

  /** A literal chunk as in `PassOverChunk` followed by text without `[`
      is copied by the pass. */
  lemma {:induction false} PassOverTagText(lit: string, text: string, rest: string, t: Tag, f: Form, k: nat)
    requires |lit| > 0 && '[' !in lit[1..] && '[' !in text
    requires k < |lit| && k < |Opener(Name(t), f)|
    requires Lower(lit[k]) != Lower(Opener(Name(t), f)[k])
    ensures RunPass(lit + text + rest, t, f) == lit + text + RunPass(rest, t, f)
  {
    PassOverChunk(lit, text + rest, t, f, k);
    PassKeepsPlainText(text, rest, t, f);
    Assoc(lit, text, rest);
    Assoc(lit, text, RunPass(rest, t, f));
  }

  /** A last chunk as in `PassOverChunk` is copied by the pass. */
  lemma {:induction false} PassOverLastChunk(chunk: string, t: Tag, f: Form, k: nat)
    requires |chunk| > 0 && '[' !in chunk[1..]
    requires k < |chunk| && k < |Opener(Name(t), f)|
    requires Lower(chunk[k]) != Lower(Opener(Name(t), f)[k])
    ensures RunPass(chunk, t, f) == chunk
  {
    PassOverChunk(chunk, "", t, f, k);
    assert chunk + "" == chunk;
    assert RunPass("", t, f) == "";
  }

  /** The escape of `open + x + close` when the two literals need no
      escaping. */
  lemma {:induction false} EscapeAround(open: string, x: string, close: string)
    requires forall k :: 0 <= k < |open| ==> !IsSpecial(open[k])
    requires forall k :: 0 <= k < |close| ==> !IsSpecial(close[k])
    ensures EscapeHtml(open + x + close) == open + EscapeHtml(x) + close
  {
    EscapeConcat(open + x, close);
    EscapeConcat(open, x);
    EscapePlain(open);
    EscapePlain(close);
  }

  /** Escaping creates neither `[`, `]`, `=` nor a newline. */
  lemma {:induction false} EscapeAddsNoSyntax(x: string)
    ensures '[' in EscapeHtml(x) <==> '[' in x
    ensures ']' in EscapeHtml(x) <==> ']' in x
    ensures '=' in EscapeHtml(x) <==> '=' in x
    ensures '\n' in EscapeHtml(x) <==> '\n' in x
  {
    EscapeKeepsCount(x, '[');
    EscapeKeepsCount(x, ']');
    EscapeKeepsCount(x, '=');
    EscapeKeepsCount(x, '\n');
  }

  /** Once the passes of the first `done` tags have produced a text
      without `[` and newlines, that text is the rendered post. */
  lemma {:induction false} ParseSettles(raw: string, done: nat, r: string)
    requires |raw| > 0 && done <= |Registry|
    requires Passes(EscapeHtml(raw), Registry[..done]) == r
    requires '[' !in r && '\n' !in r
    ensures ParseBBCode(raw) == r
  {
    PassesCompose(EscapeHtml(raw), Registry[..done], Registry[done..]);
    RegistrySplits(done);
  }

  /** The passes of a single tag. */
  lemma PassesOne(s: string, t: Tag)
    ensures Passes(s, [t]) == RunPass(RunPass(s, t, WithParam), t, Plain)
  {
    assert [t][1..] == [];
  }

  /** The param form of a tag leaves `[tag]e[/tag]` alone: the opener
      needs a `=` where the text has `]`, and the closer starts with
      `[/`. */
  lemma {:induction false} ParamFormIdle(t: Tag, e: string)
    requires '[' !in e
    ensures var o := Opener(Name(t), Plain);
            var c := Closer(Name(t));
            RunPass(o + e + c, t, WithParam) == o + e + c
  {
    var o := Opener(Name(t), Plain);
    var c := Closer(Name(t));
    CloserIdle(t);
    PassKeepsPlainText(e, c, t, WithParam);
    PlainOpenerShape(t);
    PassOverChunk(o, e + c, t, WithParam, |Name(t)| + 1);
    Assoc(o, e, c);
  }

  /** The plain opener holds no `[` after its first character, and has `]`
      where the param opener has `=`. */
  lemma PlainOpenerShape(t: Tag)
    ensures var o := Opener(Name(t), Plain);
            var n := |Name(t)|;
            && n + 1 < |o| && n + 1 < |Opener(Name(t), WithParam)|
            && '[' !in o[1..]
            && Lower(o[n + 1]) != Lower(Opener(Name(t), WithParam)[n + 1])
  {
    var o := Opener(Name(t), Plain);
    var n := |Name(t)|;
    assert o[n + 1] == ']' && Opener(Name(t), WithParam)[n + 1] == '=';
    assert o[1..] == Name(t) + "]";
  }

  /** The param form leaves a closer alone: `/` stands where the opener
      has the first letter of the name. */
  lemma CloserIdle(t: Tag)
    ensures RunPass(Closer(Name(t)), t, WithParam) == Closer(Name(t))
  {
    var c := Closer(Name(t));
    assert c[1] == '/';
    assert Opener(Name(t), WithParam)[1] == Name(t)[0];
    PassOverChunk(c, "", t, WithParam, 1);
    assert c + "" == c;
    assert RunPass("", t, WithParam) == "";
  }

  /** The plain form replaces `[tag]e[/tag]` by the handler's fragment for
      the un-escaped content. */
  lemma {:induction false} PlainFormReplaces(t: Tag, x: string)
    requires '[' !in x && '&' !in x
    ensures var e := EscapeHtml(x);
            RunPass(Opener(Name(t), Plain) + e + Closer(Name(t)), t, Plain) == Handle(t, x, None)
  {
    var e := EscapeHtml(x);
    var s := Opener(Name(t), Plain) + e + Closer(Name(t));
    EscapeAddsNoSyntax(x);
    PlainTagMatch(Name(t), e, "");
    assert s == s + "";
    var m := Match(None, e, |s|);
    PassStep(s, t, Plain);
    assert s[m.len..] == "";
    assert RunPass("", t, Plain) == "";
    UnescapeEscape(x);
  }

  /** The param form replaces `[tag=p]e[/tag]` by the handler's fragment
      for the un-escaped content; the parameter is handed over as it
      stands in the escaped text. */
  lemma {:induction false} ParamFormReplaces(t: Tag, v: string, x: string)
    requires |v| > 0 && ']' !in v && '[' !in x && '&' !in x
    ensures var o := Opener(Name(t), WithParam);
            var p := EscapeHtml(v);
            RunPass(o + p + "]" + EscapeHtml(x) + Closer(Name(t)), t, WithParam) == Handle(t, x, Some(p))
  {
    var o := Opener(Name(t), WithParam);
    var p := EscapeHtml(v);
    var e := EscapeHtml(x);
    var s := o + p + "]" + e + Closer(Name(t));
    var m := Match(Some(p), e, |s|);
    assert MatchAt(s, Name(t), WithParam) == Some(m) by {
      EscapeAddsNoSyntax(x);
      EscapeAddsNoSyntax(v);
      ParamTagMatch(Name(t), p, e, "");
      assert s == s + "";
    }
    assert RunPass(s, t, WithParam) == Fragment(t, m) by {
      PassStep(s, t, WithParam);
      assert s[m.len..] == "";
      assert RunPass("", t, WithParam) == "";
    }
    UnescapeEscape(x);
  }

  /** A link target given as a parameter is escaped twice: once with the
      whole post and once more by the `url` handler, which receives it
      without the un-escaping its content gets. */
  lemma {:induction false} LinkTargetEscapedTwice(v: string, x: string)
    requires |v| > 0 && ']' !in v && '[' !in x && '&' !in x
    ensures RunPass("[url=" + EscapeHtml(v) + "]" + EscapeHtml(x) + "[/url]", Url, WithParam)
         == "<a href=\"" + EscapeHtml(EscapeHtml(v)) + "\" target=\"_blank\" rel=\"noopener noreferrer\">" + x + "</a>"
  {
    assert Opener(Name(Url), WithParam) == "[url=" && Closer(Name(Url)) == "[/url]";
    ParamFormReplaces(Url, v, x);
    assert |EscapeHtml(v)| > 0;
  }

  /** For instance a target with one ampersand, such as `a&b`, which the
      post carries as `a&amp;b`, ends up in the `href` as `a&amp;amp;b`,
      which a browser reads back as `a&amp;b` rather than `a&b`. */
  lemma {:induction false} AmpersandInLinkTarget(a: string, b: string, x: string)
    requires forall k :: 0 <= k < |a| ==> !IsSpecial(a[k]) && a[k] != ']'
    requires forall k :: 0 <= k < |b| ==> !IsSpecial(b[k]) && b[k] != ']'
    requires '[' !in x && '&' !in x
    ensures RunPass("[url=" + a + "&amp;" + b + "]" + EscapeHtml(x) + "[/url]", Url, WithParam)
         == "<a href=\"" + a + "&amp;amp;" + b + "\" target=\"_blank\" rel=\"noopener noreferrer\">" + x + "</a>"
  {
    var v := a + "&" + b;
    EscapeAmpersand(a, b);
    assert ']' !in v;
    LinkTargetEscapedTwice(v, x);
    Assoc("[url=", a, "&amp;");
    Assoc("[url=", a + "&amp;", b);
    Assoc("<a href=\"", a, "&amp;amp;");
    Assoc("<a href=\"", a + "&amp;amp;", b);
  }

  /** Escaping a text with one ampersand, once and twice. */
  lemma {:induction false} EscapeAmpersand(a: string, b: string)
    requires forall k :: 0 <= k < |a| ==> !IsSpecial(a[k])
    requires forall k :: 0 <= k < |b| ==> !IsSpecial(b[k])
    ensures EscapeHtml(a + "&" + b) == a + "&amp;" + b
    ensures EscapeHtml(a + "&amp;" + b) == a + "&amp;amp;" + b
  {
    EscapeAround(a, "&", b);
    EscapeAround(a, "&amp;", b);
    AmpersandEscapes();
  }

  /** Both passes of a tag on a post that is just `[tag]x[/tag]`: the
      handler's fragment for `x` without a parameter. */
  lemma {:induction false} SimpleTag(t: Tag, x: string)
    requires '[' !in x && '&' !in x
    ensures Passes(Opener(Name(t), Plain) + EscapeHtml(x) + Closer(Name(t)), [t]) == Handle(t, x, None)
  {
    var o := Opener(Name(t), Plain);
    var c := Closer(Name(t));
    var e := EscapeHtml(x);
    EscapeAddsNoSyntax(x);
    PassesOne(o + e + c, t);
    ParamFormIdle(t, e);
    PlainFormReplaces(t, x);
  }

  /** Bold content is inserted as it was typed: it is un-escaped and not
      escaped again. For `x = "<script>"` this gives a live script
      element, so rendered posts are not free of author markup. */
  lemma {:induction false} BoldContentIsRaw(x: string)
    requires '[' !in x && '&' !in x && '\n' !in x
    ensures ParseBBCode("[b]" + x + "[/b]") == "<strong>" + x + "</strong>"
  {
    var raw := "[b]" + x + "[/b]";
    var r := "<strong>" + x + "</strong>";
    assert '[' !in r && '\n' !in r;
    assert Passes(EscapeHtml(raw), Registry[..1]) == r by {
      assert Registry[..1] == [B];
      EscapeAround("[b]", x, "[/b]");
      BoldCodeSpelling();
      SimpleTag(B, x);
    }
    ParseSettles(raw, 1, r);
  }

  /** `[b]<script>[/b]` renders as `<strong><script></strong>`. */
  lemma ScriptInBold()
    ensures ParseBBCode("[b]" + "<script>" + "[/b]") == "<strong>" + "<script>" + "</strong>"
  {
    BoldContentIsRaw("<script>");
  }

  /** A chunk that starts with `[` followed by a character that is not the
      tag's initial, with no other `[`, keeps a text clear of the tag. */
  lemma {:induction false} ClearChunk(chunk: string, rest: string, t: Tag)
    requires |chunk| >= 2 && chunk[0] == '[' && '[' !in chunk[1..]
    requires Lower(chunk[1]) != Name(t)[0]
    requires Clear(rest, t)
    ensures Clear(chunk + rest, t)
  {
    assert (chunk + rest)[1..] == chunk[1..] + rest;
    ClearAfterText(chunk[1..], rest, t);
  }

  /** Text between two such chunks keeps the whole clear of the tag. */
  lemma {:induction false} ClearAround(open: string, e: string, close: string, t: Tag)
    requires |open| >= 2 && open[0] == '[' && '[' !in open[1..] && Lower(open[1]) != Name(t)[0]
    requires |close| >= 2 && close[0] == '[' && '[' !in close[1..] && Lower(close[1]) != Name(t)[0]
    requires '[' !in e
    ensures Clear(open + e + close, t)
  {
    assert Clear(close, t) by {
      ClearChunk(close, "", t);
      assert close + "" == close;
    }
    ClearAfterText(e, close, t);
    ClearChunk(open, e + close, t);
    assert open + (e + close) == open + e + close;
  }

  /** `[code]x[/code]` renders as the code element of the escaped `x`:
      `code` escapes its un-escaped content again. */
  lemma {:induction false} CodeContentIsEscaped(x: string)
    requires '[' !in x && '&' !in x && '\n' !in x
    ensures ParseBBCode("[code]" + x + "[/code]") == "<code>" + EscapeHtml(x) + "</code>"
  {
    var raw := "[code]" + x + "[/code]";
    var e := EscapeHtml(x);
    var r := "<code>" + e + "</code>";
    EscapeAddsNoSyntax(x);
    assert '[' !in r && '\n' !in r;
    assert Passes(EscapeHtml(raw), Registry[..5]) == r by {
      CodeFirstPasses(x);
    }
    ParseSettles(raw, 5, r);
  }

  lemma {:induction false} CodeFirstPasses(x: string)
    requires '[' !in x && '&' !in x
    ensures Passes(EscapeHtml("[code]" + x + "[/code]"), Registry[..5]) == "<code>" + EscapeHtml(x) + "</code>"
  {
    var e := EscapeHtml(x);
    var s := "[code]" + e + "[/code]";
    assert EscapeHtml("[code]" + x + "[/code]") == s by {
      EscapeAround("[code]", x, "[/code]");
    }
    EscapeAddsNoSyntax(x);
    assert Passes(s, Registry[..4]) == s by {
      CodeSkipsSimpleTags(e);
    }
    assert Passes(s, [Code]) == "<code>" + e + "</code>" by {
      BoldCodeSpelling();
      SimpleTag(Code, x);
    }
    PassesCompose(s, Registry[..4], [Code]);
    CodeIsFifth();
  }

  /** The passes of b, i, u and s leave `[code]e[/code]` alone. */
  lemma {:induction false} CodeSkipsSimpleTags(e: string)
    requires '[' !in e
    ensures Passes("[code]" + e + "[/code]", Registry[..4]) == "[code]" + e + "[/code]"
  {
    var s := "[code]" + e + "[/code]";
    forall t | t in Registry[..4]
      ensures Clear(s, t)
    {
      Initials(t);
      ClearAround("[code]", e, "[/code]", t);
    }
    PassesClear(s, Registry[..4]);
  }

  /** No tag starts with `f`, so `[foo]x[/foo]` is clear of every tag. */
  lemma {:induction false} FooIsClear(x: string)
    requires '[' !in x
    ensures forall t: Tag :: Clear("[foo]" + x + "[/foo]", t)
  {
    forall t: Tag
      ensures Clear("[foo]" + x + "[/foo]", t)
    {
      Initials(t);
      ClearAround("[foo]", x, "[/foo]", t);
    }
  }

  /** Brackets around an unknown name are text: `[foo]x[/foo]` renders as
      its own escape. */
  lemma {:induction false} UnknownTagPassesThrough(x: string)
    requires '[' !in x && '\n' !in x
    ensures ParseBBCode("[foo]" + x + "[/foo]") == "[foo]" + EscapeHtml(x) + "[/foo]"
  {
    var raw := "[foo]" + x + "[/foo]";
    assert ParseBBCode(raw) == Lines(EscapeHtml(raw)) by {
      FooIsClear(x);
      forall t: Tag
        ensures NoOpener(raw, t)
      {
        ClearHasNoOpener(raw, t);
      }
      UnknownTagsAreText(raw);
    }
    FooEscape(x);
  }

  lemma {:induction false} FooEscape(x: string)
    requires '\n' !in x
    ensures var e := EscapeHtml("[foo]" + x + "[/foo]");
            e == "[foo]" + EscapeHtml(x) + "[/foo]" && '\n' !in e
  {
    FooLiterals();
    EscapeAround("[foo]", x, "[/foo]");
    EscapeAddsNoSyntax(x);
  }

  /** A literal without special characters in front of a text is kept by
      escaping. */
  lemma {:induction false} EscapeLead(lit: string, x: string)
    requires forall k :: 0 <= k < |lit| ==> !IsSpecial(lit[k])
    ensures EscapeHtml(lit + x) == lit + EscapeHtml(x)
  {
    EscapeConcat(lit, x);
    EscapePlain(lit);
  }

  /** The escape of a post with a `b` tag nested in another. */
  lemma {:induction false} EscapeNested(x: string, y: string, z: string)
    ensures EscapeHtml("[b]" + x + "[b]" + y + "[/b]" + z + "[/b]")
         == "[b]" + EscapeHtml(x) + "[b]" + EscapeHtml(y) + "[/b]" + EscapeHtml(z) + "[/b]"
  {
    Regroup7("[b]", x, "[b]", y, "[/b]", z, "[/b]");
    Regroup7("[b]", EscapeHtml(x), "[b]", EscapeHtml(y), "[/b]", EscapeHtml(z), "[/b]");
    EscapePlain("[/b]");
    EscapeConcat(z, "[/b]");
    EscapeLead("[/b]", z + "[/b]");
    EscapeConcat(y, "[/b]" + (z + "[/b]"));
    EscapeLead("[b]", y + ("[/b]" + (z + "[/b]")));
    EscapeConcat(x, "[b]" + (y + ("[/b]" + (z + "[/b]"))));
    EscapeLead("[b]", x + ("[b]" + (y + ("[/b]" + (z + "[/b]")))));
  }

  /** The param form of `b` leaves the nested post alone. */
  lemma {:induction false} NestedParamFormIdle(ex: string, ey: string, ez: string)
    requires '[' !in ex && '[' !in ey && '[' !in ez
    ensures var s := "[b]" + ex + "[b]" + ey + "[/b]" + ez + "[/b]";
            RunPass(s, B, WithParam) == s
  {
    Regroup7("[b]", ex, "[b]", ey, "[/b]", ez, "[/b]");
    PassOverLastChunk("[/b]", B, WithParam, 1);
    PassOverTagText("[/b]", ez, "[/b]", B, WithParam, 1);
    PassOverTagText("[b]", ey, "[/b]" + ez + "[/b]", B, WithParam, 2);
    PassOverTagText("[b]", ex, "[b]" + ey + ("[/b]" + ez + "[/b]"), B, WithParam, 2);
  }

  /** The plain form of `b` pairs the first `[b]` with the first `[/b]`:
      the inner `[b]` becomes part of the content, the last `[/b]` stays. */
  lemma {:induction false} NestedPlainForm(x: string, y: string, z: string)
    requires '[' !in x && '[' !in y && '[' !in z && '&' !in x && '&' !in y
    ensures var s := "[b]" + EscapeHtml(x) + "[b]" + EscapeHtml(y) + "[/b]" + EscapeHtml(z) + "[/b]";
            RunPass(s, B, Plain) == "<strong>" + x + "[b]" + y + "</strong>" + EscapeHtml(z) + "[/b]"
  {
    var ex, ey, ez := EscapeHtml(x), EscapeHtml(y), EscapeHtml(z);
    GroupMiddle7("[b]", ex, "[b]", ey, "[/b]", ez, "[/b]");
    GroupMiddle7("<strong>", x, "[b]", y, "</strong>", ez, "[/b]");
    assert RunPass("[b]" + (ex + "[b]" + ey) + "[/b]" + (ez + "[/b]"), B, Plain)
        == Handle(B, Unescape(ex + "[b]" + ey), None) + (ez + "[/b]") by {
      EscapeAddsNoSyntax(x);
      EscapeAddsNoSyntax(y);
      EscapeAddsNoSyntax(z);
      NestedPlainPass(ex, ey, ez);
    }
    assert Unescape(ex + "[b]" + ey) == x + "[b]" + y by {
      NestedContentEscape(x, y);
      UnescapeEscape(x + "[b]" + y);
    }
  }

  /** The plain pass of `b` over escaped text shaped like a nested pair. */
  lemma {:induction false} NestedPlainPass(ex: string, ey: string, ez: string)
    requires '[' !in ex && '[' !in ey && '[' !in ez
    ensures RunPass("[b]" + (ex + "[b]" + ey) + "[/b]" + (ez + "[/b]"), B, Plain)
         == Handle(B, Unescape(ex + "[b]" + ey), None) + (ez + "[/b]")
  {
    var content := ex + "[b]" + ey;
    var rest := ez + "[/b]";
    NestedContent(ex, ey);
    BoldCodeSpelling();
    PlainFormThenRest(B, content, rest);
    PassOverLastChunk("[/b]", B, Plain, 1);
    PassKeepsPlainText(ez, "[/b]", B, Plain);
  }

  lemma {:induction false} NestedContent(ex: string, ey: string)
    requires '[' !in ex && '[' !in ey
    ensures NoCloserOf(ex + "[b]" + ey, "b")
  {
    var content := ex + "[b]" + ey;
    forall k | 0 <= k < |content| && content[k] == '['
      ensures k + 1 < |content| && content[k + 1] != '/'
    {
    }
  }

  lemma {:induction false} NestedContentEscape(x: string, y: string)
    ensures EscapeHtml(x + "[b]" + y) == EscapeHtml(x) + "[b]" + EscapeHtml(y)
  {
    EscapeConcat(x + "[b]", y);
    EscapeConcat(x, "[b]");
    EscapePlain("[b]");
  }

  /** A `b` tag nested in another: the plain pattern is non-greedy, so the
      outer `[b]` pairs with the first `[/b]`; the inner `[b]` is shown as
      text inside the element and the second `[/b]` is left over. */
  lemma {:induction false} NestedBoldPairsFirstCloser(x: string, y: string, z: string)
    requires '[' !in x && '[' !in y && '[' !in z && '&' !in x && '&' !in y
    requires '\n' !in x && '\n' !in y && '\n' !in z
    ensures ParseBBCode("[b]" + x + "[b]" + y + "[/b]" + z + "[/b]")
         == "<strong>" + x + "[b]" + y + "</strong>" + EscapeHtml(z) + "[/b]"
  {
    var raw := "[b]" + x + "[b]" + y + "[/b]" + z + "[/b]";
    var r := "<strong>" + x + "[b]" + y + "</strong>" + EscapeHtml(z) + "[/b]";
    NestedBoldPasses(x, y, z);
    EscapeAddsNoSyntax(z);
    NestedNoNewline(x, y, EscapeHtml(z));
    ParseAfterPasses(raw, r);
  }

  /** All passes over the escaped nested post. */
  lemma {:induction false} NestedBoldPasses(x: string, y: string, z: string)
    requires '[' !in x && '[' !in y && '[' !in z && '&' !in x && '&' !in y
    ensures Passes(EscapeHtml("[b]" + x + "[b]" + y + "[/b]" + z + "[/b]"), Registry)
         == "<strong>" + x + "[b]" + y + "</strong>" + EscapeHtml(z) + "[/b]"
  {
    var raw := "[b]" + x + "[b]" + y + "[/b]" + z + "[/b]";
    var ez := EscapeHtml(z);
    var r := "<strong>" + x + "[b]" + y + "</strong>" + ez + "[/b]";
    NestedBoldFirst(x, y, z);
    assert Passes(r, Registry[1..]) == r by {
      EscapeAddsNoSyntax(z);
      NestedRestIsClear(x, y, ez);
    }
    BoldThenRest(EscapeHtml(raw), r);
  }

  /** The passes of `b` over the escaped nested post. */
  lemma {:induction false} NestedBoldFirst(x: string, y: string, z: string)
    requires '[' !in x && '[' !in y && '[' !in z && '&' !in x && '&' !in y
    ensures Passes(EscapeHtml("[b]" + x + "[b]" + y + "[/b]" + z + "[/b]"), [B])
         == "<strong>" + x + "[b]" + y + "</strong>" + EscapeHtml(z) + "[/b]"
  {
    var ex, ey, ez := EscapeHtml(x), EscapeHtml(y), EscapeHtml(z);
    EscapeNested(x, y, z);
    EscapeAddsNoSyntax(x);
    EscapeAddsNoSyntax(y);
    EscapeAddsNoSyntax(z);
    PassesOne("[b]" + ex + "[b]" + ey + "[/b]" + ez + "[/b]", B);
    NestedParamFormIdle(ex, ey, ez);
    NestedPlainForm(x, y, z);
  }

  /** The passes of `b`, then those of the other tags. */
  lemma {:induction false} BoldThenRest(s: string, r: string)
    requires Passes(s, [B]) == r && Passes(r, Registry[1..]) == r
    ensures Passes(s, Registry) == r
  {
    PassesCompose(s, [B], Registry[1..]);
    assert [B] + Registry[1..] == Registry;
  }

  /** A post whose passes end without newlines renders as their result. */
  lemma {:induction false} ParseAfterPasses(raw: string, r: string)
    requires |raw| > 0
    requires Passes(EscapeHtml(raw), Registry) == r && '\n' !in r
    ensures ParseBBCode(raw) == r
  {
  }

  /** The tags after `b` leave the rendered nested post alone. */
  lemma {:induction false} NestedRestIsClear(x: string, y: string, ez: string)
    requires '[' !in x && '[' !in y && '[' !in ez
    ensures var r := "<strong>" + x + "[b]" + y + "</strong>" + ez + "[/b]";
            Passes(r, Registry[1..]) == r
  {
    var r := "<strong>" + x + "[b]" + y + "</strong>" + ez + "[/b]";
    var w := y + "</strong>" + ez;
    NestedTail(y, ez);
    Regroup7("<strong>", x, "[b]", y, "</strong>", ez, "[/b]");
    forall t | t in Registry[1..]
      ensures Clear(r, t)
    {
      Initials(t);
      ClearAround("[b]", w, "[/b]", t);
      ClearAfterText("<strong>" + x, "[b]" + w + "[/b]", t);
    }
    PassesClear(r, Registry[1..]);
  }
}
