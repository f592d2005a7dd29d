/** One tag pass as a whole: each match found by the scan is replaced by
    the fragment the tag's handler builds from the un-escaped content and
    the raw parameter; everything the scan kept is copied. */
module Pass {
  import opened Text
  import opened Escaping
  import opened Tags
  import opened Scanner

  /** What replaces a match: the handler called on the un-escaped content
      and, in the param form, on the parameter exactly as captured. */
  function Fragment(t: Tag, m: Match): (r: string)
    ensures |r| > 0 && r[0] == '<'
  {
    Handle(t, Unescape(m.content), m.param)
  }

  /** What a piece contributes to the output of a pass. */
  function Out(p: Piece, t: Tag): string {
    match p
    case Kept(c) => [c]
    case Replaced(m, _) => Fragment(t, m)
  }

  /** The output of a scan: kept characters and fragments, in order. */
  function Render(ps: seq<Piece>, t: Tag): string {
    if |ps| == 0 then "" else Out(ps[0], t) + Render(ps[1..], t)
  }

  /** Every pattern starts with a literal `[`: without one the scan keeps
      each character and rendering it gives the text back. */
  lemma {:induction false} RenderKeptText(s: string, t: Tag, f: Form)
    ensures '[' !in s ==> Render(Scan(s, Name(t), f), t) == s
    decreases |s|
  {
    if '[' !in s && |s| > 0 {
      if MatchAt(s, Name(t), f).Some? {
        MatchNeedsOpener(s, Name(t), f);
      }
      var ps := Scan(s, Name(t), f);
      assert ps[0] == Kept(s[0]);
      assert ps[1..] == Scan(s[1..], Name(t), f);
      RenderKeptText(s[1..], t, f);
      assert s == [s[0]] + s[1..];
    }
  }

  /** `text.replace(pattern, handler)` for one tag and one form. A text
      without `[` is left unchanged. */
  function RunPass(s: string, t: Tag, f: Form): (r: string)
    ensures '[' !in s ==> r == s
  {
    RenderKeptText(s, t, f);
    Render(Scan(s, Name(t), f), t)
  }

  /** One step of a pass: the first character is kept when no match starts
      there; otherwise the match is replaced and the pass resumes after it. */
  lemma PassStep(s: string, t: Tag, f: Form)
    requires |s| > 0
    ensures MatchAt(s, Name(t), f).None? ==> RunPass(s, t, f) == [s[0]] + RunPass(s[1..], t, f)
    ensures MatchAt(s, Name(t), f).Some? ==>
              var m := MatchAt(s, Name(t), f).value;
              RunPass(s, t, f) == Fragment(t, m) + RunPass(s[m.len..], t, f)
  {
    var ps := Scan(s, Name(t), f);
    match MatchAt(s, Name(t), f)
    case Some(m) =>
      assert ps[1..] == Scan(s[m.len..], Name(t), f);
    case None =>
      assert ps[1..] == Scan(s[1..], Name(t), f);
  }

  /** Text without `[` in front of the first match is copied unchanged, and
      the rest of the pass is unaffected by it. */
  lemma {:induction false} PassKeepsPlainText(x: string, y: string, t: Tag, f: Form)
    requires '[' !in x
    ensures RunPass(x + y, t, f) == x + RunPass(y, t, f)
    decreases |x|
  {
    if |x| > 0 {
      var s := x + y;
      if MatchAt(s, Name(t), f).Some? {
        MatchNeedsOpener(s, Name(t), f);
      }
      PassStep(s, t, f);
      ConsSplit(x, y, RunPass(y, t, f));
      PassKeepsPlainText(x[1..], y, t, f);
    } else {
      assert x + y == y;
    }
  }

  /** The param form needs a `=` right after the tag name, so a text
      without `=` is left unchanged by it. */
  lemma {:induction false} PassWithoutEquals(s: string, t: Tag)
    requires '=' !in s
    ensures RunPass(s, t, WithParam) == s
    decreases |s|
  {
    if |s| > 0 {
      if MatchAt(s, Name(t), WithParam).Some? {
        MatchNeedsOpener(s, Name(t), WithParam);
      }
      PassStep(s, t, WithParam);
      PassWithoutEquals(s[1..], t);
      assert s == [s[0]] + s[1..];
    }
  }

  /** No `[` of `s` is followed by the first letter of the tag's name (in
      either case): neither pattern of the tag can match anywhere. */
  predicate Clear(s: string, t: Tag)
    decreases |s|
  {
    |s| <= 1 || ((s[0] != '[' || Lower(s[1]) != Name(t)[0]) && Clear(s[1..], t))
  }

  /** A text clear of a tag is left unchanged by both of its passes. */
  lemma {:induction false} PassClear(s: string, t: Tag, f: Form)
    requires Clear(s, t)
    ensures RunPass(s, t, f) == s
    decreases |s|
  {
    if |s| > 0 {
      if MatchAt(s, Name(t), f).Some? {
        MatchNeedsOpener(s, Name(t), f);
      }
      PassStep(s, t, f);
      PassClear(s[1..], t, f);
      assert s == [s[0]] + s[1..];
    }
  }

  /** Prefixing text without `[` keeps a text clear. */
  lemma {:induction false} ClearAfterText(x: string, y: string, t: Tag)
    requires '[' !in x && Clear(y, t)
    ensures Clear(x + y, t)
    decreases |x|
  {
    if |x| > 0 {
      assert (x + y)[1..] == x[1..] + y;
      ClearAfterText(x[1..], y, t);
    } else {
      assert x + y == y;
    }
  }

  /** Escaping keeps a text clear: it never creates a `[`, and it can only
      put an `&` after one. */
  lemma {:induction false} ClearEscape(s: string, t: Tag)
    requires Clear(s, t)
    ensures Clear(EscapeHtml(s), t)
    decreases |s|
  {
    if |s| > 0 {
      var rest := EscapeHtml(s[1..]);
      ClearEscape(s[1..], t);
      if IsSpecial(s[0]) {
        assert '[' !in EscapeChar(s[0]);
        ClearAfterText(EscapeChar(s[0]), rest, t);
      } else {
        assert EscapeChar(s[0]) == [s[0]];
        if |s| > 1 {
          EscapeHead(s[1..]);
        }
        assert ([s[0]] + rest)[1..] == rest;
      }
    }
  }

  /** No opener of the tag, in either form and up to ASCII case, occurs
      anywhere in `s`: neither pattern of the tag can match in it. */
  predicate NoOpener(s: string, t: Tag) {
    forall f: Form, k :: 0 <= k <= |s| ==> !PrefixCI(Opener(Name(t), f), s[k..])
  }

  /** A text without an opener of the tag is left unchanged by both of its
      passes. */
  lemma {:induction false} PassNoOpener(s: string, t: Tag, f: Form)
    requires NoOpener(s, t)
    ensures RunPass(s, t, f) == s
    decreases |s|
  {
    if |s| > 0 {
      assert s[0..] == s;
      assert MatchAt(s, Name(t), f).None?;
      PassStep(s, t, f);
      forall g: Form, k | 0 <= k <= |s[1..]|
        ensures !PrefixCI(Opener(Name(t), g), s[1..][k..])
      {
        assert s[1..][k..] == s[k + 1..];
      }
      PassNoOpener(s[1..], t, f);
      assert s == [s[0]] + s[1..];
    }
  }

  /** No opener holds an `&`: the tag names are lower-case letters. */
  lemma OpenerHasNoAmpersand(t: Tag, f: Form)
    ensures forall i :: 0 <= i < |Opener(Name(t), f)| ==> Lower(Opener(Name(t), f)[i]) != '&'
  {
  }

  /** Escaping only adds entities, which start with `&`: a pattern without
      `&` that is a prefix of the escaped text was a prefix of the text. */
  lemma {:induction false} PrefixOfEscape(p: string, x: string)
    requires forall i :: 0 <= i < |p| ==> Lower(p[i]) != '&'
    ensures PrefixCI(p, EscapeHtml(x)) ==> PrefixCI(p, x)
    decreases |p|
  {
    if |p| > 0 && PrefixCI(p, EscapeHtml(x)) {
      assert Lower(p[0]) == Lower(EscapeHtml(x)[0]);
      assert !IsSpecial(x[0]);
      assert EscapeHtml(x) == [x[0]] + EscapeHtml(x[1..]);
      PrefixOfEscape(p[1..], x[1..]);
    }
  }

  /** Escaping creates no opener: it never adds a `[`, and what it puts
      right after text is an `&`, which no opener holds. */
  lemma {:induction false} EscapeKeepsNoOpener(s: string, t: Tag)
    requires NoOpener(s, t)
    ensures NoOpener(EscapeHtml(s), t)
    decreases |s|
  {
    if |s| > 0 {
      var e := EscapeChar(s[0]);
      var rest := EscapeHtml(s[1..]);
      forall g: Form, k | 0 <= k <= |s[1..]|
        ensures !PrefixCI(Opener(Name(t), g), s[1..][k..])
      {
        assert s[1..][k..] == s[k + 1..];
      }
      EscapeKeepsNoOpener(s[1..], t);
      forall f: Form, k | 0 <= k <= |e + rest|
        ensures !PrefixCI(Opener(Name(t), f), (e + rest)[k..])
      {
        var o := Opener(Name(t), f);
        if k == 0 {
          OpenerHasNoAmpersand(t, f);
          PrefixOfEscape(o, s);
          assert s[0..] == s;
        } else if k < |e| {
          assert (e + rest)[k..][0] == e[k] != '[';
          assert o[0] == '[';
        } else {
          assert (e + rest)[k..] == rest[k - |e|..];
        }
      }
    }
  }

  /** A text clear of a tag holds no opener of it. */
  lemma {:induction false} ClearHasNoOpener(s: string, t: Tag)
    requires Clear(s, t)
    ensures NoOpener(s, t)
    decreases |s|
  {
    if |s| > 0 {
      ClearHasNoOpener(s[1..], t);
      forall f: Form, k | 0 <= k <= |s|
        ensures !PrefixCI(Opener(Name(t), f), s[k..])
      {
        var o := Opener(Name(t), f);
        if k == 0 {
          PrefixCIAt(o, s);
        } else {
          assert s[k..] == s[1..][k - 1..];
        }
      }
    }
  }
}
