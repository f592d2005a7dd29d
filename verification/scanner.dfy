/** One tag pass: the effect of `String.prototype.replace` with the global,
    case-insensitive pattern of one tag in one form. A pass is the
    leftmost, non-overlapping sequence of matches (`Scan`) with each match
    replaced by its handler's fragment (`Pass`). */
module Scanner {
  import opened Text
  import opened Escaping
  import opened Tags

  /** The two patterns built for every tag: `[tag=param]content[/tag]` and
      `[tag]content[/tag]`. */
  datatype Form = WithParam | Plain

  /** Literal text that starts a match (compared up to ASCII case). */
  function Opener(name: string, f: Form): string {
    "[" + name + (if f == WithParam then "=" else "]")
  }

  /** Literal text that ends a match (compared up to ASCII case). */
  function Closer(name: string): string {
    "[/" + name + "]"
  }

  /** One match at the start of a text: the captured parameter (param form
      only), the captured content, and the length of the matched span. */
  datatype Match = Match(param: Option<string>, content: string, len: nat)

  /** Where the content of a match starts: after the opener and, in the
      param form, after the parameter and its `]`. */
  function ContentStart(name: string, f: Form, param: Option<string>): nat {
    |Opener(name, f)| + (if param.Some? then |param.value| + 1 else 0)
  }

  /** `p` is a non-empty run of characters other than `]` at offset `o` of
      `s`, and a `]` follows it: what `([^\]]+)\]` captures. */
  ghost predicate ParamAt(s: string, o: nat, p: string) {
    && |p| > 0
    && o + |p| < |s|
    && s[o..o + |p|] == p
    && (forall k :: 0 <= k < |p| ==> p[k] != ']')
    && s[o + |p|] == ']'
  }

  /** `content` starts at `start` of `s`, the closer `c` follows it, and no
      closer starts earlier: what the lazy `([\s\S]*?)` before the closer
      captures. */
  ghost predicate ShortestContent(s: string, start: nat, c: string, content: string) {
    && start + |content| <= |s|
    && s[start..start + |content|] == content
    && PrefixCI(c, s[start + |content|..])
    && (forall k :: start <= k < start + |content| ==> !PrefixCI(c, s[k..]))
  }

  /** Declarative reading of the pattern: `s` starts with the opener, then
      (param form) the parameter and its `]`, then the shortest content
      followed by the closer; the match spans all of that. */
  ghost predicate IsMatch(s: string, name: string, f: Form, m: Match) {
    var start := ContentStart(name, f, m.param);
    && (m.param.Some? <==> f == WithParam)
    && PrefixCI(Opener(name, f), s)
    && (m.param.Some? ==> ParamAt(s, |Opener(name, f)|, m.param.value))
    && ShortestContent(s, start, Closer(name), m.content)
    && m.len == start + |m.content| + |Closer(name)|
  }

  /** Index of the first `]` of `s`, or `|s|` when there is none: the greedy
      run `[^\]]+` can only stop there. */
  function CloseBracket(s: string): (k: nat)
    ensures k <= |s|
    decreases |s|
  {
    if |s| == 0 || s[0] == ']' then 0 else 1 + CloseBracket(s[1..])
  }

  /** `CloseBracket` stops at the first `]`: none comes before it. */
  lemma {:induction false} CloseBracketIsFirst(s: string)
    ensures forall j :: 0 <= j < CloseBracket(s) ==> s[j] != ']'
    ensures CloseBracket(s) < |s| ==> s[CloseBracket(s)] == ']'
    decreases |s|
  {
    if |s| > 0 && s[0] != ']' {
      CloseBracketIsFirst(s[1..]);
      assert forall j :: 1 <= j < |s| ==> s[j] == s[1..][j - 1];
    }
  }

  /** The content and closer part of a match whose content starts at
      `start`: the content ends at the first closer. */
  function ContentFrom(s: string, name: string, start: nat, param: Option<string>): (r: Option<Match>)
    requires start <= |s|
    ensures r.Some? ==> r.value.param == param && r.value.len == start + |r.value.content| + |Closer(name)| <= |s|
  {
    match FindCI(s[start..], Closer(name))
    case None => None
    case Some(j) => Some(Match(param, s[start..start + j], start + j + |Closer(name)|))
  }

  /** The match of the pattern at the start of `s`, if any. */
  function MatchAt(s: string, name: string, f: Form): (r: Option<Match>)
    ensures r.Some? ==> 0 < r.value.len <= |s|
  {
    var o := Opener(name, f);
    if !PrefixCI(o, s) then None
    else
      match f
      case Plain => ContentFrom(s, name, |o|, None)
      case WithParam => ParamFrom(s, name, |o|)
  }

  /** The rest of a param-form match whose opener ends at `o`: a parameter
      of one or more characters up to the first `]`, then the content. */
  function ParamFrom(s: string, name: string, o: nat): (r: Option<Match>)
    requires o <= |s|
    ensures r.Some? ==> o < r.value.len <= |s|
  {
    var pl := CloseBracket(s[o..]);
    if pl == 0 || o + pl == |s| then None
    else ContentFrom(s, name, o + pl + 1, Some(s[o..o + pl]))
  }

  /** `MatchAt` is exactly the regex match: it finds a match that satisfies
      `IsMatch`, and any match satisfying `IsMatch` is the one it finds (so
      `None` means that no match starts here). */
  lemma MatchAtIsTheMatch(s: string, name: string, f: Form)
    ensures MatchAt(s, name, f).Some? ==> IsMatch(s, name, f, MatchAt(s, name, f).value)
    ensures forall m :: IsMatch(s, name, f, m) ==> MatchAt(s, name, f) == Some(m)
  {
    var o := Opener(name, f);
    var r := MatchAt(s, name, f);
    if PrefixCI(o, s) {
      match f
      case Plain =>
        assert HeadMatches(s, name, f, |o|, None);
        MatchAtFacts(s, name, f, |o|, None, r);
      case WithParam =>
        ParamMatchAtIsTheMatch(s, name);
    }
  }

  /** `r` is what the pattern reading admits at the start of `s`: a match
      that satisfies `IsMatch`, and the only one. */
  ghost predicate Decides(s: string, name: string, f: Form, r: Option<Match>) {
    && (r.Some? ==> IsMatch(s, name, f, r.value))
    && (forall m :: IsMatch(s, name, f, m) ==> r == Some(m))
  }

  /** `MatchAtIsTheMatch` for the param form, once the opener is in place. */
  lemma ParamMatchAtIsTheMatch(s: string, name: string)
    requires PrefixCI(Opener(name, WithParam), s)
    ensures Decides(s, name, WithParam, MatchAt(s, name, WithParam))
  {
    var o := |Opener(name, WithParam)|;
    var pl := CloseBracket(s[o..]);
    if pl == 0 || o + pl == |s| {
      MissingParam(s, name, pl);
    } else {
      var p := s[o..o + pl];
      var r := ContentFrom(s, name, o + pl + 1, Some(p));
      MatchAtParam(s, name);
      ParamFromSome(s, name, o, pl);
      ParamHead(s, name, pl);
      MatchAtFacts(s, name, WithParam, o + pl + 1, Some(p), r);
    }
  }

  /** Without a parameter closed by `]` the param form finds nothing, and
      there is nothing to find. */
  lemma MissingParam(s: string, name: string, pl: nat)
    requires PrefixCI(Opener(name, WithParam), s)
    requires pl == CloseBracket(s[|Opener(name, WithParam)|..])
    requires pl == 0 || |Opener(name, WithParam)| + pl == |s|
    ensures MatchAt(s, name, WithParam) == None
    ensures forall m :: !IsMatch(s, name, WithParam, m)
  {
    ParamFromNone(s, name, |Opener(name, WithParam)|, pl);
    NoParamNoMatch(s, name, pl);
  }

  /** Once the opener is in place, the param form goes on with the
      parameter. */
  lemma MatchAtParam(s: string, name: string)
    requires PrefixCI(Opener(name, WithParam), s)
    ensures MatchAt(s, name, WithParam) == ParamFrom(s, name, |Opener(name, WithParam)|)
  {
  }

  lemma ParamFromNone(s: string, name: string, o: nat, pl: nat)
    requires o <= |s| && pl == CloseBracket(s[o..])
    requires pl == 0 || o + pl == |s|
    ensures ParamFrom(s, name, o) == None
  {
  }

  lemma ParamFromSome(s: string, name: string, o: nat, pl: nat)
    requires o <= |s| && pl == CloseBracket(s[o..])
    requires pl > 0 && o + pl < |s|
    ensures ParamFrom(s, name, o) == ContentFrom(s, name, o + pl + 1, Some(s[o..o + pl]))
  {
  }

  /** With a parameter closed by `]` in place, the param form looks for its
      content right after that `]`. */
  lemma ParamHead(s: string, name: string, pl: nat)
    requires PrefixCI(Opener(name, WithParam), s)
    requires pl == CloseBracket(s[|Opener(name, WithParam)|..])
    requires pl > 0 && |Opener(name, WithParam)| + pl < |s|
    ensures var o := Opener(name, WithParam);
            HeadMatches(s, name, WithParam, |o| + pl + 1, Some(s[|o|..|o| + pl]))
  {
    var o := Opener(name, WithParam);
    var p := s[|o|..|o| + pl];
    CloseBracketIsFirst(s[|o|..]);
    assert forall k :: 0 <= k < pl ==> p[k] == s[|o|..][k];
  }

  /** The requirements shared by the two halves of `MatchAtFacts`: the
      opener (and, in the param form, the parameter and its `]`) are in
      place and the content starts at `start`. */
  ghost predicate HeadMatches(s: string, name: string, f: Form, start: nat, param: Option<string>) {
    && PrefixCI(Opener(name, f), s)
    && (param.Some? <==> f == WithParam)
    && start == ContentStart(name, f, param)
    && start <= |s|
    && (param.Some? ==> ParamAt(s, |Opener(name, f)|, param.value))
  }

  /** The content search decides the match once the opener (and parameter)
      are fixed. */
  lemma MatchAtFacts(s: string, name: string, f: Form, start: nat, param: Option<string>, r: Option<Match>)
    requires HeadMatches(s, name, f, start, param)
    requires r == ContentFrom(s, name, start, param)
    ensures Decides(s, name, f, r)
  {
    ContentFromSound(s, name, f, start, param);
    forall m | IsMatch(s, name, f, m)
      ensures r == Some(m)
    {
      ContentFromComplete(s, name, f, start, param, m);
    }
  }

  lemma ContentFromSound(s: string, name: string, f: Form, start: nat, param: Option<string>)
    requires HeadMatches(s, name, f, start, param)
    ensures var r := ContentFrom(s, name, start, param);
            r.Some? ==> IsMatch(s, name, f, r.value)
  {
    var r := ContentFrom(s, name, start, param);
    if r.Some? {
      FoundCloser(s, Closer(name), start);
    }
  }

  /** What the search from `start` finds is the shortest content. */
  lemma FoundCloser(s: string, c: string, start: nat)
    requires start <= |s|
    requires FindCI(s[start..], c).Some?
    ensures var j := FindCI(s[start..], c).value;
            ShortestContent(s, start, c, s[start..start + j])
  {
    var j := FindCI(s[start..], c).value;
    FindCIIsFirst(s[start..], c);
    assert s[start..][j..] == s[start + j..];
    forall k | start <= k < start + j
      ensures !PrefixCI(c, s[k..])
    {
      assert s[start..][k - start..] == s[k..];
    }
  }

  lemma ContentFromComplete(s: string, name: string, f: Form, start: nat, param: Option<string>, m: Match)
    requires HeadMatches(s, name, f, start, param)
    requires IsMatch(s, name, f, m)
    ensures ContentFrom(s, name, start, param) == Some(m)
  {
    SameParam(s, name, f, start, param, m);
    assert start == ContentStart(name, f, m.param);
    FirstCloser(s, Closer(name), start, m.content);
  }

  /** The opener fixes the parameter, and with it where the content starts. */
  lemma SameParam(s: string, name: string, f: Form, start: nat, param: Option<string>, m: Match)
    requires HeadMatches(s, name, f, start, param)
    requires IsMatch(s, name, f, m)
    ensures m.param == param
  {
    if m.param.Some? {
      ParamIsDetermined(s, |Opener(name, f)|, m.param.value, param.value);
    }
  }

  /** When the shortest content from `start` is `content`, the search from
      `start` finds the closer right after it. */
  lemma FirstCloser(s: string, c: string, start: nat, content: string)
    requires ShortestContent(s, start, c, content)
    ensures FindCI(s[start..], c) == Some(|content|)
  {
    var n := |content|;
    FindCIIsFirst(s[start..], c);
    assert s[start..][n..] == s[start + n..];
    forall k | 0 <= k < n
      ensures s[start..][k..] == s[start + k..]
    {
    }
  }

  /** The parameter run is determined: two `]`-free runs at offset `o` that
      are each followed by `]` are equal. */
  lemma ParamIsDetermined(s: string, o: nat, p: string, q: string)
    requires ParamAt(s, o, p) && ParamAt(s, o, q)
    ensures p == q
  {
  }

  /** Without a non-empty parameter closed by `]` the param form cannot
      match. */
  lemma NoParamNoMatch(s: string, name: string, pl: nat)
    requires PrefixCI(Opener(name, WithParam), s)
    requires pl == CloseBracket(s[|Opener(name, WithParam)|..])
    requires pl == 0 || |Opener(name, WithParam)| + pl == |s|
    ensures forall m :: !IsMatch(s, name, WithParam, m)
  {
    CloseBracketIsFirst(s[|Opener(name, WithParam)|..]);
    forall m | IsMatch(s, name, WithParam, m)
      ensures false
    {
    }
  }

  /** A match can only start at a `[`, and (param form) needs a `=` right
      after the tag name. */
  lemma MatchNeedsOpener(s: string, name: string, f: Form)
    requires MatchAt(s, name, f).Some?
    ensures |s| > |name| + 1 && s[0] == '['
    ensures f == WithParam ==> s[|name| + 1] == '='
    ensures |name| > 0 ==> Lower(s[1]) == Lower(name[0])
  {
    var o := Opener(name, f);
    PrefixCIAt(o, s);
    assert Lower(o[0]) == Lower(s[0]);
    if |name| > 0 {
      assert Lower(o[1]) == Lower(s[1]);
    }
    assert Lower(o[|name| + 1]) == Lower(s[|name| + 1]);
  }

  /** One step of a global replace: a character at which no match starts,
      or a match together with the text it spans. */
  datatype Piece = Kept(c: char) | Replaced(m: Match, span: string)

  /** The text a piece was cut from. */
  function SpanOf(p: Piece): string {
    match p
    case Kept(c) => [c]
    case Replaced(_, span) => span
  }

  /** The text a sequence of pieces was cut from. */
  function Source(ps: seq<Piece>): string {
    if |ps| == 0 then "" else SpanOf(ps[0]) + Source(ps[1..])
  }

  /** The global scan: try the pattern at the current position; on a match
      consume the whole match, otherwise keep one character and move on.
      Scanning continues in the input text only. */
  function Scan(s: string, name: string, f: Form): (r: seq<Piece>)
    ensures |r| <= |s|
    ensures |s| > 0 ==> |r| > 0
    decreases |s|
  {
    if |s| == 0 then []
    else
      match MatchAt(s, name, f)
      case Some(m) => [Replaced(m, s[..m.len])] + Scan(s[m.len..], name, f)
      case None => [Kept(s[0])] + Scan(s[1..], name, f)
  }

  /** Declarative reading of a global replace over `s`: walking left to
      right, a piece is kept exactly when no match starts at its position,
      and otherwise it is the match that starts there, and the walk resumes
      right after it. */
  ghost predicate Leftmost(s: string, name: string, f: Form, ps: seq<Piece>)
    decreases |ps|
  {
    if |ps| == 0 then |s| == 0
    else
      match ps[0]
      case Kept(c) =>
        && |s| > 0 && s[0] == c
        && (forall m :: !IsMatch(s, name, f, m))
        && Leftmost(s[1..], name, f, ps[1..])
      case Replaced(m, span) =>
        && IsMatch(s, name, f, m)
        && m.len <= |s|
        && span == s[..m.len]
        && Leftmost(s[m.len..], name, f, ps[1..])
  }

  /** The pieces of a scan put back together give the scanned text. */
  lemma {:induction false} ScanCoversInput(s: string, name: string, f: Form)
    ensures Source(Scan(s, name, f)) == s
    decreases |s|
  {
    if |s| > 0 {
      var k := ScanHead(s, name, f);
      ScanCoversInput(s[k..], name, f);
      SourceSplits(Scan(s, name, f), s, k);
    }
  }

  /** Pieces whose first span is a prefix of `s` and whose rest covers the
      remainder cover `s`. */
  lemma SourceSplits(ps: seq<Piece>, s: string, k: nat)
    requires 0 < |ps| && k <= |s|
    requires SpanOf(ps[0]) == s[..k] && Source(ps[1..]) == s[k..]
    ensures Source(ps) == s
  {
    assert s == s[..k] + s[k..];
  }

  /** The first piece of a scan covers a non-empty prefix of the text, and
      the scan goes on after it. */
  lemma ScanHead(s: string, name: string, f: Form) returns (k: nat)
    requires |s| > 0
    ensures var ps := Scan(s, name, f);
            && 0 < k <= |s| && |ps| > 0
            && SpanOf(ps[0]) == s[..k]
            && ps[1..] == Scan(s[k..], name, f)
  {
    var ps := Scan(s, name, f);
    match MatchAt(s, name, f)
    case Some(m) =>
      k := m.len;
      assert ps == [Replaced(m, s[..k])] + Scan(s[k..], name, f);
    case None =>
      k := 1;
      assert ps == [Kept(s[0])] + Scan(s[1..], name, f);
  }

  /** `Scan` is a leftmost, non-overlapping global replace. */
  lemma {:induction false} ScanIsLeftmost(s: string, name: string, f: Form)
    ensures Leftmost(s, name, f, Scan(s, name, f))
    decreases |s|
  {
    if |s| > 0 {
      var ps := Scan(s, name, f);
      MatchAtIsTheMatch(s, name, f);
      match MatchAt(s, name, f)
      case Some(m) =>
        ScanIsLeftmost(s[m.len..], name, f);
        assert ps[1..] == Scan(s[m.len..], name, f);
      case None =>
        ScanIsLeftmost(s[1..], name, f);
        assert ps[1..] == Scan(s[1..], name, f);
    }
  }

  /** Where no match starts, a scan keeps the first character. */
  lemma ScanKeepsHead(s: string, name: string, f: Form)
    requires |s| > 0 && forall m :: !IsMatch(s, name, f, m)
    ensures Scan(s, name, f) == [Kept(s[0])] + Scan(s[1..], name, f)
  {
    MatchAtIsTheMatch(s, name, f);
  }

  /** Where the match `m` starts, a scan replaces it. */
  lemma ScanReplacesHead(s: string, name: string, f: Form, m: Match)
    requires IsMatch(s, name, f, m) && m.len <= |s|
    ensures Scan(s, name, f) == [Replaced(m, s[..m.len])] + Scan(s[m.len..], name, f)
  {
    MatchAtIsTheMatch(s, name, f);
  }

  /** A leftmost, non-overlapping global replace is unique: it is `Scan`. */
  lemma {:induction false} LeftmostIsScan(s: string, name: string, f: Form, ps: seq<Piece>)
    requires Leftmost(s, name, f, ps)
    ensures ps == Scan(s, name, f)
    decreases |ps|
  {
    if |ps| > 0 {
      var rest := ps[1..];
      assert ps == [ps[0]] + rest;
      match ps[0]
      case Kept(c) =>
        ScanKeepsHead(s, name, f);
        LeftmostIsScan(s[1..], name, f, rest);
      case Replaced(m, span) =>
        ScanReplacesHead(s, name, f, m);
        LeftmostIsScan(s[m.len..], name, f, rest);
    }
  }
}
