/** Where each character of a rendered post comes from. The renderer is
    run on characters tagged with their origin: the escaped post text, or
    markup written by a tag handler or by the newline pass. Kept characters
    keep their tag; a replaced match becomes markup as a whole (content it
    wraps included). This shows that the post text that ends up outside
    every tag is still escaped. */
module Provenance {
  import opened Text
  import opened Escaping
  import opened Tags
  import opened Scanner
  import opened Pass
  import opened BBCode

  datatype Origin = PostText | Markup

  /** A character of a text being rendered, with its origin. */
  datatype Cell = Cell(c: char, origin: Origin)

  /** The characters of a traced text. */
  function Chars(cs: seq<Cell>): string {
    seq(|cs|, k requires 0 <= k < |cs| => cs[k].c)
  }

  /** `s` with every character given origin `o`. */
  function Stamp(s: string, o: Origin): seq<Cell> {
    seq(|s|, k requires 0 <= k < |s| => Cell(s[k], o))
  }

  lemma CharsConcat(a: seq<Cell>, b: seq<Cell>)
    ensures Chars(a + b) == Chars(a) + Chars(b)
  {
  }

  lemma CharsStamp(s: string, o: Origin)
    ensures Chars(Stamp(s, o)) == s
  {
  }

  /** Every character that still has the post-text origin is escaped: none
      of them can open or close a tag or attribute. */
  predicate TextEscaped(cs: seq<Cell>) {
    forall k :: 0 <= k < |cs| && cs[k].origin == PostText ==> !IsMarkupChar(cs[k].c)
  }

  /** `Render` on traced text: a kept character is copied with its origin,
      a match is replaced by its fragment, all of it markup. */
  function TRender(cs: seq<Cell>, ps: seq<Piece>, t: Tag): seq<Cell>
    requires |cs| == |Source(ps)|
    decreases |ps|
  {
    if |ps| == 0 then []
    else
      var n := |SpanOf(ps[0])|;
      TOut(cs[..n], ps[0], t) + TRender(cs[n..], ps[1..], t)
  }

  /** What one piece contributes on traced text; `cs` are the cells the
      piece was cut from. */
  function TOut(cs: seq<Cell>, p: Piece, t: Tag): seq<Cell>
    requires |cs| == |SpanOf(p)|
  {
    match p
    case Kept(_) => cs
    case Replaced(m, _) => Stamp(Fragment(t, m), Markup)
  }

  /** One pass on traced text. */
  function TPass(cs: seq<Cell>, t: Tag, f: Form): seq<Cell> {
    ScanCoversInput(Chars(cs), Name(t), f);
    TRender(cs, Scan(Chars(cs), Name(t), f), t)
  }

  /** All passes of a tag list on traced text. */
  function TPasses(cs: seq<Cell>, tags: seq<Tag>): seq<Cell>
    decreases |tags|
  {
    if |tags| == 0 then cs
    else TPasses(TPass(TPass(cs, tags[0], WithParam), tags[0], Plain), tags[1..])
  }

  /** The newline pass on traced text: `<br>` is markup. */
  function TLines(cs: seq<Cell>): seq<Cell>
    decreases |cs|
  {
    if |cs| == 0 then []
    else (if cs[0].c == '\n' then Stamp("<br>", Markup) else cs[..1]) + TLines(cs[1..])
  }

  /** `parseBBCode` on traced text: the escaped post starts out as post
      text. */
  function TParse(raw: string): seq<Cell> {
    if |raw| == 0 then [] else TLines(TPasses(Stamp(EscapeHtml(raw), PostText), Registry))
  }

  /** The traced render produces exactly the characters of `Render`. */
  lemma {:induction false} TRenderAgrees(cs: seq<Cell>, ps: seq<Piece>, t: Tag)
    requires Chars(cs) == Source(ps)
    ensures Chars(TRender(cs, ps, t)) == Render(ps, t)
    decreases |ps|
  {
    if |ps| > 0 {
      var n := |SpanOf(ps[0])|;
      assert Chars(cs[n..]) == Chars(cs)[n..];
      assert Chars(cs)[n..] == Source(ps[1..]);
      TRenderAgrees(cs[n..], ps[1..], t);
      assert Chars(cs[..n]) == Chars(cs)[..n] == SpanOf(ps[0]);
      TOutAgrees(cs[..n], ps[0], t);
      CharsConcat(TOut(cs[..n], ps[0], t), TRender(cs[n..], ps[1..], t));
    }
  }

  lemma TOutAgrees(cs: seq<Cell>, p: Piece, t: Tag)
    requires Chars(cs) == SpanOf(p)
    ensures Chars(TOut(cs, p, t)) == Out(p, t)
  {
    if p.Replaced? {
      CharsStamp(Fragment(t, p.m), Markup);
    }
  }

  /** The traced render keeps post text escaped. */
  lemma {:induction false} TRenderKeepsTextEscaped(cs: seq<Cell>, ps: seq<Piece>, t: Tag)
    requires |cs| == |Source(ps)|
    requires TextEscaped(cs)
    ensures TextEscaped(TRender(cs, ps, t))
    decreases |ps|
  {
    if |ps| > 0 {
      var n := |SpanOf(ps[0])|;
      TRenderKeepsTextEscaped(cs[n..], ps[1..], t);
    }
  }

  lemma {:induction false} TPassesAgree(cs: seq<Cell>, tags: seq<Tag>)
    ensures Chars(TPasses(cs, tags)) == Passes(Chars(cs), tags)
    decreases |tags|
  {
    if |tags| > 0 {
      var t := tags[0];
      var s := Chars(cs);
      ScanCoversInput(s, Name(t), WithParam);
      TRenderAgrees(cs, Scan(s, Name(t), WithParam), t);
      var cs1 := TPass(cs, t, WithParam);
      ScanCoversInput(Chars(cs1), Name(t), Plain);
      TRenderAgrees(cs1, Scan(Chars(cs1), Name(t), Plain), t);
      TPassesAgree(TPass(cs1, t, Plain), tags[1..]);
    }
  }

  lemma {:induction false} TPassesKeepTextEscaped(cs: seq<Cell>, tags: seq<Tag>)
    requires TextEscaped(cs)
    ensures TextEscaped(TPasses(cs, tags))
    decreases |tags|
  {
    if |tags| > 0 {
      var t := tags[0];
      ScanCoversInput(Chars(cs), Name(t), WithParam);
      TRenderKeepsTextEscaped(cs, Scan(Chars(cs), Name(t), WithParam), t);
      var cs1 := TPass(cs, t, WithParam);
      ScanCoversInput(Chars(cs1), Name(t), Plain);
      TRenderKeepsTextEscaped(cs1, Scan(Chars(cs1), Name(t), Plain), t);
      TPassesKeepTextEscaped(TPass(cs1, t, Plain), tags[1..]);
    }
  }

  /** The traced newline pass produces exactly the characters of `Lines`
      and keeps post text escaped. */
  lemma {:induction false} TLinesAgrees(cs: seq<Cell>)
    ensures Chars(TLines(cs)) == ReplaceAll(Chars(cs), "\n", "<br>")
    ensures TextEscaped(cs) ==> TextEscaped(TLines(cs))
    decreases |cs|
  {
    if |cs| > 0 {
      TLinesAgrees(cs[1..]);
      var s := Chars(cs);
      assert s[1..] == Chars(cs[1..]);
      var head := if cs[0].c == '\n' then Stamp("<br>", Markup) else cs[..1];
      CharsConcat(head, TLines(cs[1..]));
      if cs[0].c == '\n' {
        assert s[..1] == "\n";
        assert s[1..] == s[|"\n"|..];
        CharsStamp("<br>", Markup);
      } else {
        assert s[..1] != "\n";
        assert Chars(head) == [s[0]];
      }
    }
  }

  /** The traced renderer renders exactly what `parseBBCode` renders. */
  lemma TParseAgrees(raw: string)
    ensures Chars(TParse(raw)) == ParseBBCode(raw)
  {
    if |raw| > 0 {
      var start := Stamp(EscapeHtml(raw), PostText);
      CharsStamp(EscapeHtml(raw), PostText);
      TPassesAgree(start, Registry);
      var mid := TPasses(start, Registry);
      TLinesAgrees(mid);
      assert ParseBBCode(raw) == Lines(Passes(EscapeHtml(raw), Registry));
    }
  }

  /** Text outside every tag stays escaped: each character of the rendered
      post that no handler and no newline produced is none of `<`, `>`,
      `"` and `'`, and each such `&` starts one of the five entities,
      itself post text. */
  lemma TextOutsideTagsStaysEscaped(raw: string)
    ensures TextEscaped(TParse(raw))
    ensures AmpersandsAreEntities(TParse(raw))
  {
    if |raw| > 0 {
      var start := Stamp(EscapeHtml(raw), PostText);
      TPassesKeepTextEscaped(start, Registry);
      TLinesAgrees(TPasses(start, Registry));
      EscapeMakesEntities(raw);
      TPassesKeepEntities(start, Registry);
      TLinesKeepEntities(TPasses(start, Registry));
    }
  }

  /** A pass over traced text without `[` keeps every character and its
      origin. */
  lemma {:induction false} TPassWithoutBracket(cs: seq<Cell>, t: Tag, f: Form)
    requires '[' !in Chars(cs)
    ensures TPass(cs, t, f) == cs
    decreases |cs|
  {
    if |cs| > 0 {
      var s := Chars(cs);
      if MatchAt(s, Name(t), f).Some? {
        MatchNeedsOpener(s, Name(t), f);
      }
      assert s[1..] == Chars(cs[1..]);
      var ps := Scan(s, Name(t), f);
      assert ps[1..] == Scan(Chars(cs[1..]), Name(t), f);
      TPassWithoutBracket(cs[1..], t, f);
      assert cs == cs[..1] + cs[1..];
    }
  }

  lemma {:induction false} TPassesWithoutBracket(cs: seq<Cell>, tags: seq<Tag>)
    requires '[' !in Chars(cs)
    ensures TPasses(cs, tags) == cs
    decreases |tags|
  {
    if |tags| > 0 {
      TPassWithoutBracket(cs, tags[0], WithParam);
      TPassWithoutBracket(cs, tags[0], Plain);
      TPassesWithoutBracket(cs, tags[1..]);
    }
  }

  lemma {:induction false} TLinesWithoutNewline(cs: seq<Cell>)
    requires '\n' !in Chars(cs)
    ensures TLines(cs) == cs
    decreases |cs|
  {
    if |cs| > 0 {
      assert Chars(cs)[0] == cs[0].c;
      assert Chars(cs)[1..] == Chars(cs[1..]);
      TLinesWithoutNewline(cs[1..]);
      assert cs == cs[..1] + cs[1..];
    }
  }

  /** The origin tracking is exact for posts without tags: a post without
      `[` and without newlines renders entirely as post text, namely its
      escape. */
  lemma {:induction false} PlainPostIsText(raw: string)
    requires '[' !in raw && '\n' !in raw && |raw| > 0
    ensures TParse(raw) == Stamp(EscapeHtml(raw), PostText)
  {
    var start := Stamp(EscapeHtml(raw), PostText);
    assert '[' !in Chars(start) && '\n' !in Chars(start) by {
      CharsStamp(EscapeHtml(raw), PostText);
      EscapeKeepsCount(raw, '[');
      EscapeKeepsCount(raw, '\n');
    }
    assert TPasses(start, Registry) == start by {
      TPassesWithoutBracket(start, Registry);
    }
    TLinesWithoutNewline(start);
  }

  /** `cs` starts with the characters of `e`, all of them post text. */
  predicate Heads(e: string, cs: seq<Cell>) {
    |e| <= |cs| && forall j :: 0 <= j < |e| ==> cs[j] == Cell(e[j], PostText)
  }

  /** The five entities `escapeHtml` writes. */
  predicate IsEntity(e: string) {
    e == "&amp;" || e == "&lt;" || e == "&gt;" || e == "&quot;" || e == "&#039;"
  }

  /** `cs` starts with one of the five entities, written as post text. */
  predicate StartsEntity(cs: seq<Cell>) {
    Heads("&amp;", cs) || Heads("&lt;", cs) || Heads("&gt;", cs) || Heads("&quot;", cs) || Heads("&#039;", cs)
  }

  /** Every `&` that is post text starts a whole entity of post text: no
      bare `&` of the author is left. */
  predicate AmpersandsAreEntities(cs: seq<Cell>) {
    forall k :: 0 <= k < |cs| && cs[k] == Cell('&', PostText) ==> StartsEntity(cs[k..])
  }

  /** An entity starts with `&`, holds no other `&`, and holds neither `[`
      nor a newline. */
  lemma EntityShape(e: string)
    requires IsEntity(e)
    ensures 4 <= |e| && e[0] == '&'
    ensures forall j :: 1 <= j < |e| ==> e[j] != '&'
    ensures '[' !in e && '\n' !in e
  {
  }

  /** The entity a text starts with. */
  lemma EntityOf(cs: seq<Cell>) returns (e: string)
    requires StartsEntity(cs)
    ensures IsEntity(e) && Heads(e, cs)
  {
    if Heads("&amp;", cs) {
      e := "&amp;";
    } else if Heads("&lt;", cs) {
      e := "&lt;";
    } else if Heads("&gt;", cs) {
      e := "&gt;";
    } else if Heads("&quot;", cs) {
      e := "&quot;";
    } else {
      e := "&#039;";
    }
  }

  /** Heads of a text stay heads when the text is cut after them or
      extended. */
  lemma HeadsKept(e: string, cs: seq<Cell>, rest: seq<Cell>)
    requires Heads(e, cs)
    ensures Heads(e, cs[..|e|] + rest)
  {
    var t := cs[..|e|] + rest;
    forall j | 0 <= j < |e|
      ensures t[j] == Cell(e[j], PostText)
    {
      assert t[j] == cs[j];
    }
  }

  lemma StartsEntityKept(e: string, cs: seq<Cell>, rest: seq<Cell>)
    requires IsEntity(e) && Heads(e, cs)
    ensures StartsEntity(cs[..|e|] + rest)
  {
    HeadsKept(e, cs, rest);
  }

  /** A head without post-text `&` in front of a text whose ampersands are
      entities keeps them so. */
  lemma {:induction false} EntitiesAfterPlainHead(head: seq<Cell>, rest: seq<Cell>)
    requires forall k :: 0 <= k < |head| ==> head[k] != Cell('&', PostText)
    requires AmpersandsAreEntities(rest)
    ensures AmpersandsAreEntities(head + rest)
  {
    var t := head + rest;
    forall k | 0 <= k < |t| && t[k] == Cell('&', PostText)
      ensures StartsEntity(t[k..])
    {
      if k < |head| {
        assert false;
      }
      assert t[k..] == rest[k - |head|..];
    }
  }

  /** An entity in front of a text whose ampersands are entities keeps
      them so. */
  lemma {:induction false} EntitiesAfterEntity(e: string, cs: seq<Cell>, rest: seq<Cell>)
    requires IsEntity(e) && Heads(e, cs)
    requires AmpersandsAreEntities(rest)
    ensures AmpersandsAreEntities(cs[..|e|] + rest)
  {
    EntityShape(e);
    var head := cs[..|e|];
    var t := head + rest;
    assert |head| == |e|;
    forall k | 0 <= k < |t| && t[k] == Cell('&', PostText)
      ensures StartsEntity(t[k..])
    {
      if k == 0 {
        StartsEntityKept(e, cs, rest);
      } else if k < |head| {
        assert false;
      } else {
        assert t[k..] == rest[k - |head|..];
      }
    }
  }

  /** The ampersands of a suffix of such a text are entities too. */
  lemma EntitiesInSuffix(cs: seq<Cell>, n: nat)
    requires n <= |cs| && AmpersandsAreEntities(cs)
    ensures AmpersandsAreEntities(cs[n..])
  {
    var t := cs[n..];
    forall k | 0 <= k < |t| && t[k] == Cell('&', PostText)
      ensures StartsEntity(t[k..])
    {
      assert cs[n + k] == t[k];
      assert t[k..] == cs[n + k..];
    }
  }

  /** The characters of a head of a traced text. */
  lemma CharsHead(cs: seq<Cell>, n: nat)
    requires n <= |cs|
    ensures Chars(cs[..n]) == Chars(cs)[..n] && Chars(cs[n..]) == Chars(cs)[n..]
  {
  }

  /** One step of a traced pass: the first cell is copied when no match
      starts there; otherwise the match becomes its fragment, all of it
      markup, and the pass resumes after the match. */
  lemma TPassStep(cs: seq<Cell>, t: Tag, f: Form)
    requires |cs| > 0
    ensures MatchAt(Chars(cs), Name(t), f).None? ==> TPass(cs, t, f) == cs[..1] + TPass(cs[1..], t, f)
    ensures MatchAt(Chars(cs), Name(t), f).Some? ==>
              var m := MatchAt(Chars(cs), Name(t), f).value;
              TPass(cs, t, f) == Stamp(Fragment(t, m), Markup) + TPass(cs[m.len..], t, f)
  {
    var s := Chars(cs);
    var ps := Scan(s, Name(t), f);
    ScanCoversInput(s, Name(t), f);
    match MatchAt(s, Name(t), f)
    case Some(m) =>
      CharsHead(cs, m.len);
      assert ps[1..] == Scan(s[m.len..], Name(t), f);
    case None =>
      CharsHead(cs, 1);
      assert ps[1..] == Scan(s[1..], Name(t), f);
  }

  /** A traced pass copies a first cell that is not `[`. */
  lemma TPassKeepsFirst(cs: seq<Cell>, t: Tag, f: Form)
    requires |cs| > 0 && cs[0].c != '['
    ensures TPass(cs, t, f) == cs[..1] + TPass(cs[1..], t, f)
  {
    if MatchAt(Chars(cs), Name(t), f).Some? {
      MatchNeedsOpener(Chars(cs), Name(t), f);
    }
    TPassStep(cs, t, f);
  }

  /** Regrouping a traced text cut after its first cell and after `n`. */
  lemma CellsRegroup(cs: seq<Cell>, n: nat, rest: seq<Cell>)
    requires 0 < n <= |cs|
    ensures cs[..1] + (cs[1..][..n - 1] + rest) == cs[..n] + rest
    ensures cs[1..][n - 1..] == cs[n..]
  {
  }

  /** A traced pass copies, cell for cell, a head without `[`. */
  lemma {:induction false} TPassPlainHead(cs: seq<Cell>, n: nat, t: Tag, f: Form)
    requires n <= |cs| && forall j :: 0 <= j < n ==> cs[j].c != '['
    ensures TPass(cs, t, f) == cs[..n] + TPass(cs[n..], t, f)
    decreases n
  {
    if n == 0 {
      assert cs[..0] + TPass(cs[0..], t, f) == TPass(cs, t, f);
    } else {
      TPassKeepsFirst(cs, t, f);
      TPassPlainHead(cs[1..], n - 1, t, f);
      CellsRegroup(cs, n, TPass(cs[n..], t, f));
    }
  }

  /** A traced pass copies an entity at the head of a text: no match can
      start inside it. */
  lemma TPassCopiesEntity(cs: seq<Cell>, e: string, t: Tag, f: Form)
    requires IsEntity(e) && Heads(e, cs)
    ensures TPass(cs, t, f) == cs[..|e|] + TPass(cs[|e|..], t, f)
  {
    EntityShape(e);
    forall j | 0 <= j < |e|
      ensures cs[j].c != '['
    {
      assert cs[j] == Cell(e[j], PostText);
    }
    TPassPlainHead(cs, |e|, t, f);
  }

  /** What a traced pass makes of the first piece of a text that does not
      start with a post-text `&`: either that cell or a fragment of
      markup, and neither is a post-text `&`. */
  lemma TPassHead(cs: seq<Cell>, t: Tag, f: Form) returns (n: nat, head: seq<Cell>)
    requires |cs| > 0 && cs[0] != Cell('&', PostText)
    ensures 0 < n <= |cs| && TPass(cs, t, f) == head + TPass(cs[n..], t, f)
    ensures forall k :: 0 <= k < |head| ==> head[k] != Cell('&', PostText)
  {
    TPassStep(cs, t, f);
    match MatchAt(Chars(cs), Name(t), f)
    case Some(m) =>
      n, head := m.len, Stamp(Fragment(t, m), Markup);
    case None =>
      n, head := 1, cs[..1];
  }

  /** A traced pass keeps every post-text `&` at the head of its entity. */
  lemma {:induction false} TPassKeepsEntities(cs: seq<Cell>, t: Tag, f: Form)
    requires AmpersandsAreEntities(cs)
    ensures AmpersandsAreEntities(TPass(cs, t, f))
    decreases |cs|
  {
    if |cs| > 0 {
      if cs[0] == Cell('&', PostText) {
        assert cs[0..] == cs;
        var e := EntityOf(cs);
        TPassCopiesEntity(cs, e, t, f);
        EntitiesInSuffix(cs, |e|);
        TPassKeepsEntities(cs[|e|..], t, f);
        EntitiesAfterEntity(e, cs, TPass(cs[|e|..], t, f));
      } else {
        var n, head := TPassHead(cs, t, f);
        EntitiesInSuffix(cs, n);
        TPassKeepsEntities(cs[n..], t, f);
        EntitiesAfterPlainHead(head, TPass(cs[n..], t, f));
      }
    }
  }

  lemma {:induction false} TPassesKeepEntities(cs: seq<Cell>, tags: seq<Tag>)
    requires AmpersandsAreEntities(cs)
    ensures AmpersandsAreEntities(TPasses(cs, tags))
    decreases |tags|
  {
    if |tags| > 0 {
      TPassKeepsEntities(cs, tags[0], WithParam);
      TPassKeepsEntities(TPass(cs, tags[0], WithParam), tags[0], Plain);
      TPassesKeepEntities(TPass(TPass(cs, tags[0], WithParam), tags[0], Plain), tags[1..]);
    }
  }

  /** The traced newline pass copies, cell for cell, a head without
      newlines. */
  lemma {:induction false} TLinesPlainHead(cs: seq<Cell>, n: nat)
    requires n <= |cs| && forall j :: 0 <= j < n ==> cs[j].c != '\n'
    ensures TLines(cs) == cs[..n] + TLines(cs[n..])
    decreases n
  {
    if n == 0 {
      assert cs[..0] + TLines(cs[0..]) == TLines(cs);
    } else {
      TLinesPlainHead(cs[1..], n - 1);
      CellsRegroup(cs, n, TLines(cs[n..]));
    }
  }

  /** The traced newline pass keeps every post-text `&` at the head of its
      entity: entities hold no newline. */
  lemma {:induction false} TLinesKeepEntities(cs: seq<Cell>)
    requires AmpersandsAreEntities(cs)
    ensures AmpersandsAreEntities(TLines(cs))
    decreases |cs|
  {
    if |cs| > 0 {
      if cs[0] == Cell('&', PostText) {
        assert cs[0..] == cs;
        var e := EntityOf(cs);
        EntityShape(e);
        forall j | 0 <= j < |e|
          ensures cs[j].c != '\n'
        {
          assert cs[j] == Cell(e[j], PostText);
        }
        TLinesPlainHead(cs, |e|);
        EntitiesInSuffix(cs, |e|);
        TLinesKeepEntities(cs[|e|..]);
        EntitiesAfterEntity(e, cs, TLines(cs[|e|..]));
      } else {
        var head := if cs[0].c == '\n' then Stamp("<br>", Markup) else cs[..1];
        EntitiesInSuffix(cs, 1);
        TLinesKeepEntities(cs[1..]);
        EntitiesAfterPlainHead(head, TLines(cs[1..]));
      }
    }
  }

  lemma StampConcat(a: string, b: string, o: Origin)
    ensures Stamp(a + b, o) == Stamp(a, o) + Stamp(b, o)
  {
  }

  /** What `escapeHtml` writes for a special character is an entity. */
  lemma EscapeCharIsEntity(c: char)
    requires IsSpecial(c)
    ensures IsEntity(EscapeChar(c))
  {
  }

  /** In an escaped post every `&` starts an entity. */
  lemma {:induction false} EscapeMakesEntities(s: string)
    ensures AmpersandsAreEntities(Stamp(EscapeHtml(s), PostText))
    decreases |s|
  {
    if |s| > 0 {
      var e := EscapeChar(s[0]);
      var head := Stamp(e, PostText);
      var rest := Stamp(EscapeHtml(s[1..]), PostText);
      StampConcat(e, EscapeHtml(s[1..]), PostText);
      EscapeMakesEntities(s[1..]);
      if IsSpecial(s[0]) {
        EscapeCharIsEntity(s[0]);
        assert Heads(e, head);
        assert head[..|e|] == head;
        EntitiesAfterEntity(e, head, rest);
      } else {
        assert head == [Cell(s[0], PostText)];
        EntitiesAfterPlainHead(head, rest);
      }
    }
  }
}
