/** The HTML escaper `escapeHtml` and the un-escape chain that the tag
    passes apply to captured content before calling a handler. */
module Escaping {
  import opened Text

  /** The five characters `escapeHtml` rewrites. */
  predicate IsSpecial(c: char) {
    c == '&' || c == '<' || c == '>' || c == '"' || c == '\''
  }

  /** Characters that occur inside the entities `escapeHtml` emits. */
  predicate InEntity(c: char) {
    || c == '&' || c == ';' || c == '#' || c == '0' || c == '3' || c == '9'
    || c == 'a' || c == 'm' || c == 'p' || c == 'l' || c == 't' || c == 'g'
    || c == 'q' || c == 'u' || c == 'o'
  }

  /** Replacement text for one character: the entity for the five special
      characters, the character itself otherwise. An entity runs from `&`
      to `;` and holds no markup character. */
  function EscapeChar(c: char): (r: string)
    ensures NoMarkup(r)
    ensures IsSpecial(c) <==> r != [c]
    ensures IsSpecial(c) ==> |r| > 2 && r[0] == '&' && r[|r| - 1] == ';'
  {
    match c
    case '&' => "&amp;"
    case '<' => "&lt;"
    case '>' => "&gt;"
    case '"' => "&quot;"
    case '\'' => "&#039;"
    case _ => [c]
  }

  /** `escapeHtml`: every special character becomes its entity; every other
      character is copied. The result is free of markup characters and never
      shorter than the input. */
  function EscapeHtml(s: string): (r: string)
    ensures NoMarkup(r)
    ensures |r| >= |s|
    decreases |s|
  {
    if |s| == 0 then "" else EscapeChar(s[0]) + EscapeHtml(s[1..])
  }

  /** Characters foreign to both the specials and the entity texts (the
      brackets, the slash, newlines, upper-case letters, ...) keep their
      exact number of occurrences. */
  lemma {:induction false} EscapeKeepsCount(s: string, c: char)
    requires !IsSpecial(c) && !InEntity(c)
    ensures Count(EscapeHtml(s), c) == Count(s, c)
    decreases |s|
  {
    if |s| > 0 {
      EscapeKeepsCount(s[1..], c);
      CountConcat(EscapeChar(s[0]), EscapeHtml(s[1..]), c);
      if IsSpecial(s[0]) {
        EntityAvoids(s[0], c);
      } else {
        assert EscapeChar(s[0]) == [s[0]];
      }
    }
  }

  /** An entity holds none of the characters foreign to the entity texts. */
  lemma EntityAvoids(d: char, c: char)
    requires IsSpecial(d) && !InEntity(c)
    ensures c !in EscapeChar(d)
  {
    match d
    case '&' => assert EscapeChar(d) == "&amp;";
    case '<' => assert EscapeChar(d) == "&lt;";
    case '>' => assert EscapeChar(d) == "&gt;";
    case '"' => assert EscapeChar(d) == "&quot;";
    case _ => assert EscapeChar(d) == "&#039;";
  }

  /** Escaping works character by character, so it distributes over
      concatenation. */
  lemma {:induction false} EscapeConcat(a: string, b: string)
    ensures EscapeHtml(a + b) == EscapeHtml(a) + EscapeHtml(b)
    decreases |a|
  {
    if |a| > 0 {
      assert (a + b)[1..] == a[1..] + b;
      EscapeConcat(a[1..], b);
    } else {
      assert a + b == b;
    }
  }

  /** An escaped text starts with the first character of the input or, when
      that is special, with the `&` of its entity. */
  lemma EscapeHead(s: string)
    requires |s| > 0
    ensures var r := EscapeHtml(s); |r| > 0 && (r[0] == s[0] || r[0] == '&')
  {
  }

  /** A text without special characters is its own escape. */
  lemma {:induction false} EscapePlain(s: string)
    requires forall k :: 0 <= k < |s| ==> !IsSpecial(s[k])
    ensures EscapeHtml(s) == s
    decreases |s|
  {
    if |s| > 0 {
      EscapePlain(s[1..]);
      assert s == [s[0]] + s[1..];
    }
  }

  /** The un-escape chain, in the order the source applies it: `&amp;`
      first, then `&lt;`, `&gt;`, `&quot;` and `&#039;`. */
  function Unescape(s: string): (r: string)
    ensures |r| <= |s|
    ensures '&' !in s ==> r == s
  {
    var amp := ReplaceAll(s, "&amp;", "&");
    var lt := ReplaceAll(amp, "&lt;", "<");
    var gt := ReplaceAll(lt, "&gt;", ">");
    var quot := ReplaceAll(gt, "&quot;", "\"");
    ReplaceAll(quot, "&#039;", "'")
  }

  /** A text in which the characters of `decoded` appear literally and every
      other special character still appears as its entity: the state of an
      escaped text part-way through the un-escape chain. */
  function PartlyEscaped(s: string, decoded: set<char>): string
    decreases |s|
  {
    if |s| == 0 then ""
    else (if s[0] in decoded then [s[0]] else EscapeChar(s[0])) + PartlyEscaped(s[1..], decoded)
  }

  lemma {:induction false} EscapeIsPartlyEscaped(s: string)
    ensures EscapeHtml(s) == PartlyEscaped(s, {})
    decreases |s|
  {
    if |s| > 0 {
      EscapeIsPartlyEscaped(s[1..]);
    }
  }

  lemma {:induction false} FullyDecoded(s: string)
    ensures PartlyEscaped(s, {'&', '<', '>', '"', '\''}) == s
    decreases |s|
  {
    if |s| > 0 {
      FullyDecoded(s[1..]);
      assert s == [s[0]] + s[1..];
    }
  }

  /** Replacing an `&`-entity leaves a prefix `p` in place when `p` holds no
      `&` after its first character and, if it starts with `&`, already
      differs from the entity at its second character. */
  lemma {:induction false} SkipPiece(p: string, rest: string, pat: string, rep: string)
    requires |pat| > 1 && pat[0] == '&'
    requires forall k :: 1 <= k < |p| ==> p[k] != '&'
    requires |p| > 0 && p[0] == '&' ==> |p| > 1 && p[1] != pat[1]
    ensures ReplaceAll(p + rest, pat, rep) == p + ReplaceAll(rest, pat, rep)
    decreases |p|
  {
    if |p| > 0 {
      var s := p + rest;
      if |s| < |pat| {
        assert ReplaceAll(rest, pat, rep) == rest;
      } else if s[..|pat|] == pat {
        assert false;
      } else {
        assert s[1..] == p[1..] + rest;
        SkipPiece(p[1..], rest, pat, rep);
      }
    } else {
      assert p + rest == rest;
    }
  }

  /** One stage of the chain decodes exactly the character `x` when the
      original text had no `&` of its own. */
  lemma {:induction false} DecodeStage(s: string, decoded: set<char>, x: char)
    requires '&' !in s
    requires IsSpecial(x) && x !in decoded
    ensures ReplaceAll(PartlyEscaped(s, decoded), EscapeChar(x), [x]) == PartlyEscaped(s, decoded + {x})
    decreases |s|
  {
    if |s| > 0 {
      var pat := EscapeChar(x);
      var rest := PartlyEscaped(s[1..], decoded);
      var piece := if s[0] in decoded then [s[0]] else EscapeChar(s[0]);
      assert PartlyEscaped(s, decoded) == piece + rest;
      assert s == [s[0]] + s[1..];
      DecodeStage(s[1..], decoded, x);
      if s[0] == x {
        assert piece == pat;
        var t := piece + rest;
        assert t[..|pat|] == pat;
        assert t[|pat|..] == rest;
      } else {
        SkipPiece(piece, rest, pat, [x]);
      }
    }
  }

  /** The chain inverts `escapeHtml` on every text without `&`. */
  lemma UnescapeEscape(s: string)
    requires '&' !in s
    ensures Unescape(EscapeHtml(s)) == s
  {
    var d0: set<char> := {};
    var d1 := d0 + {'&'};
    var d2 := d1 + {'<'};
    var d3 := d2 + {'>'};
    var d4 := d3 + {'"'};
    var d5 := d4 + {'\''};
    EscapeIsPartlyEscaped(s);
    DecodeStage(s, d0, '&');
    DecodeStage(s, d1, '<');
    DecodeStage(s, d2, '>');
    DecodeStage(s, d3, '"');
    DecodeStage(s, d4, '\'');
    assert d5 == {'&', '<', '>', '"', '\''};
    FullyDecoded(s);
  }

  /** Because `&amp;` is decoded first, literal user text `&lt;` comes back as
      a live `<`: the chain is not an inverse once the text contains `&`. */
  lemma UnescapeDecodesTwice()
    ensures EscapeHtml("&lt;") == "&amp;lt;"
    ensures Unescape(EscapeHtml("&lt;")) == "<"
  {
    EscapeEntityText();
    assert ReplaceAll("&amp;lt;", "&amp;", "&") == "&lt;" by {
      assert ReplaceAll("lt;", "&amp;", "&") == "lt;";
    }
    assert ReplaceAll("&lt;", "&lt;", "<") == "<";
    assert ReplaceAll("<", "&gt;", ">") == "<";
    assert ReplaceAll("<", "&quot;", "\"") == "<";
    assert ReplaceAll("<", "&#039;", "'") == "<";
  }

  lemma EscapeEntityText()
    ensures EscapeHtml("&lt;") == "&amp;lt;"
  {
    assert EscapeHtml(";") == ";";
    assert EscapeHtml("t;") == "t;";
    assert EscapeHtml("lt;") == "lt;";
  }
}
