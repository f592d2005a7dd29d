/** String primitives shared by the renderer: an optional value, ASCII case
    folding, case-insensitive prefix and search (the `i` flag of the tag
    patterns), and the global replacement of a literal pattern that
    `String.prototype.replace` performs with a `g` regex. */
module Text {

  datatype Option<+T> = None | Some(value: T)

  /** The characters that can open or close an HTML tag or attribute value. */
  predicate IsMarkupChar(c: char) {
    c == '<' || c == '>' || c == '"' || c == '\''
  }

  /** `s` holds no character that can open or close a tag or attribute. */
  predicate NoMarkup(s: string) {
    forall k :: 0 <= k < |s| ==> !IsMarkupChar(s[k])
  }

  /** ASCII lower-casing; every other character is left alone, as the
      non-unicode `i` flag does for the letters of the tag names. */
  function Lower(c: char): (d: char)
    ensures 'A' <= c <= 'Z' ==> d as int == c as int + 32
    ensures !('A' <= c <= 'Z') ==> d == c
    ensures d == '[' <==> c == '['
  {
    if 'A' <= c <= 'Z' then (c as int + 32) as char else c
  }

  /** `p` is a prefix of `s` up to ASCII case. */
  predicate PrefixCI(p: string, s: string)
    ensures PrefixCI(p, s) ==> |p| <= |s|
    decreases |p|
  {
    |p| == 0 || (|s| > 0 && Lower(p[0]) == Lower(s[0]) && PrefixCI(p[1..], s[1..]))
  }

  /** `PrefixCI` compares position by position. */
  lemma {:induction false} PrefixCIAt(p: string, s: string)
    ensures PrefixCI(p, s) <==> |p| <= |s| && forall k :: 0 <= k < |p| ==> Lower(p[k]) == Lower(s[k])
    decreases |p|
  {
    if |p| > 0 && |s| > 0 {
      PrefixCIAt(p[1..], s[1..]);
      assert forall k :: 1 <= k < |p| ==> p[1..][k - 1] == p[k];
    }
  }

  /** Taking a non-empty text apart at its first character. */
  lemma ConsSplit(a: string, b: string, r: string)
    requires |a| > 0
    ensures (a + b)[0] == a[0] && (a + b)[1..] == a[1..] + b
    ensures [a[0]] + (a[1..] + r) == a + r
  {
    assert a == [a[0]] + a[1..];
  }

  // Regrouping. Concatenation is associative, but the solver does not
  // regroup long concatenations of literals and variables on its own; these
  // lemmas state the groupings the worked examples need.

  /** Concatenation is associative. */
  lemma Assoc(a: string, b: string, c: string)
    ensures a + b + c == a + (b + c)
  {
  }

  /** A five-part text grouped from the right, and with its second and
      third parts taken together. */
  lemma Regroup5(a: string, b: string, c: string, d: string, e: string)
    ensures a + b + c + d + e == a + (b + (c + (d + e)))
    ensures a + b + c + d + e == a + (b + c + (d + e))
  {
  }

  /** A seven-part text grouped from the right, after its first two parts,
      and around its middle part. */
  lemma Regroup7(a: string, b: string, c: string, d: string, e: string, f: string, g: string)
    ensures a + b + c + d + e + f + g == a + b + (c + d + (e + f + g))
    ensures a + b + c + d + e + f + g == a + (b + (c + (d + (e + (f + g)))))
    ensures a + b + c + d + e + f + g == (a + b) + (c + (d + e + f) + g)
  {
  }

  /** A seven-part text with its second to fourth parts and its last two
      parts taken together. */
  lemma GroupMiddle7(a: string, b: string, c: string, d: string, e: string, f: string, g: string)
    ensures a + b + c + d + e + f + g == a + (b + c + d) + e + (f + g)
  {
  }

  /** Index of the first case-insensitive occurrence of `pat` in `s`. */
  function FindCI(s: string, pat: string): (r: Option<nat>)
    ensures r.Some? ==> r.value + |pat| <= |s|
    decreases |s|
  {
    if PrefixCI(pat, s) then Some(0)
    else if |s| == 0 then None
    else
      match FindCI(s[1..], pat)
      case None => None
      case Some(j) =>
        assert s[j + 1..] == s[1..][j..];
        Some(j + 1)
  }

  /** `FindCI` finds an occurrence, the leftmost one, and finds none only
      when there is none. */
  lemma {:induction false} FindCIIsFirst(s: string, pat: string)
    ensures FindCI(s, pat).Some? ==> PrefixCI(pat, s[FindCI(s, pat).value..])
    ensures FindCI(s, pat).Some? ==> forall k :: 0 <= k < FindCI(s, pat).value ==> !PrefixCI(pat, s[k..])
    ensures FindCI(s, pat).None? ==> forall k :: 0 <= k <= |s| ==> !PrefixCI(pat, s[k..])
    decreases |s|
  {
    if !PrefixCI(pat, s) && |s| > 0 {
      FindCIIsFirst(s[1..], pat);
      assert forall k :: 1 <= k <= |s| ==> s[k..] == s[1..][k - 1..];
    }
  }

  /** Leftmost, non-overlapping replacement of every occurrence of `pat`;
      scanning resumes after each replaced occurrence and never looks at
      the inserted text again. */
  function ReplaceAll(s: string, pat: string, rep: string): (r: string)
    requires |pat| > 0
    ensures |rep| <= |pat| ==> |r| <= |s|
    ensures pat[0] !in s ==> r == s
    decreases |s|
  {
    if |s| < |pat| then s
    else if s[..|pat|] == pat then rep + ReplaceAll(s[|pat|..], pat, rep)
    else [s[0]] + ReplaceAll(s[1..], pat, rep)
  }

  /** Replacing a single character `c` by a text that does not contain it
      removes every `c`; a text without `c` is returned unchanged. */
  lemma {:induction false} ReplaceCharRemoves(s: string, c: char, rep: string)
    ensures c in rep || c !in ReplaceAll(s, [c], rep)
    ensures c !in s ==> ReplaceAll(s, [c], rep) == s
    decreases |s|
  {
    if |s| > 0 {
      ReplaceCharRemoves(s[1..], c, rep);
      assert s == [s[0]] + s[1..];
      if s[..1] == [c] {
        assert s[0] == c;
        assert s[1..] == s[|[c]|..];
      } else {
        assert s[0] != c;
      }
    }
  }

  /** Number of occurrences of `c` in `s`. */
  function Count(s: string, c: char): (n: nat)
    ensures n == 0 <==> c !in s
    ensures n <= |s|
  {
    if |s| == 0 then 0 else (if s[0] == c then 1 else 0) + Count(s[1..], c)
  }

  /** Counting distributes over concatenation. */
  lemma {:induction false} CountConcat(a: string, b: string, c: char)
    ensures Count(a + b, c) == Count(a, c) + Count(b, c)
    decreases |a|
  {
    if |a| > 0 {
      assert (a + b)[1..] == a[1..] + b;
      CountConcat(a[1..], b, c);
    } else {
      assert a + b == b;
    }
  }

  /** Replacing a single character takes the text one character at a
      time. */
  lemma ReplaceCharStep(s: string, c: char, rep: string)
    requires |s| > 0
    ensures ReplaceAll(s, [c], rep) == (if s[0] == c then rep else [s[0]]) + ReplaceAll(s[1..], [c], rep)
  {
    if s[..1] == [c] {
      assert s[0] == c;
      assert s[1..] == s[|[c]|..];
    } else {
      assert s[0] != c;
    }
  }

  /** Each replaced character lengthens the text by the extra length of the
      replacement. */
  lemma {:induction false} ReplaceCharLength(s: string, c: char, rep: string)
    ensures |ReplaceAll(s, [c], rep)| == |s| + (|rep| - 1) * Count(s, c)
    decreases |s|
  {
    if |s| > 0 {
      ReplaceCharLength(s[1..], c, rep);
      ReplaceCharStep(s, c, rep);
      var m := |rep| - 1;
      var n := Count(s[1..], c);
      if s[0] == c {
        assert Count(s, c) == n + 1;
        MulSucc(m, n);
      } else {
        assert Count(s, c) == n;
      }
    }
  }

  /** One more factor adds the multiplier once. */
  lemma MulSucc(m: int, n: int)
    ensures m * (n + 1) == m * n + m
  {
  }
}
