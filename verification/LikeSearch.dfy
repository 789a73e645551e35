/**
 Search terms inside SQL LIKE patterns (escape_like in api/app/utils.py and its callers).
 `fold` is the character folding of ILIKE; the identity gives plain LIKE.
 */
module LikeSearch {

  /** str.replace with a one-character pattern. */
  function ReplaceChar(s: string, c: char, replacement: string): string {
    if s == [] then [] else (if s[0] == c then replacement else [s[0]]) + ReplaceChar(s[1..], c, replacement)
  }

  function EscapeLike(term: string): string {
    ReplaceChar(ReplaceChar(ReplaceChar(term, '\\', "\\\\"), '%', "\\%"), '_', "\\_")
  }

  function EscapeChar(c: char): string {
    if c == '\\' || c == '%' || c == '_' then ['\\', c] else [c]
  }

  function EscapeEach(term: string): string {
    if term == [] then [] else EscapeChar(term[0]) + EscapeEach(term[1..])
  }

  /** The pattern the list routes build. */
  function SearchPattern(term: string): string {
    "%" + EscapeLike(term) + "%"
  }

  /** LIKE pattern ESCAPE '\': % is any text, _ any character, \c the character c. */
  predicate Like(pattern: string, s: string, fold: char -> char)
    decreases |pattern| + |s|
  {
    if pattern == [] then s == []
    else if pattern[0] == '\\' then
      |pattern| >= 2 && s != [] && fold(pattern[1]) == fold(s[0]) && Like(pattern[2..], s[1..], fold)
    else if pattern[0] == '%' then
      Like(pattern[1..], s, fold) || (s != [] && Like(pattern, s[1..], fold))
    else if pattern[0] == '_' then
      s != [] && Like(pattern[1..], s[1..], fold)
    else
      s != [] && fold(pattern[0]) == fold(s[0]) && Like(pattern[1..], s[1..], fold)
  }

  predicate SameFolded(a: string, b: string, fold: char -> char) {
    |a| == |b| && forall i :: 0 <= i < |a| ==> fold(a[i]) == fold(b[i])
  }

  /** `term` occurs somewhere in `s`, up to folding. */
  ghost predicate Occurs(term: string, s: string, fold: char -> char) {
    exists i, j :: 0 <= i <= j <= |s| && SameFolded(term, s[i..j], fold)
  }

  // ------------------------------------------------------------------- escaping

  lemma {:induction false} ReplaceAppend(a: string, b: string, c: char, replacement: string)
    ensures ReplaceChar(a + b, c, replacement) == ReplaceChar(a, c, replacement) + ReplaceChar(b, c, replacement)
  {
    if a == [] {
      assert a + b == b;
    } else {
      assert (a + b)[0] == a[0] && (a + b)[1..] == a[1..] + b;
      ReplaceAppend(a[1..], b, c, replacement);
    }
  }

  lemma ReplaceInOne(c: char, d: char, replacement: string)
    ensures ReplaceChar([c], d, replacement) == if c == d then replacement else [c]
  {
    assert [c][1..] == [];
  }

  lemma ReplaceInTwo(b: char, c: char, d: char, replacement: string)
    requires b != d
    ensures ReplaceChar([b, c], d, replacement) == [b] + if c == d then replacement else [c]
  {
    ReplaceInOne(c, d, replacement);
    assert [b, c][1..] == [c];
  }

  lemma EscapeOneChar(c: char)
    ensures EscapeLike([c]) == EscapeChar(c)
  {
    ReplaceInOne(c, '\\', "\\\\");
    if c == '\\' {
      ReplaceInTwo(c, c, '%', "\\%");
      ReplaceInTwo(c, c, '_', "\\_");
    } else {
      ReplaceInOne(c, '%', "\\%");
      if c == '%' {
        ReplaceInTwo('\\', c, '_', "\\_");
      } else {
        ReplaceInOne(c, '_', "\\_");
      }
    }
  }

  /** The three chained replacements act on each character separately, in one pass. */
  lemma {:induction false} ChainedReplacesEscapeEachChar(term: string)
    ensures EscapeLike(term) == EscapeEach(term)
  {
    if term != [] {
      var first, rest := [term[0]], term[1..];
      assert term == first + rest;
      ReplaceAppend(first, rest, '\\', "\\\\");
      var first1, rest1 := ReplaceChar(first, '\\', "\\\\"), ReplaceChar(rest, '\\', "\\\\");
      ReplaceAppend(first1, rest1, '%', "\\%");
      ReplaceAppend(ReplaceChar(first1, '%', "\\%"), ReplaceChar(rest1, '%', "\\%"), '_', "\\_");
      EscapeOneChar(term[0]);
      ChainedReplacesEscapeEachChar(rest);
    }
  }

  // ------------------------------------------------------------------- matching

  lemma EscapedCharIsLiteral(c: char, tail: string, s: string, fold: char -> char)
    ensures Like(EscapeChar(c) + tail, s, fold) <==> s != [] && fold(c) == fold(s[0]) && Like(tail, s[1..], fold)
  {
    assert (EscapeChar(c) + tail)[|EscapeChar(c)|..] == tail;
  }

  /** An escaped term matches only itself. */
  lemma {:induction false} EscapedTermIsLiteral(term: string, rest: string, s: string, fold: char -> char)
    ensures Like(EscapeEach(term) + rest, s, fold) <==>
            |s| >= |term| && SameFolded(term, s[..|term|], fold) && Like(rest, s[|term|..], fold)
    decreases |term|
  {
    if term == [] {
      assert EscapeEach(term) + rest == rest && s[0..] == s;
    } else {
      var tail := EscapeEach(term[1..]) + rest;
      assert EscapeEach(term) + rest == EscapeChar(term[0]) + tail;
      EscapedCharIsLiteral(term[0], tail, s, fold);
      if s != [] {
        EscapedTermIsLiteral(term[1..], rest, s[1..], fold);
        if |s| >= |term| {
          assert s[1..][|term| - 1..] == s[|term|..];
          assert s[1..][..|term| - 1] == s[..|term|][1..];
          SameFoldedCons(term, s[..|term|], fold);
        }
      }
    }
  }

  lemma SameFoldedCons(a: string, b: string, fold: char -> char)
    requires |a| == |b| > 0
    ensures SameFolded(a, b, fold) <==> fold(a[0]) == fold(b[0]) && SameFolded(a[1..], b[1..], fold)
  {
    if fold(a[0]) == fold(b[0]) && SameFolded(a[1..], b[1..], fold) {
      forall i | 0 <= i < |a| ensures fold(a[i]) == fold(b[i]) {
        assert i > 0 ==> a[i] == a[1..][i - 1] && b[i] == b[1..][i - 1];
      }
    }
  }

  lemma {:induction false} PercentSkips(pattern: string, s: string, fold: char -> char)
    ensures Like("%" + pattern, s, fold) <==> exists i :: 0 <= i <= |s| && Like(pattern, s[i..], fold)
    decreases |s|
  {
    var p := "%" + pattern;
    assert p[1..] == pattern && s[0..] == s;
    if s != [] {
      PercentSkips(pattern, s[1..], fold);
      if i :| 0 <= i <= |s| && Like(pattern, s[i..], fold) {
        if i > 0 {
          assert s[1..][i - 1..] == s[i..];
        }
      }
      if i :| 0 <= i <= |s[1..]| && Like(pattern, s[1..][i..], fold) {
        assert s[1..][i..] == s[i + 1..];
      }
    }
  }

  lemma {:induction false} PercentMatchesAll(s: string, fold: char -> char)
    ensures Like("%", s, fold)
    decreases |s|
  {
    assert "%"[1..] == [];
    if s != [] {
      PercentMatchesAll(s[1..], fold);
    }
  }

  /** Why terms are escaped: as they are, a percent sign would match every text, an underscore every text but the empty one. */
  lemma UnescapedWildcardsMatchTooMuch(s: string, fold: char -> char)
    ensures Like("%" + "%" + "%", s, fold)
    ensures Like("%" + "_" + "%", s, fold) <==> s != ""
  {
    PercentMatchesAll(s, fold);
    PercentSkips("%", s, fold);
    PercentSkips("%%", s, fold);
    PercentSkips("_%", s, fold);
    assert "%" + "%" + "%" == "%" + "%%" && "%" + "%" == "%%" && "%" + "_" + "%" == "%" + "_%" && s[0..] == s;
    if s != "" {
      PercentMatchesAll(s[1..], fold);
      assert "_%"[1..] == "%";
    }
  }

  /** Searching for any term finds exactly the texts in which that term occurs literally. */
  lemma SearchFindsExactlyOccurrences(term: string, s: string, fold: char -> char)
    ensures Like(SearchPattern(term), s, fold) <==> Occurs(term, s, fold)
  {
    var body := EscapeEach(term) + "%";
    ChainedReplacesEscapeEachChar(term);
    assert SearchPattern(term) == "%" + body;
    PercentSkips(body, s, fold);
    forall i | 0 <= i <= |s|
      ensures Like(body, s[i..], fold) <==> i + |term| <= |s| && SameFolded(term, s[i..i + |term|], fold)
    {
      EscapedTermIsLiteral(term, "%", s[i..], fold);
      if i + |term| <= |s| {
        PercentMatchesAll(s[i..][|term|..], fold);
        assert s[i..][..|term|] == s[i..i + |term|];
      }
    }
    if i, j :| 0 <= i <= j <= |s| && SameFolded(term, s[i..j], fold) {
      assert j == i + |term|;
      assert Like(body, s[i..], fold);
    }
  }
}
