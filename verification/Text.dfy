/** String operations the services share. Case mapping and trimming are modelled on ASCII. */
module Text {

  function ToLowerChar(c: char): char {
    if 'A' <= c <= 'Z' then c + 32 as char else c
  }

  function ToLower(s: string): (r: string)
    ensures |r| == |s|
  {
    seq(|s|, i requires 0 <= i < |s| => ToLowerChar(s[i]))
  }

  predicate IsLower(s: string) { ToLower(s) == s }

  lemma ToLowerIsLower(s: string)
    ensures IsLower(ToLower(s))
  {
    assert forall i :: 0 <= i < |s| ==> ToLower(ToLower(s))[i] == ToLower(s)[i];
  }

  predicate IsSpace(c: char) { c in {' ', '\t', '\n', '\r', '\U{000B}', '\U{000C}'} }

  function Strip(s: string): (r: string)
    ensures |r| <= |s|
    ensures r != [] ==> !IsSpace(r[0]) && !IsSpace(r[|r| - 1])
    decreases |s|
  {
    if s == [] then s
    else if IsSpace(s[0]) then Strip(s[1..])
    else if IsSpace(s[|s| - 1]) then Strip(s[..|s| - 1])
    else s
  }

  /** The parts of `s` between occurrences of `sep`; never empty, as in Go and Python. */
  function Split<T(==)>(s: seq<T>, sep: T): (parts: seq<seq<T>>)
    ensures |parts| >= 1
  {
    if s == [] then [[]]
    else
      var rest := Split(s[1..], sep);
      if s[0] == sep then [[]] + rest else [[s[0]] + rest[0]] + rest[1..]
  }

  lemma LowerIsPointwise(s: string, i: nat)
    requires i < |s|
    ensures 'A' <= s[i] <= 'Z' ==> ToLower(s)[i] as int - 'a' as int == s[i] as int - 'A' as int
    ensures !('A' <= s[i] <= 'Z') ==> ToLower(s)[i] == s[i]
  {
  }

  ghost predicate IsBlank(s: string) { forall i :: 0 <= i < |s| ==> IsSpace(s[i]) }

  /** `inner` is `s` without blank ends. */
  ghost predicate IsCutFrom(s: string, left: string, inner: string, right: string) {
    s == left + inner + right && IsBlank(left) && IsBlank(right)
  }

  lemma OneMoreOnTheLeft(s: string, left: string, inner: string, right: string)
    requires s != "" && IsSpace(s[0]) && IsCutFrom(s[1..], left, inner, right)
    ensures IsCutFrom(s, [s[0]] + left, inner, right)
  {
    assert s == [s[0]] + s[1..];
  }

  lemma OneMoreOnTheRight(s: string, left: string, inner: string, right: string)
    requires s != "" && IsSpace(s[|s| - 1]) && IsCutFrom(s[..|s| - 1], left, inner, right)
    ensures IsCutFrom(s, left, inner, right + [s[|s| - 1]])
  {
    assert s == s[..|s| - 1] + [s[|s| - 1]];
  }

  /** Stripping cuts white space off both ends, and nothing else. */
  lemma {:induction false} StripCutsBlanks(s: string) returns (left: string, right: string)
    ensures IsCutFrom(s, left, Strip(s), right)
    decreases |s|
  {
    left, right := [], [];
    if s != [] {
      if IsSpace(s[0]) {
        left, right := StripCutsBlanks(s[1..]);
        OneMoreOnTheLeft(s, left, Strip(s), right);
        left := [s[0]] + left;
      } else if IsSpace(s[|s| - 1]) {
        left, right := StripCutsBlanks(s[..|s| - 1]);
        OneMoreOnTheRight(s, left, Strip(s), right);
        right := right + [s[|s| - 1]];
      } else {
        assert s == [] + s + [];
      }
    }
  }

  function Join<T>(parts: seq<seq<T>>, sep: T): seq<T>
    requires parts != []
  {
    if |parts| == 1 then parts[0] else parts[0] + [sep] + Join(parts[1..], sep)
  }

  /** Joining the parts gives the text back, and no part holds the separator. */
  lemma {:induction false} SplitThenJoin<T>(s: seq<T>, sep: T)
    ensures Join(Split(s, sep), sep) == s && forall i :: 0 <= i < |Split(s, sep)| ==> sep !in Split(s, sep)[i]
  {
    if s != [] {
      var rest := Split(s[1..], sep);
      SplitThenJoin(s[1..], sep);
      if s[0] == sep {
        assert ([[]] + rest)[1..] == rest;
      } else {
        assert ([[s[0]] + rest[0]] + rest[1..])[1..] == rest[1..];
      }
    }
  }

  lemma {:induction false} SplitNowhere<T>(s: seq<T>, sep: T)
    requires sep !in s
    ensures Split(s, sep) == [s]
  {
    if s != [] {
      SplitNowhere(s[1..], sep);
      assert [s[0]] + s[1..] == s;
    }
  }

  lemma {:induction false} SplitAtFirst<T>(s: seq<T>, rest: seq<T>, sep: T)
    requires sep !in s
    ensures Split(s + [sep] + rest, sep) == [s] + Split(rest, sep)
  {
    if s == [] {
      assert (s + [sep] + rest)[1..] == rest;
    } else {
      SplitAtFirst(s[1..], rest, sep);
      assert (s + [sep] + rest)[1..] == s[1..] + [sep] + rest;
      assert [s[0]] + s[1..] == s;
    }
  }

  /** And splitting joined parts gives the parts back. */
  lemma {:induction false} JoinThenSplit<T>(parts: seq<seq<T>>, sep: T)
    requires parts != [] && forall i :: 0 <= i < |parts| ==> sep !in parts[i]
    ensures Split(Join(parts, sep), sep) == parts
  {
    if |parts| == 1 {
      SplitNowhere(parts[0], sep);
    } else {
      JoinThenSplit(parts[1..], sep);
      SplitAtFirst(parts[0], Join(parts[1..], sep), sep);
    }
  }
}
