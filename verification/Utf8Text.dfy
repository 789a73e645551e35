/**
 Making sender-controlled text storable (sanitizeText and truncateRunes in mx/database.go).
 Go strings are byte strings; well-formedness is the grammar of section 4 of RFC 3629.
 */
module Utf8Text {

  type Byte = b: int | 0 <= b < 256

  const QUESTION_MARK: Byte := 0x3F

  predicate IsTail(b: Byte) { 0x80 <= b <= 0xBF }

  /** Length of the well-formed character at the head of `s`, or 0 when there is none. */
  function RuneLen(s: seq<Byte>): (n: nat)
    ensures n <= |s| && n <= 4
  {
    if s == [] then 0
    else if s[0] <= 0x7F then 1
    else if 0xC2 <= s[0] <= 0xDF then if |s| >= 2 && IsTail(s[1]) then 2 else 0
    else if 0xE0 <= s[0] <= 0xEF then
      if && |s| >= 3 && IsTail(s[1]) && IsTail(s[2])
         && (s[0] == 0xE0 ==> s[1] >= 0xA0) && (s[0] == 0xED ==> s[1] <= 0x9F) then 3 else 0
    else if 0xF0 <= s[0] <= 0xF4 then
      if && |s| >= 4 && IsTail(s[1]) && IsTail(s[2]) && IsTail(s[3])
         && (s[0] == 0xF0 ==> s[1] >= 0x90) && (s[0] == 0xF4 ==> s[1] <= 0x8F) then 4 else 0
    else 0
  }

  predicate IsValid(s: seq<Byte>)
    decreases |s|
  {
    s == [] || (RuneLen(s) > 0 && IsValid(s[RuneLen(s)..]))
  }

  predicate HasNoNul(s: seq<Byte>) { forall i :: 0 <= i < |s| ==> s[i] != 0 }

  // ------------------------------------------------------------------ operations

  /** strings.ReplaceAll(value, "\x00", ""). */
  function RemoveNul(s: seq<Byte>): seq<Byte> {
    if s == [] then [] else (if s[0] == 0 then [] else [s[0]]) + RemoveNul(s[1..])
  }

  /** strings.ToValidUTF8(value, "?"): each run of invalid bytes becomes one question mark. */
  function ToValid(s: seq<Byte>, inRun: bool): seq<Byte>
    decreases |s|
  {
    if s == [] then []
    else if RuneLen(s) > 0 then s[..RuneLen(s)] + ToValid(s[RuneLen(s)..], false)
    else (if inRun then [] else [QUESTION_MARK]) + ToValid(s[1..], true)
  }

  /** Where truncateRunes cuts: the last position up to `k` that starts a character. */
  function CutAt(s: seq<Byte>, k: nat): nat
    requires k < |s|
  {
    if k == 0 || !IsTail(s[k]) then k else CutAt(s, k - 1)
  }

  function Truncate(s: seq<Byte>, maxBytes: nat): seq<Byte> {
    if |s| <= maxBytes then s else (CutInRange(s, maxBytes); s[..CutAt(s, maxBytes)])
  }

  function Sanitize(s: seq<Byte>, maxLen: int): seq<Byte> {
    var clean := RemoveNul(s);
    var valid := if IsValid(clean) then clean else ToValid(clean, false);
    if maxLen > 0 then Truncate(valid, maxLen) else valid
  }

  method TruncateRunes(value: seq<Byte>, maxBytes: int) returns (r: seq<Byte>)
    requires maxBytes >= 0
    ensures r == Truncate(value, maxBytes)
    ensures IsValid(value) ==> IsLongestValidPrefix(r, value, maxBytes)
  {
    TruncateIsLongest(value, maxBytes);
    if |value| <= maxBytes {
      return value;
    }
    var cut := maxBytes;
    while cut > 0 && IsTail(value[cut])
      invariant 0 <= cut <= maxBytes && CutAt(value, cut) == CutAt(value, maxBytes)
      decreases cut
    {
      cut := cut - 1;
    }
    return value[..cut];
  }

  method SanitizeText(value: seq<Byte>, maxLen: int) returns (r: seq<Byte>)
    ensures r == Sanitize(value, maxLen)
    ensures IsValid(r) && HasNoNul(r) && (maxLen > 0 ==> |r| <= maxLen)
    ensures maxLen > 0 && IsValid(RemoveNul(value)) ==> IsLongestValidPrefix(r, RemoveNul(value), maxLen)
  {
    SanitizeIsStorable(value, maxLen);
    SanitizeKeepsAllItCan(value, maxLen);
    r := RemoveNul(value);
    if !IsValid(r) {
      r := ToValid(r, false);
    }
    if maxLen > 0 {
      r := TruncateRunes(r, maxLen);
    }
  }

  // ------------------------------------------------------- what well-formed text is

  predicate IsScalar(c: int) { 0 <= c <= 0x10FFFF && !(0xD800 <= c <= 0xDFFF) }

  /** The encoding of a character, as section 3 of RFC 3629 tabulates it. */
  function Encode(c: int): (s: seq<Byte>)
    requires IsScalar(c)
    ensures s != []
  {
    if c < 0x80 then [c]
    else if c < 0x800 then [0xC0 + c / 0x40, 0x80 + c % 0x40]
    else if c < 0x1_0000 then [0xE0 + c / 0x40 / 0x40, 0x80 + c / 0x40 % 0x40, 0x80 + c % 0x40]
    else [0xF0 + c / 0x40 / 0x40 / 0x40, 0x80 + c / 0x40 / 0x40 % 0x40, 0x80 + c / 0x40 % 0x40, 0x80 + c % 0x40]
  }

  lemma EncodedIsRune(c: int)
    requires IsScalar(c)
    ensures RuneLen(Encode(c)) == |Encode(c)|
  {
  }

  /** Six more bits at the end of a number. */
  function Append(c: int, b: int): (r: int)
    requires 0x80 <= b <= 0xBF
    ensures r / 0x40 == c && 0x80 + r % 0x40 == b
  {
    c * 0x40 + (b - 0x80)
  }

  /** `c` is the character whose encoding is the first `n` bytes. */
  ghost predicate IsFirst(s: seq<Byte>, n: nat, c: int) {
    n <= |s| && IsScalar(c) && Encode(c) == s[..n]
  }

  lemma ShortRune(s: seq<Byte>) returns (c: int)
    requires 1 <= RuneLen(s) <= 2
    ensures IsFirst(s, RuneLen(s), c)
  {
    c := if RuneLen(s) == 1 then s[0] else Append(s[0] - 0xC0, s[1]);
  }

  lemma ThreeByteRune(s: seq<Byte>) returns (c: int)
    requires RuneLen(s) == 3
    ensures IsFirst(s, 3, c)
  {
    c := Append(Append(s[0] - 0xE0, s[1]), s[2]);
  }

  lemma FourByteRune(s: seq<Byte>) returns (c: int)
    requires RuneLen(s) == 4
    ensures IsFirst(s, 4, c)
  {
    c := Append(Append(Append(s[0] - 0xF0, s[1]), s[2]), s[3]);
  }

  /** The character whose encoding starts the text. */
  lemma RuneIsEncoded(s: seq<Byte>) returns (c: int)
    requires RuneLen(s) > 0
    ensures IsFirst(s, RuneLen(s), c)
  {
    if RuneLen(s) <= 2 {
      c := ShortRune(s);
    } else if RuneLen(s) == 3 {
      c := ThreeByteRune(s);
    } else {
      c := FourByteRune(s);
    }
  }

  function EncodeAll(cs: seq<int>): seq<Byte>
    requires forall c :: c in cs ==> IsScalar(c)
  {
    if cs == [] then [] else Encode(cs[0]) + EncodeAll(cs[1..])
  }

  ghost predicate AreScalars(cs: seq<int>) { forall c :: c in cs ==> IsScalar(c) }

  /** Every sequence of encoded characters is valid text, */
  lemma {:induction false} EncodedIsValid(cs: seq<int>)
    requires AreScalars(cs)
    ensures IsValid(EncodeAll(cs))
  {
    if cs != [] {
      EncodedIsValid(cs[1..]);
      EncodedIsRune(cs[0]);
      RuneThenRest(Encode(cs[0]), EncodeAll(cs[1..]));
    }
  }

  /** and nothing else is. */
  lemma {:induction false} ValidIsEncoded(s: seq<Byte>) returns (cs: seq<int>)
    requires IsValid(s)
    ensures AreScalars(cs) && EncodeAll(cs) == s
    decreases |s|
  {
    cs := [];
    if s != [] {
      var n := RuneLen(s);
      var c := RuneIsEncoded(s);
      var rest := ValidIsEncoded(s[n..]);
      cs := [c] + rest;
      assert cs[1..] == rest;
      assert s == s[..n] + s[n..];
    }
  }

  // ------------------------------------------------------------------ truncation

  ghost predicate IsLongestValidPrefix(r: seq<Byte>, s: seq<Byte>, maxBytes: nat) {
    && r <= s && |r| <= maxBytes && IsValid(r)
    && forall k :: 0 <= k <= |s| && k <= maxBytes && IsValid(s[..k]) ==> k <= |r|
  }

  lemma {:induction false} CutInRange(s: seq<Byte>, k: nat)
    requires k < |s|
    ensures CutAt(s, k) <= k
    ensures CutAt(s, k) == 0 || !IsTail(s[CutAt(s, k)])
    ensures forall j :: CutAt(s, k) < j <= k ==> IsTail(s[j])
  {
    if k > 0 && IsTail(s[k]) {
      CutInRange(s, k - 1);
    }
  }

  lemma CutInsideRune(s: seq<Byte>, k: nat)
    requires k < RuneLen(s)
    ensures RuneLen(s[..k]) == 0 && (k > 0 ==> IsTail(s[k]))
  {
  }

  lemma RuneSurvivesCut(s: seq<Byte>, k: nat)
    requires RuneLen(s) <= k <= |s|
    ensures RuneLen(s) > 0 ==> RuneLen(s[..k]) == RuneLen(s)
  {
  }

  /** A cut of well-formed text is well formed exactly when it does not fall inside a character. */
  lemma {:induction false} CutIsValidIff(s: seq<Byte>, k: nat)
    requires IsValid(s) && k <= |s|
    ensures IsValid(s[..k]) <==> k == |s| || !IsTail(s[k])
    decreases |s|
  {
    if s != [] && k > 0 {
      var n := RuneLen(s);
      if k < n {
        CutInsideRune(s, k);
      } else {
        RuneSurvivesCut(s, k);
        assert s[..k][n..] == s[n..][..k - n];
        CutIsValidIff(s[n..], k - n);
      }
    }
  }

  lemma TruncateIsLongest(s: seq<Byte>, maxBytes: nat)
    ensures IsValid(s) ==> IsLongestValidPrefix(Truncate(s, maxBytes), s, maxBytes)
  {
    if IsValid(s) {
      if |s| <= maxBytes {
        assert s[..|s|] == s;
      } else {
        CutInRange(s, maxBytes);
        CutIsValidIff(s, CutAt(s, maxBytes));
        CutIsValidIff(s, 0);
        forall k | 0 <= k <= |s| && k <= maxBytes && IsValid(s[..k]) ensures k <= CutAt(s, maxBytes) {
          CutIsValidIff(s, k);
        }
      }
    }
  }

  // ------------------------------------------------------------------ sanitizing

  lemma {:induction false} RemoveNulIsClean(s: seq<Byte>)
    ensures HasNoNul(RemoveNul(s)) && |RemoveNul(s)| <= |s|
    ensures HasNoNul(s) ==> RemoveNul(s) == s
  {
    if s != [] {
      RemoveNulIsClean(s[1..]);
      assert HasNoNul(s) ==> HasNoNul(s[1..]);
    }
  }

  lemma RuneThenRest(rune: seq<Byte>, rest: seq<Byte>)
    requires rune != [] && RuneLen(rune) == |rune|
    ensures RuneLen(rune + rest) == |rune| && (rune + rest)[|rune|..] == rest
  {
  }

  lemma NoNulInPieces(s: seq<Byte>, n: nat)
    requires HasNoNul(s) && n <= |s|
    ensures HasNoNul(s[..n]) && HasNoNul(s[n..])
  {
  }

  lemma NoNulTogether(s: seq<Byte>, t: seq<Byte>)
    requires HasNoNul(s) && HasNoNul(t)
    ensures HasNoNul(s + t)
  {
  }

  lemma {:induction false} ToValidHasNoNul(s: seq<Byte>, inRun: bool)
    requires HasNoNul(s)
    ensures HasNoNul(ToValid(s, inRun))
    decreases |s|
  {
    if s != [] {
      var n := if RuneLen(s) > 0 then RuneLen(s) else 1;
      NoNulInPieces(s, n);
      ToValidHasNoNul(s[n..], RuneLen(s) == 0);
      var head := if RuneLen(s) > 0 then s[..n] else if inRun then [] else [QUESTION_MARK];
      NoNulTogether(head, ToValid(s[n..], RuneLen(s) == 0));
    }
  }

  lemma {:induction false} ToValidIsValid(s: seq<Byte>, inRun: bool)
    ensures IsValid(ToValid(s, inRun)) && |ToValid(s, inRun)| <= |s|
    ensures HasNoNul(s) ==> HasNoNul(ToValid(s, inRun))
    decreases |s|
  {
    if s != [] {
      var n := RuneLen(s);
      if n > 0 {
        ToValidIsValid(s[n..], false);
        assert RuneLen(s[..n]) == n by {
          RuneSurvivesCut(s, n);
        }
        RuneThenRest(s[..n], ToValid(s[n..], false));
      } else {
        var rest := ToValid(s[1..], true);
        ToValidIsValid(s[1..], true);
        RuneThenRest([QUESTION_MARK], rest);
        assert [] + rest == rest;
        assert ToValid(s, inRun) == if inRun then rest else [QUESTION_MARK] + rest;
      }
    }
    if HasNoNul(s) {
      ToValidHasNoNul(s, inRun);
    }
  }

  lemma ToValidOneRune(rune: seq<Byte>, rest: seq<Byte>, inRun: bool)
    requires rune != [] && RuneLen(rune) == |rune|
    ensures ToValid(rune + rest, inRun) == rune + ToValid(rest, false)
  {
    RuneThenRest(rune, rest);
    assert (rune + rest)[..|rune|] == rune;
  }

  lemma SplitAppend(s: seq<Byte>, t: seq<Byte>, n: nat)
    requires n <= |s|
    ensures s + t == s[..n] + (s[n..] + t)
  {
  }

  /** Well-formed text at the front passes through unchanged, whatever follows it. */
  lemma {:induction false} ToValidKeepsValidPrefix(valid: seq<Byte>, rest: seq<Byte>, inRun: bool)
    requires IsValid(valid)
    ensures ToValid(valid + rest, inRun) == valid + ToValid(rest, inRun && valid == [])
    decreases |valid|
  {
    if valid == [] {
      assert valid + rest == rest;
    } else {
      var n := RuneLen(valid);
      var rune, more, tail := valid[..n], valid[n..], ToValid(rest, false);
      assert RuneLen(rune) == n by {
        RuneSurvivesCut(valid, n);
      }
      assert ToValid(rune + (more + rest), inRun) == rune + (more + tail) by {
        ToValidOneRune(rune, more + rest, inRun);
        ToValidKeepsValidPrefix(more, rest, false);
      }
      SplitAppend(valid, rest, n);
      SplitAppend(valid, tail, n);
    }
  }

  /** A maximal run of bytes of which none starts a character collapses into one mark. */
  lemma {:induction false} ToValidCollapsesRun(s: seq<Byte>, n: nat, inRun: bool)
    requires 0 < n <= |s| && forall i :: 0 <= i < n ==> RuneLen(s[i..]) == 0
    ensures ToValid(s, inRun) == (if inRun then [] else ['?' as int]) + ToValid(s[n..], true)
    decreases n
  {
    assert RuneLen(s) == 0 by {
      assert s[0..] == s;
    }
    if n > 1 {
      forall i | 0 <= i < n - 1 ensures RuneLen(s[1..][i..]) == 0 {
        assert s[1..][i..] == s[i + 1..];
      }
      assert ToValid(s[1..], true) == ToValid(s[n..], true) by {
        ToValidCollapsesRun(s[1..], n - 1, true);
        assert s[1..][n - 1..] == s[n..];
      }
    }
  }

  lemma PrefixHasNoNul(s: seq<Byte>, p: seq<Byte>)
    requires HasNoNul(s) && p <= s
    ensures HasNoNul(p)
  {
  }

  /** For every byte string the result can be stored: valid UTF-8, no NUL, within the column. */
  lemma SanitizeIsStorable(s: seq<Byte>, maxLen: int)
    ensures var r := Sanitize(s, maxLen); IsValid(r) && HasNoNul(r) && (maxLen > 0 ==> |r| <= maxLen)
  {
    var clean := RemoveNul(s);
    RemoveNulIsClean(s);
    ToValidIsValid(clean, false);
    var valid := if IsValid(clean) then clean else ToValid(clean, false);
    if maxLen > 0 {
      TruncateIsLongest(valid, maxLen);
      PrefixHasNoNul(valid, Truncate(valid, maxLen));
    }
  }

  /** Exactly the storable strings pass through unchanged. */
  lemma SanitizeFixesExactlyTheStorable(s: seq<Byte>, maxLen: int)
    ensures Sanitize(s, maxLen) == s <==> IsValid(s) && HasNoNul(s) && (maxLen > 0 ==> |s| <= maxLen)
  {
    SanitizeIsStorable(s, maxLen);
    RemoveNulIsClean(s);
  }

  ghost predicate IsIncreasing(at: seq<nat>) { forall i, j :: 0 <= i < j < |at| ==> at[i] < at[j] }

  /** `r` is what stands in `s` at the positions `at`. */
  ghost predicate StandsAt(s: seq<Byte>, r: seq<Byte>, at: seq<nat>) {
    |at| == |r| && forall i :: 0 <= i < |at| ==> at[i] < |s| && r[i] == s[at[i]]
  }

  ghost predicate AreAllNonNul(s: seq<Byte>, at: seq<nat>) {
    forall k: nat :: k in at <==> k < |s| && s[k] != 0
  }

  function ShiftBy(at: seq<nat>, n: nat): seq<nat> {
    seq(|at|, i requires 0 <= i < |at| => at[i] + n)
  }

  lemma ShiftedMembers(at: seq<nat>, n: nat)
    ensures forall k: nat :: k in ShiftBy(at, n) <==> k >= n && k - n in at
  {
    forall k: nat ensures k in ShiftBy(at, n) <==> k >= n && k - n in at {
      if k >= n && k - n in at {
        var i :| 0 <= i < |at| && at[i] == k - n;
        assert ShiftBy(at, n)[i] == k;
      }
    }
  }

  lemma StandsAfterHead(s: seq<Byte>, r: seq<Byte>, tail: seq<nat>, head: seq<Byte>, at: seq<nat>)
    requires s != [] && StandsAt(s[1..], r, tail) && IsIncreasing(tail)
    requires if head == [] then at == ShiftBy(tail, 1) else head == [s[0]] && at == [0] + ShiftBy(tail, 1)
    ensures StandsAt(s, head + r, at) && IsIncreasing(at)
  {
  }

  lemma AllAfterHead(s: seq<Byte>, tail: seq<nat>, head: seq<nat>)
    requires s != [] && AreAllNonNul(s[1..], tail) && head == (if s[0] == 0 then [] else [0])
    ensures AreAllNonNul(s, head + ShiftBy(tail, 1))
  {
    ShiftedMembers(tail, 1);
    forall k: nat ensures k in head + ShiftBy(tail, 1) <==> k < |s| && s[k] != 0 {
      assert k in head + ShiftBy(tail, 1) <==> k in head || k in ShiftBy(tail, 1);
      assert 0 < k < |s| ==> s[k] == s[1..][k - 1];
    }
  }

  /** Removing NUL keeps exactly the other bytes, in their order. */
  lemma {:induction false} RemoveNulKeepsTheRest(s: seq<Byte>) returns (at: seq<nat>)
    ensures IsIncreasing(at) && StandsAt(s, RemoveNul(s), at) && AreAllNonNul(s, at)
  {
    at := [];
    if s != [] {
      var tail := RemoveNulKeepsTheRest(s[1..]);
      var head: seq<nat> := if s[0] == 0 then [] else [0];
      at := head + ShiftBy(tail, 1);
      AllAfterHead(s, tail, head);
      assert head == [] ==> at == ShiftBy(tail, 1);
      StandsAfterHead(s, RemoveNul(s[1..]), tail, if s[0] == 0 then [] else [s[0]], at);
    }
  }

  /**
   What is left of a text: without its NUL bytes, repaired if it is not valid, the longest
   valid beginning of that which fits. Valid text loses nothing but NUL and what is too long.
   */
  lemma SanitizeKeepsAllItCan(s: seq<Byte>, maxLen: int)
    ensures var repaired := if IsValid(RemoveNul(s)) then RemoveNul(s) else ToValid(RemoveNul(s), false);
      if maxLen > 0 then IsLongestValidPrefix(Sanitize(s, maxLen), repaired, maxLen) else Sanitize(s, maxLen) == repaired
  {
    ToValidIsValid(RemoveNul(s), false);
    if maxLen > 0 {
      TruncateIsLongest(if IsValid(RemoveNul(s)) then RemoveNul(s) else ToValid(RemoveNul(s), false), maxLen);
    }
  }

  lemma SanitizeIsIdempotent(s: seq<Byte>, maxLen: int)
    ensures Sanitize(Sanitize(s, maxLen), maxLen) == Sanitize(s, maxLen)
  {
    SanitizeIsStorable(s, maxLen);
    SanitizeFixesExactlyTheStorable(Sanitize(s, maxLen), maxLen);
  }
}
