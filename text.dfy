/** The Python string operations the publisher relies on, over `string` (a sequence of
    Unicode scalar values). */
module Text {

  datatype Option<T> = None | Some(value: T)

  /** The characters for which Python's `str.isspace()` holds; `str.strip()` removes these. */
  predicate IsSpace(c: char) {
    || c == ' ' || ('\t' <= c <= '\r') || ('\U{1c}' <= c <= '\U{1f}')
    || c == '\U{85}' || c == '\U{a0}' || c == '\U{1680}' || ('\U{2000}' <= c <= '\U{200a}')
    || c == '\U{2028}' || c == '\U{2029}' || c == '\U{202f}' || c == '\U{205f}' || c == '\U{3000}'
  }

  /** The characters at which Python's `str.splitlines()` ends a line. */
  predicate IsLineBreak(c: char) {
    || c == '\n' || c == '\r' || c == '\U{0b}' || c == '\U{0c}'
    || c == '\U{1c}' || c == '\U{1d}' || c == '\U{1e}'
    || c == '\U{85}' || c == '\U{2028}' || c == '\U{2029}'
  }

  /** The index of the first non-whitespace character at or after `i`, or `|s|`. */
  function SkipSpaces(s: string, i: nat): (r: nat)
    requires i <= |s|
    decreases |s| - i
    ensures i <= r <= |s|
  {
    if i == |s| || !IsSpace(s[i]) then i else SkipSpaces(s, i + 1)
  }

  /** The end of `s[lo..j]` once its trailing whitespace is dropped. */
  function TrimEnd(s: string, lo: nat, j: nat): (r: nat)
    requires lo <= j <= |s|
    decreases j - lo
    ensures lo <= r <= j
  {
    if j == lo || !IsSpace(s[j - 1]) then j else TrimEnd(s, lo, j - 1)
  }

  /** `s.strip()`: `s` without its leading and trailing whitespace. */
  function Strip(s: string): string {
    var start := SkipSpaces(s, 0);
    s[start..TrimEnd(s, start, |s|)]
  }

  lemma {:induction false} SkipSpacesMeaning(s: string, i: nat)
    requires i <= |s|
    ensures forall t :: i <= t < SkipSpaces(s, i) ==> IsSpace(s[t])
    ensures SkipSpaces(s, i) < |s| ==> !IsSpace(s[SkipSpaces(s, i)])
    decreases |s| - i
  {
    if i < |s| && IsSpace(s[i]) {
      SkipSpacesMeaning(s, i + 1);
    }
  }

  lemma {:induction false} TrimEndMeaning(s: string, lo: nat, j: nat)
    requires lo <= j <= |s|
    ensures forall t :: TrimEnd(s, lo, j) <= t < j ==> IsSpace(s[t])
    ensures lo < TrimEnd(s, lo, j) ==> !IsSpace(s[TrimEnd(s, lo, j) - 1])
    decreases j - lo
  {
    if lo < j && IsSpace(s[j - 1]) {
      TrimEndMeaning(s, lo, j - 1);
    }
  }

  /** The stripped string is a slice of `s` that neither begins nor ends with whitespace,
      and everything cut off on either side is whitespace. */
  lemma StripMeaning(s: string)
    ensures exists a, b :: (0 <= a <= b <= |s| && Strip(s) == s[a..b]
      && (forall t :: 0 <= t < a ==> IsSpace(s[t]))
      && (forall t :: b <= t < |s| ==> IsSpace(s[t])))
    ensures Strip(s) != [] ==> !IsSpace(Strip(s)[0]) && !IsSpace(Strip(s)[|Strip(s)| - 1])
  {
    var a := SkipSpaces(s, 0);
    var b := TrimEnd(s, a, |s|);
    SkipSpacesMeaning(s, 0);
    TrimEndMeaning(s, a, |s|);
    assert Strip(s) == s[a..b];
  }

  /** The index of the first `c` in `s` at or after `from`. */
  function IndexOf(s: string, c: char, from: nat): (r: Option<nat>)
    decreases |s| - from
    ensures r.Some? ==> from <= r.value < |s| && s[r.value] == c
    ensures r.Some? ==> forall t :: from <= t < r.value ==> s[t] != c
    ensures r.None? ==> forall t :: from <= t < |s| ==> s[t] != c
  {
    if from >= |s| then None
    else if s[from] == c then Some(from)
    else IndexOf(s, c, from + 1)
  }

  /** `s.split(c, 1)` for a separator that occurs in `s`: the text before and after its first
      occurrence. */
  function SplitAtFirst(s: string, c: char): (r: (string, string))
    requires c in s
    ensures r.0 + [c] + r.1 == s
    ensures c !in r.0
  {
    match IndexOf(s, c, 0)
    case Some(i) =>
      assert s[..i] + [c] + s[i + 1..] == s[..i] + s[i..];
      (s[..i], s[i + 1..])
    case None => assert false; ("", "")
  }

  /** `s.startswith(prefix)`. */
  predicate StartsWith(s: string, prefix: string) {
    |prefix| <= |s| && s[..|prefix|] == prefix
  }

  /** `t` occurs in `s` at index `i`. */
  predicate OccursAt(s: string, t: string, i: nat) {
    i + |t| <= |s| && s[i..i + |t|] == t
  }

  /** Python's `t in s` on strings. */
  predicate Contains(s: string, t: string)
    decreases |s|
  {
    StartsWith(s, t) || (s != [] && Contains(s[1..], t))
  }

  lemma {:induction false} ContainsIff(s: string, t: string)
    ensures Contains(s, t) <==> exists i: nat :: OccursAt(s, t, i)
    decreases |s|
  {
    if s != [] {
      ContainsIff(s[1..], t);
      forall i: nat | OccursAt(s[1..], t, i)
        ensures OccursAt(s, t, i + 1)
      {
        assert s[1..][i..i + |t|] == s[i + 1..i + 1 + |t|];
      }
      if !StartsWith(s, t) && exists i: nat :: OccursAt(s, t, i) {
        var i: nat :| OccursAt(s, t, i);
        assert i != 0;
        assert s[1..][i - 1..i - 1 + |t|] == s[i..i + |t|];
        assert OccursAt(s[1..], t, i - 1);
      }
      if StartsWith(s, t) {
        assert OccursAt(s, t, 0);
      }
    } else {
      if exists i: nat :: OccursAt(s, t, i) {
        var i: nat :| OccursAt(s, t, i);
        assert |t| == 0;
        assert StartsWith(s, t);
      }
      if Contains(s, t) {
        assert OccursAt(s, t, 0);
      }
    }
  }

  lemma {:induction false} ContainsLength(s: string, t: string)
    requires Contains(s, t)
    ensures |t| <= |s|
    decreases |s|
  {
    if !StartsWith(s, t) {
      ContainsLength(s[1..], t);
    }
  }

  /** ASCII lower-casing of one character. */
  function LowerChar(c: char): char {
    if 'A' <= c <= 'Z' then (c as int + 32) as char else c
  }

  /** `s.lower()`, restricted to ASCII letters. */
  function Lower(s: string): (r: string)
    ensures |r| == |s|
    ensures forall i :: 0 <= i < |s| ==> r[i] == LowerChar(s[i])
  {
    if s == [] then [] else [LowerChar(s[0])] + Lower(s[1..])
  }

  /** `a` and `b` differ at most in the case of ASCII letters. */
  predicate EqualsIgnoringCase(a: string, b: string) {
    |a| == |b| && forall i :: 0 <= i < |a| ==> LowerChar(a[i]) == LowerChar(b[i])
  }

  /** Lower-casing one string and comparing it with an already lower-case one is a
      case-insensitive comparison. */
  lemma LowerEqualsIff(a: string, b: string)
    requires forall i :: 0 <= i < |b| ==> LowerChar(b[i]) == b[i]
    ensures Lower(a) == b <==> EqualsIgnoringCase(a, b)
  {
    if EqualsIgnoringCase(a, b) {
      assert forall i :: 0 <= i < |a| ==> Lower(a)[i] == b[i];
    }
  }

  /** The strings of a sequence, as a set. */
  function ElementsOf(s: seq<string>): set<string> {
    set i | 0 <= i < |s| :: s[i]
  }

  /** The index of the first line break at or after `from`, or `|s|` when there is none. */
  function BreakIndex(s: string, from: nat): (r: nat)
    requires from <= |s|
    decreases |s| - from
    ensures from <= r <= |s|
    ensures r < |s| ==> IsLineBreak(s[r])
    ensures forall t :: from <= t < r ==> !IsLineBreak(s[t])
  {
    if from == |s| || IsLineBreak(s[from]) then from else BreakIndex(s, from + 1)
  }

  /** `s.splitlines()`: the lines of `s` without their terminators; "\r\n" is one terminator,
      and a terminator at the very end does not open an empty last line. */
  function Lines(s: string): (r: seq<string>)
    decreases |s|
    ensures s != [] ==> |r| > 0
  {
    if s == [] then []
    else
      var b := BreakIndex(s, 0);
      if b == |s| then [s]
      else
        var next := if s[b] == '\r' && b + 1 < |s| && s[b + 1] == '\n' then b + 2 else b + 1;
        [s[..b]] + Lines(s[next..])
  }

  /** No line of `s.splitlines()` holds a line break: every terminator is cut out. */
  lemma {:induction false} LinesHaveNoBreaks(s: string)
    decreases |s|
    ensures forall k, t :: 0 <= k < |Lines(s)| && 0 <= t < |Lines(s)[k]| ==> !IsLineBreak(Lines(s)[k][t])
  {
    if s != [] {
      var b := BreakIndex(s, 0);
      if b < |s| {
        var next := if s[b] == '\r' && b + 1 < |s| && s[b + 1] == '\n' then b + 2 else b + 1;
        LinesHaveNoBreaks(s[next..]);
        assert Lines(s) == [s[..b]] + Lines(s[next..]);
      }
    }
  }

  /** For instance, `"a\r\nb"` gives the two lines `a` and `b`. */
  lemma LinesCrLfExample()
    ensures Lines("a\r\nb") == ["a", "b"]
  {
    var s := "a\r\nb";
    assert BreakIndex(s, 0) == 1;
    assert s[..1] == "a" && s[3..] == "b";
    assert BreakIndex("b", 0) == 1;
    assert Lines("b") == ["b"];
  }

  /** `s` holds no line break. */
  predicate NoBreaks(s: string) {
    forall t :: 0 <= t < |s| ==> !IsLineBreak(s[t])
  }

  /** A line without breaks followed by `\n` is the first line, and the rest is split the
      same way. */
  lemma LinesFirst(line: string, rest: string)
    requires NoBreaks(line)
    ensures Lines(line + "\n" + rest) == [line] + Lines(rest)
  {
    var s := line + "\n" + rest;
    assert s[|line|] == '\n';
    assert forall t :: 0 <= t < |line| ==> s[t] == line[t];
    assert BreakIndex(s, 0) == |line|;
    assert s[..|line|] == line && s[|line| + 1..] == rest;
  }

  /** A non-empty string without breaks is one line. */
  lemma LinesSingle(line: string)
    requires line != [] && NoBreaks(line)
    ensures Lines(line) == [line]
  {
    assert BreakIndex(line, 0) == |line|;
  }

  /** Three lines without breaks, each ended by `\n`, followed by a non-empty last line. */
  lemma LinesFour(a: string, b: string, c: string, d: string)
    requires NoBreaks(a) && NoBreaks(b) && NoBreaks(c) && NoBreaks(d) && d != []
    ensures Lines(a + "\n" + (b + "\n" + (c + "\n" + d))) == [a, b, c, d]
  {
    LinesSingle(d);
    LinesFirst(c, d);
    LinesFirst(b, c + "\n" + d);
    LinesFirst(a, b + "\n" + (c + "\n" + d));
  }

  /** A string that neither begins nor ends with whitespace is its own `strip()`. */
  lemma StripUnchanged(s: string)
    requires s != [] && !IsSpace(s[0]) && !IsSpace(s[|s| - 1])
    ensures Strip(s) == s
  {
    assert SkipSpaces(s, 0) == 0;
    assert TrimEnd(s, 0, |s|) == |s|;
  }

  /** `s.replace(pat, rep)` for a non-empty `pat`: every non-overlapping occurrence, found
      from left to right, is replaced. */
  function ReplaceAll(s: string, pat: string, rep: string): (r: string)
    requires pat != []
    decreases |s|
    ensures rep == [] ==> |r| <= |s|
  {
    if |s| < |pat| then s
    else if s[..|pat|] == pat then rep + ReplaceAll(s[|pat|..], pat, rep)
    else [s[0]] + ReplaceAll(s[1..], pat, rep)
  }

  /** Deleting every occurrence of `pat` leaves `s` unchanged exactly when `pat` does not occur. */
  lemma {:induction false} DeleteAllUnchangedIff(s: string, pat: string)
    requires pat != []
    ensures ReplaceAll(s, pat, "") == s <==> !Contains(s, pat)
    decreases |s|
  {
    if |s| < |pat| {
      if Contains(s, pat) {
        ContainsLength(s, pat);
      }
    } else if s[..|pat|] == pat {
      assert StartsWith(s, pat);
      assert |ReplaceAll(s, pat, "")| < |s|;
    } else {
      DeleteAllUnchangedIff(s[1..], pat);
      assert !StartsWith(s, pat);
      var tail := ReplaceAll(s[1..], pat, "");
      assert ReplaceAll(s, pat, "") == [s[0]] + tail;
      if tail == s[1..] {
        assert [s[0]] + s[1..] == s;
      } else {
        assert ([s[0]] + tail)[1..] == tail;
      }
    }
  }
}
