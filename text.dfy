/**
 * The Python `str` operations the OCR script calls, with the meaning Python
 * gives them: `endswith`, `replace` and `strip`. `StartsWith` and
 * `LastIndexOf` (`startswith`, `rfind`) serve the `os.path` functions, and
 * `Occurs`/`IndexOf` (`in`, `find`) serve the proofs about `replace`.
 * Strings are sequences of Unicode scalar values.
 */
module Text {

  /** Python's `s.endswith(suffix)`; every string ends with the empty string. */
  predicate EndsWith(s: string, suffix: string) {
    |suffix| <= |s| && s[|s| - |suffix|..] == suffix
  }

  /** Python's `s.startswith(prefix)`. */
  predicate StartsWith(s: string, prefix: string) {
    |prefix| <= |s| && s[..|prefix|] == prefix
  }

  /** `pat` occurs in `s` beginning at index `i`. */
  predicate OccursAt(s: string, pat: string, i: int) {
    0 <= i && i + |pat| <= |s| && s[i..i + |pat|] == pat
  }

  /** Python's `pat in s`. */
  predicate Occurs(s: string, pat: string) {
    exists i :: 0 <= i <= |s| && OccursAt(s, pat, i)
  }

  /** A common prefix cancels: two concatenations with the same head are equal exactly when their tails are. */
  lemma ConcatCancel(p: string, a: string, b: string)
    ensures p + a == p + b <==> a == b
  {
    if p + a == p + b {
      assert a == (p + a)[|p|..];
      assert b == (p + b)[|p|..];
    }
  }

  /** Python's `s.find(pat)`: the first index where `pat` occurs, or -1. */
  function IndexOf(s: string, pat: string): (i: int)
    ensures -1 <= i <= |s|
    ensures i >= 0 ==> OccursAt(s, pat, i)
    ensures forall j :: 0 <= j && (i < 0 || j < i) ==> !OccursAt(s, pat, j)
    decreases |s|
  {
    if |s| < |pat| then -1
    else if s[..|pat|] == pat then 0
    else
      var k := IndexOf(s[1..], pat);
      assert forall j :: 1 <= j && OccursAt(s, pat, j) ==> OccursAt(s[1..], pat, j - 1);
      if k < 0 then -1 else k + 1
  }

  /** Python's `s.rfind(c)` for a single character: the last index holding `c`, or -1. */
  function LastIndexOf(s: string, c: char): (i: int)
    ensures -1 <= i < |s|
    ensures i >= 0 ==> s[i] == c
    ensures forall k :: i < k < |s| ==> s[k] != c
  {
    if s == [] then -1
    else if s[|s| - 1] == c then |s| - 1
    else LastIndexOf(s[..|s| - 1], c)
  }

  /**
   * Python's `s.replace(pat, rep)` for a non-empty `pat`: every occurrence,
   * found left to right without overlap, is replaced.
   */
  function ReplaceAll(s: string, pat: string, rep: string): string
    requires pat != []
    decreases |s|
  {
    if |s| < |pat| then s
    else if s[..|pat|] == pat then rep + ReplaceAll(s[|pat|..], pat, rep)
    else [s[0]] + ReplaceAll(s[1..], pat, rep)
  }

  /** A string in which `pat` does not occur is left as it is by `replace`. */
  lemma {:induction false} ReplaceAllWithoutOccurrence(s: string, pat: string, rep: string)
    requires pat != [] && !Occurs(s, pat)
    ensures ReplaceAll(s, pat, rep) == s
    decreases |s|
  {
    if |s| >= |pat| {
      assert !OccursAt(s, pat, 0);
      OccursInTail(s, pat);
      ReplaceAllWithoutOccurrence(s[1..], pat, rep);
    }
  }

  /**
   * When `pat` does not occur in `front` and its first character does not
   * recur in it, `replace` rewrites first the occurrence right after `front`.
   */
  lemma {:induction false} ReplaceAfter(front: string, back: string, pat: string, rep: string)
    requires pat != [] && pat[0] !in pat[1..] && !Occurs(front, pat)
    ensures ReplaceAll(front + pat + back, pat, rep) == front + rep + ReplaceAll(back, pat, rep)
    decreases |front|
  {
    var s := front + pat + back;
    if front == [] {
      assert s[..|pat|] == pat && s[|pat|..] == back;
    } else {
      var rest := ReplaceAll(s[1..], pat, rep);
      assert rest == front[1..] + rep + ReplaceAll(back, pat, rep) by {
        OccursInTail(front, pat);
        ReplaceAfter(front[1..], back, pat, rep);
        assert s[1..] == front[1..] + pat + back;
      }
      assert ReplaceAll(s, pat, rep) == [s[0]] + rest by {
        NoOccurrenceAtFront(front, back, pat);
      }
      assert [s[0]] + front[1..] == front;
    }
  }

  /** Under the conditions of `ReplaceAfter`, `front + pat + back` does not begin with `pat`. */
  lemma NoOccurrenceAtFront(front: string, back: string, pat: string)
    requires pat != [] && pat[0] !in pat[1..] && !Occurs(front, pat) && front != []
    ensures |front + pat + back| >= |pat| && (front + pat + back)[..|pat|] != pat
  {
    var s := front + pat + back;
    assert s[|front|] == pat[0];
    if |front| >= |pat| {
      assert !OccursAt(front, pat, 0);
      assert s[..|pat|] == front[..|pat|];
    } else {
      assert pat[|front|] in pat[1..];
    }
  }

  /** An occurrence in the tail of a string is an occurrence in the string. */
  lemma OccursInTail(s: string, pat: string)
    requires s != []
    ensures Occurs(s[1..], pat) ==> Occurs(s, pat)
  {
    if Occurs(s[1..], pat) {
      var j :| 0 <= j <= |s[1..]| && OccursAt(s[1..], pat, j);
      assert OccursAt(s, pat, j + 1);
    }
  }

  /** Replacing one character by one character maps the string character by character. */
  lemma {:induction false} ReplaceCharPointwise(s: string, pat: string, rep: string)
    requires |pat| == 1 && |rep| == 1
    ensures |ReplaceAll(s, pat, rep)| == |s|
    ensures forall k :: 0 <= k < |s| ==>
      ReplaceAll(s, pat, rep)[k] == (if s[k] == pat[0] then rep[0] else s[k])
    decreases |s|
  {
    if s != [] {
      ReplaceCharPointwise(s[1..], pat, rep);
      assert s[..1] == [s[0]];
    }
  }

  /** Replacing a character that does not occur changes nothing. */
  lemma ReplaceCharAbsent(s: string, pat: string, rep: string)
    requires |pat| == 1 && |rep| == 1 && pat[0] !in s
    ensures ReplaceAll(s, pat, rep) == s
  {
    ReplaceCharPointwise(s, pat, rep);
  }

  /** Replacing one character by one character works on each part of a concatenation separately. */
  lemma ReplaceCharConcat(a: string, b: string, pat: string, rep: string)
    requires |pat| == 1 && |rep| == 1
    ensures ReplaceAll(a + b, pat, rep) == ReplaceAll(a, pat, rep) + ReplaceAll(b, pat, rep)
  {
    ReplaceCharPointwise(a + b, pat, rep);
    ReplaceCharPointwise(a, pat, rep);
    ReplaceCharPointwise(b, pat, rep);
  }

  /** The pattern alone is replaced by the replacement. */
  lemma ReplaceWhole(pat: string, rep: string)
    requires pat != []
    ensures ReplaceAll(pat, pat, rep) == rep
  {
    assert pat[..|pat|] == pat;
    assert ReplaceAll(pat[|pat|..], pat, rep) == [];
  }

  /** Replacing a non-empty pattern by a non-empty text gives the empty string only from the empty string. */
  lemma ReplaceAllEmpty(s: string, pat: string, rep: string)
    requires pat != [] && rep != []
    ensures ReplaceAll(s, pat, rep) == [] <==> s == []
  {
  }

  /**
   * Python's `str.isspace` for one character: the characters `strip()`
   * removes when called without arguments.
   */
  predicate IsSpace(c: char) {
    || ('\t' <= c <= '\r')
    || ('\U{1C}' <= c <= '\U{20}')
    || c == '\U{85}' || c == '\U{A0}' || c == '\U{1680}'
    || ('\U{2000}' <= c <= '\U{200A}')
    || c == '\U{2028}' || c == '\U{2029}' || c == '\U{202F}' || c == '\U{205F}'
    || c == '\U{3000}'
  }

  /** The scan `lstrip` makes: the first index from `lo` on that holds no whitespace, or `|s|`. */
  function SpanStart(s: string, lo: int): (i: int)
    requires 0 <= lo <= |s|
    ensures lo <= i <= |s|
    decreases |s| - lo
  {
    if lo == |s| || !IsSpace(s[lo]) then lo else SpanStart(s, lo + 1)
  }

  /** `SpanStart` skips whitespace only, and stops at the first character that is not whitespace. */
  lemma {:induction false} SpanStartSkipsSpaces(s: string, lo: int)
    requires 0 <= lo <= |s|
    ensures forall k :: lo <= k < SpanStart(s, lo) ==> IsSpace(s[k])
    ensures SpanStart(s, lo) < |s| ==> !IsSpace(s[SpanStart(s, lo)])
    decreases |s| - lo
  {
    if lo < |s| && IsSpace(s[lo]) {
      SpanStartSkipsSpaces(s, lo + 1);
    }
  }

  /** The scan `rstrip` makes on `s[lo..hi]`: the end left once trailing whitespace is dropped. */
  function SpanEnd(s: string, lo: int, hi: int): (j: int)
    requires 0 <= lo <= hi <= |s|
    ensures lo <= j <= hi
    decreases hi - lo
  {
    if hi == lo || !IsSpace(s[hi - 1]) then hi else SpanEnd(s, lo, hi - 1)
  }

  /** `SpanEnd` drops whitespace only, and stops after the last character that is not whitespace. */
  lemma {:induction false} SpanEndSkipsSpaces(s: string, lo: int, hi: int)
    requires 0 <= lo <= hi <= |s|
    ensures forall k :: SpanEnd(s, lo, hi) <= k < hi ==> IsSpace(s[k])
    ensures SpanEnd(s, lo, hi) > lo ==> !IsSpace(s[SpanEnd(s, lo, hi) - 1])
    decreases hi - lo
  {
    if hi > lo && IsSpace(s[hi - 1]) {
      SpanEndSkipsSpaces(s, lo, hi - 1);
    }
  }

  /** Python's `s.strip()`: leading whitespace dropped, then trailing whitespace. */
  function Strip(s: string): string {
    var i := SpanStart(s, 0);
    s[i..SpanEnd(s, i, |s|)]
  }

  /** `s[i..j]` is what is left of `s` once leading and trailing whitespace are removed. */
  ghost predicate IsStripped(s: string, i: int, j: int) {
    && 0 <= i <= j <= |s|
    && (forall k :: 0 <= k < i ==> IsSpace(s[k]))
    && (forall k :: j <= k < |s| ==> IsSpace(s[k]))
    && (i < j ==> !IsSpace(s[i]) && !IsSpace(s[j - 1]))
  }

  /** `strip()` removes exactly the leading and the trailing whitespace, and nothing from the middle. */
  lemma StripIsSlice(s: string) returns (i: nat, j: nat)
    ensures IsStripped(s, i, j) && Strip(s) == s[i..j]
  {
    i := SpanStart(s, 0);
    j := SpanEnd(s, i, |s|);
    SpanStartSkipsSpaces(s, 0);
    SpanEndSkipsSpaces(s, i, |s|);
  }

  /** Leading and trailing whitespace determine the stripped string uniquely. */
  lemma {:induction false} StripUnique(s: string, i: int, j: int)
    requires IsStripped(s, i, j)
    ensures Strip(s) == s[i..j]
  {
    var i', j' := StripIsSlice(s);
  }

  /** Surrounding a stripped slice with whitespace keeps it the stripped slice. */
  lemma PaddedIsStripped(a: string, b: string, c: string, i: int, j: int)
    requires forall k :: 0 <= k < |a| ==> IsSpace(a[k])
    requires forall k :: 0 <= k < |c| ==> IsSpace(c[k])
    requires IsStripped(b, i, j)
    ensures IsStripped(a + b + c, |a| + i, |a| + j)
  {
    var s := a + b + c;
    forall k | 0 <= k < |a| + i ensures IsSpace(s[k]) {
      if k >= |a| { assert s[k] == b[k - |a|]; }
    }
    forall k | |a| + j <= k < |s| ensures IsSpace(s[k]) {
      if k < |a| + |b| { assert s[k] == b[k - |a|]; } else { assert s[k] == c[k - |a| - |b|]; }
    }
  }

  /** Whitespace around a string does not change what `strip()` gives. */
  lemma StripPadded(a: string, b: string, c: string)
    requires forall k :: 0 <= k < |a| ==> IsSpace(a[k])
    requires forall k :: 0 <= k < |c| ==> IsSpace(c[k])
    ensures Strip(a + b + c) == Strip(b)
  {
    var i, j := StripIsSlice(b);
    var s := a + b + c;
    assert IsStripped(s, |a| + i, |a| + j) by { PaddedIsStripped(a, b, c, i, j); }
    assert Strip(s) == s[|a| + i..|a| + j] by { StripUnique(s, |a| + i, |a| + j); }
    MiddleSlice(a, b, c, i, j);
  }

  /** A slice of the middle part of a concatenation. */
  lemma MiddleSlice(a: string, b: string, c: string, i: int, j: int)
    requires 0 <= i <= j <= |b|
    ensures (a + b + c)[|a| + i..|a| + j] == b[i..j]
  {
    var s := a + b + c;
    var m := s[|a| + i..|a| + j];
    assert forall k :: 0 <= k < |m| ==> m[k] == b[i + k];
  }

  /** `strip()` only removes characters: what it returns holds no character the input lacks. */
  lemma StripKeepsCharacters(s: string, c: char)
    requires c !in s
    ensures c !in Strip(s)
  {
    var i, j := StripIsSlice(s);
    assert forall k :: 0 <= k < j - i ==> Strip(s)[k] == s[i + k];
  }

  /** Replacing characters by whitespace keeps a run of whitespace whitespace. */
  lemma ReplaceKeepsSpaces(s: string, pat: string, rep: string, lo: int, hi: int)
    requires |pat| == 1 && |rep| == 1 && IsSpace(rep[0])
    requires 0 <= lo <= hi <= |s| && forall k :: lo <= k < hi ==> IsSpace(s[k])
    ensures |ReplaceAll(s, pat, rep)| == |s|
    ensures forall k :: lo <= k < hi ==> IsSpace(ReplaceAll(s, pat, rep)[k])
  {
    ReplaceCharPointwise(s, pat, rep);
  }

  /** Replacing characters of the stripped slice is replacing them in place within the whole string. */
  lemma ReplaceCharSlice(s: string, pat: string, rep: string, i: int, j: int)
    requires |pat| == 1 && |rep| == 1 && 0 <= i <= j <= |s|
    ensures |ReplaceAll(s, pat, rep)| == |s|
    ensures ReplaceAll(s, pat, rep) == ReplaceAll(s, pat, rep)[..i] + ReplaceAll(s[i..j], pat, rep) + ReplaceAll(s, pat, rep)[j..]
  {
    ReplaceCharPointwise(s, pat, rep);
    ReplaceCharPointwise(s[i..j], pat, rep);
  }

  /**
   * When characters are replaced by whitespace, stripping first changes
   * nothing: the whitespace at the ends is stripped either way.
   */
  lemma StripBeforeReplace(s: string, pat: string, rep: string)
    requires |pat| == 1 && |rep| == 1 && IsSpace(rep[0])
    ensures Strip(ReplaceAll(Strip(s), pat, rep)) == Strip(ReplaceAll(s, pat, rep))
  {
    var i, j := StripIsSlice(s);
    var spaced := ReplaceAll(s, pat, rep);
    var inner := ReplaceAll(s[i..j], pat, rep);
    ReplaceCharSlice(s, pat, rep, i, j);
    ReplaceKeepsSpaces(s, pat, rep, 0, i);
    ReplaceKeepsSpaces(s, pat, rep, j, |s|);
    var front, back := spaced[..i], spaced[j..];
    assert forall k :: 0 <= k < |front| ==> front[k] == spaced[k];
    assert forall k :: 0 <= k < |back| ==> back[k] == spaced[j + k];
    StripPadded(front, inner, back);
  }

  /** What `strip()` returns neither begins nor ends with whitespace. */
  lemma StripEnds(s: string)
    ensures |Strip(s)| == 0 || (!IsSpace(Strip(s)[0]) && !IsSpace(Strip(s)[|Strip(s)| - 1]))
  {
    var i, j := StripIsSlice(s);
    if i < j {
      assert Strip(s)[0] == s[i] && Strip(s)[|Strip(s)| - 1] == s[j - 1];
    }
  }

  /** `strip()` is idempotent. */
  lemma StripIdempotent(s: string)
    ensures Strip(Strip(s)) == Strip(s)
  {
    var r := Strip(s);
    StripEnds(s);
    StripUnique(r, 0, |r|);
  }
}
