/** Character classes and the small string operations (lower/upper casing, strip, split,
    substring tests, decimal digits) that every script relies on.  Python's Unicode-aware
    `\s`, `\w`, `\d`, `str.lower`, `str.upper` and `str.strip` are modelled on ASCII. */
module Chars {

  /** Python's `\s` and `str.isspace`: space, tab, newline, carriage return, vertical tab, form feed. */
  predicate IsSpace(c: char) {
    c == ' ' || c == '\t' || c == '\n' || c == '\r' || c == '\U{0B}' || c == '\U{0C}'
  }

  predicate IsDigit(c: char) { '0' <= c <= '9' }

  predicate IsUpper(c: char) { 'A' <= c <= 'Z' }

  predicate IsLower(c: char) { 'a' <= c <= 'z' }

  /** Python's `\w`: letters, digits and the underscore. */
  predicate IsWordChar(c: char) { IsUpper(c) || IsLower(c) || IsDigit(c) || c == '_' }

  function ToLower(c: char): (d: char)
    ensures IsUpper(c) ==> IsLower(d) && d as int == c as int + 32
    ensures !IsUpper(c) ==> d == c
  {
    if IsUpper(c) then (c as int + 32) as char else c
  }

  function ToUpper(c: char): (d: char)
    ensures IsLower(c) ==> IsUpper(d) && d as int + 32 == c as int
    ensures !IsLower(c) ==> d == c
  {
    if IsLower(c) then (c as int - 32) as char else c
  }

  lemma CaseKeepsClass(c: char)
    ensures IsWordChar(ToLower(c)) == IsWordChar(c) && IsWordChar(ToUpper(c)) == IsWordChar(c)
    ensures IsSpace(ToLower(c)) == IsSpace(c) && IsSpace(ToUpper(c)) == IsSpace(c)
    ensures ToLower(ToUpper(c)) == ToLower(c) && ToUpper(ToLower(c)) == ToUpper(c)
  {
  }

  /** `s.lower()` */
  function Lower(s: string): (r: string)
    ensures |r| == |s| && forall k :: 0 <= k < |s| ==> r[k] == ToLower(s[k])
  {
    seq(|s|, k requires 0 <= k < |s| => ToLower(s[k]))
  }

  /** `s.upper()` */
  function Upper(s: string): (r: string)
    ensures |r| == |s| && forall k :: 0 <= k < |s| ==> r[k] == ToUpper(s[k])
  {
    seq(|s|, k requires 0 <= k < |s| => ToUpper(s[k]))
  }

  /** `w` occurs in `s` starting at index `i`. */
  predicate OccursAt(w: string, s: string, i: nat) {
    i + |w| <= |s| && s[i..i + |w|] == w
  }

  /** `w` occurs in `s` at index `i`, ignoring case (the regex flag IGNORECASE). */
  predicate OccursAtFold(w: string, s: string, i: nat) {
    i + |w| <= |s| && Lower(s[i..i + |w|]) == Lower(w)
  }

  /** Case-insensitive occurrence, character by character. */
  lemma FoldAtIff(w: string, s: string, i: nat)
    ensures OccursAtFold(w, s, i) <==> i + |w| <= |s| && forall k :: 0 <= k < |w| ==> ToLower(s[i + k]) == ToLower(w[k])
  {
    if i + |w| <= |s| {
      var a := Lower(s[i..i + |w|]);
      if forall k :: 0 <= k < |w| ==> ToLower(s[i + k]) == ToLower(w[k]) {
        assert forall k :: 0 <= k < |w| ==> a[k] == Lower(w)[k];
      } else {
        var k :| 0 <= k < |w| && ToLower(s[i + k]) != ToLower(w[k]);
        assert a[k] != Lower(w)[k];
      }
    }
  }

  /** Every word of the list is non-empty and free of whitespace. */
  predicate Spaceless(ws: seq<string>) {
    forall j :: 0 <= j < |ws| ==> ws[j] != [] && forall x :: 0 <= x < |ws[j]| ==> !IsSpace(ws[j][x])
  }

  lemma FoldSpaceless(w: string, s: string, i: nat, y: nat)
    requires OccursAtFold(w, s, i) && i <= y < i + |w| && forall x :: 0 <= x < |w| ==> !IsSpace(w[x])
    ensures !IsSpace(s[y])
  {
    FoldAtIff(w, s, i);
    CaseKeepsClass(s[y]);
    CaseKeepsClass(w[y - i]);
  }

  /** A case-insensitive occurrence of `w` contains one of each of its slices. */
  lemma FoldSlice(w: string, s: string, i: nat, a: nat, b: nat)
    requires OccursAtFold(w, s, i) && a <= b <= |w|
    ensures OccursAtFold(w[a..b], s, i + a)
  {
    FoldAtIff(w, s, i);
    FoldAtIff(w[a..b], s, i + a);
    forall k | 0 <= k < b - a
      ensures ToLower(s[i + a + k]) == ToLower(w[a..b][k])
    {
      assert w[a..b][k] == w[a + k];
    }
  }

  /** A case-insensitive occurrence of `u + v` is one of `u` followed by one of `v`. */
  lemma FoldConcat(u: string, v: string, s: string, i: nat)
    ensures OccursAtFold(u + v, s, i) <==> OccursAtFold(u, s, i) && OccursAtFold(v, s, i + |u|)
  {
    FoldAtIff(u + v, s, i);
    FoldAtIff(u, s, i);
    FoldAtIff(v, s, i + |u|);
    if OccursAtFold(u, s, i) && OccursAtFold(v, s, i + |u|) {
      forall k | 0 <= k < |u + v|
        ensures ToLower(s[i + k]) == ToLower((u + v)[k])
      {
        if k >= |u| {
          assert s[i + k] == s[i + |u| + (k - |u|)];
        }
      }
    }
    if OccursAtFold(u + v, s, i) {
      FoldSlice(u + v, s, i, 0, |u|);
      FoldSlice(u + v, s, i, |u|, |u + v|);
      assert (u + v)[..|u|] == u && (u + v)[|u|..] == v;
    }
  }

  /** Python's `w in s` for strings. */
  predicate Contains(s: string, w: string) {
    exists i :: 0 <= i <= |s| && OccursAt(w, s, i)
  }

  /** Python's `\b` at index `k`: exactly one of the characters around `k` is a word character. */
  predicate Boundary(s: string, k: nat) {
    (0 < k <= |s| && IsWordChar(s[k - 1])) != (k < |s| && IsWordChar(s[k]))
  }

  /** The regex `\bw\b` (case-sensitive) matches at index `i`. */
  predicate WordAt(w: string, s: string, i: nat) {
    Boundary(s, i) && OccursAt(w, s, i) && Boundary(s, i + |w|)
  }

  /** The index just past the run of whitespace starting at `i` (`i` itself when there is none). */
  function SpaceRunEnd(s: string, i: nat): (e: nat)
    requires i <= |s|
    ensures i <= e <= |s|
    ensures forall k :: i <= k < e ==> IsSpace(s[k])
    ensures e < |s| ==> !IsSpace(s[e])
    decreases |s| - i
  {
    if i < |s| && IsSpace(s[i]) then SpaceRunEnd(s, i + 1) else i
  }

  /** The number of leading whitespace characters of `s`. */
  function StripStart(s: string): (k: nat)
    ensures k <= |s|
    ensures forall j :: 0 <= j < k ==> IsSpace(s[j])
    ensures k < |s| ==> !IsSpace(s[k])
  {
    SpaceRunEnd(s, 0)
  }

  /** The index just past the last non-whitespace character of `s` at or after `lo`. */
  function StripEnd(s: string, lo: nat): (k: nat)
    requires lo <= |s|
    ensures lo <= k <= |s|
    ensures forall j :: k <= j < |s| ==> IsSpace(s[j])
    ensures k > lo ==> !IsSpace(s[k - 1])
  {
    TrailEnd(s, lo, |s|)
  }

  /** The index just past the last non-whitespace character of `s[lo..hi]`. */
  function TrailEnd(s: string, lo: nat, hi: nat): (k: nat)
    requires lo <= hi <= |s|
    ensures lo <= k <= hi
    ensures forall j :: k <= j < hi ==> IsSpace(s[j])
    ensures k > lo ==> !IsSpace(s[k - 1])
    decreases hi
  {
    if hi > lo && IsSpace(s[hi - 1]) then TrailEnd(s, lo, hi - 1) else hi
  }

  predicate Trimmed(s: string) {
    s == [] || (!IsSpace(s[0]) && !IsSpace(s[|s| - 1]))
  }

  /** `s.strip()`: the longest slice of `s` that neither starts nor ends with whitespace,
      obtained by dropping only whitespace at both ends. */
  function Strip(s: string): (r: string)
    ensures Trimmed(r) && |r| <= |s|
  {
    var lo := StripStart(s);
    s[lo..StripEnd(s, lo)]
  }

  /** What `Strip` keeps: every non-whitespace character of `s` lies inside the slice. */
  lemma StripKeeps(s: string)
    ensures Strip(s) == s[StripStart(s)..StripEnd(s, StripStart(s))]
    ensures forall k :: 0 <= k < |s| && !IsSpace(s[k]) ==> StripStart(s) <= k < StripEnd(s, StripStart(s))
  {
  }

  lemma StripTrimmed(s: string)
    requires Trimmed(s)
    ensures Strip(s) == s
  {
  }

  predicate AllDigits(s: string) {
    forall k :: 0 <= k < |s| ==> IsDigit(s[k])
  }

  /** What Python's `int` is modelled to accept: a non-empty run of ASCII digits. */
  predicate IsNumeral(s: string) {
    s != [] && AllDigits(s)
  }

  function DigitValue(c: char): (d: nat)
    requires IsDigit(c)
    ensures d < 10
  {
    c as int - '0' as int
  }

  function DigitChar(d: nat): (c: char)
    requires d < 10
    ensures IsDigit(c) && DigitValue(c) == d
  {
    ('0' as int + d) as char
  }

  /** The value of a string of decimal digits, as Python's `int` reads it. */
  function DigitsValue(s: string): nat
    requires AllDigits(s)
  {
    if s == [] then 0 else DigitsValue(s[..|s| - 1]) * 10 + DigitValue(s[|s| - 1])
  }

  /** Python's `str(n)` for a natural number: decimal, no leading zeros. */
  function NatToString(n: nat): (r: string)
    ensures r != [] && AllDigits(r)
    ensures DigitsValue(r) == n
    ensures r[0] == '0' ==> n == 0
  {
    if n < 10 then [DigitChar(n)]
    else
      var init := NatToString(n / 10);
      var r := init + [DigitChar(n % 10)];
      assert r[..|r| - 1] == init;
      r
  }

  /** `s.split(sep)`: the pieces between occurrences of `sep`; there is always at least one. */
  function Split(s: string, sep: char): (parts: seq<string>)
    ensures |parts| >= 1
    ensures forall k, j :: 0 <= k < |parts| && 0 <= j < |parts[k]| ==> parts[k][j] != sep
    decreases |s|
  {
    if sep !in s then [s]
    else
      var i := FirstIndex(s, sep);
      [s[..i]] + Split(s[i + 1..], sep)
  }

  function FirstIndex(s: string, c: char): (i: nat)
    requires c in s
    ensures i < |s| && s[i] == c && c !in s[..i]
  {
    if s[0] == c then 0 else 1 + FirstIndex(s[1..], c)
  }

  /** `sep.join(parts)` */
  function Join(parts: seq<string>, sep: char): string
    requires |parts| >= 1
  {
    if |parts| == 1 then parts[0] else parts[0] + [sep] + Join(parts[1..], sep)
  }

  /** Splitting and joining again gives back the string. */
  lemma {:induction false} JoinSplit(s: string, sep: char)
    ensures Join(Split(s, sep), sep) == s
    decreases |s|
  {
    if sep in s {
      var i := FirstIndex(s, sep);
      JoinSplit(s[i + 1..], sep);
      assert s == s[..i] + [sep] + s[i + 1..];
    }
  }

  lemma {:induction false} FirstIndexConcat(a: string, c: char, b: string)
    requires c !in a
    ensures c in a + [c] + b && FirstIndex(a + [c] + b, c) == |a|
    decreases |a|
  {
    if a != [] {
      assert (a + [c] + b)[1..] == a[1..] + [c] + b;
      FirstIndexConcat(a[1..], c, b);
    }
  }

  /** A piece without the separator, the separator, and the rest split as the piece
      followed by the pieces of the rest. */
  lemma SplitStep(p: string, sep: char, rest: string)
    requires sep !in p
    ensures Split(p + [sep] + rest, sep) == [p] + Split(rest, sep)
  {
    var s := p + [sep] + rest;
    FirstIndexConcat(p, sep, rest);
    assert s[..|p|] == p && s[|p| + 1..] == rest;
  }

  /** Joining pieces that do not contain the separator and splitting again gives back the
      pieces. */
  lemma {:induction false} SplitJoin(parts: seq<string>, sep: char)
    requires |parts| >= 1 && forall k :: 0 <= k < |parts| ==> sep !in parts[k]
    ensures Split(Join(parts, sep), sep) == parts
    decreases |parts|
  {
    if |parts| > 1 {
      var rest := Join(parts[1..], sep);
      assert Join(parts, sep) == parts[0] + [sep] + rest;
      SplitJoin(parts[1..], sep);
      SplitStep(parts[0], sep, rest);
      assert parts == [parts[0]] + parts[1..];
    }
  }
}
