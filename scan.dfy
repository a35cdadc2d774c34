/** Python's `re.sub`, `re.search` and `re.finditer`, reduced to what the scripts use:
    a pattern is a matcher that says, for a string and a start index, whether the pattern
    matches there (following the regex engine's backtracking order) and, if so, where the
    match ends and where its capture groups lie.  The scan that `re.sub` performs is then
    one function for every pattern: leftmost match first, matches never overlap, and the
    scan resumes just after each match.  None of the patterns can match the empty string. */
module Scan {
  import opened Wrappers

  datatype Span = Span(start: nat, end: nat)

  /** A successful match: its end index and the spans of capture groups 1, 2, ... */
  datatype Match = Match(end: nat, groups: seq<Span>)

  type Matcher = (string, nat) -> Option<Match>

  /** A replacement template part: literal text or a group reference (`\0` is the whole match). */
  datatype Part = Lit(text: string) | Group(n: nat)

  /** The replacement argument of `re.sub`: a template, or a function that looks the whole
      matched text up in a dictionary. */
  datatype Repl = Template(parts: seq<Part>) | Lookup(table: map<string, string>)

  /** A found occurrence, as `re.finditer` yields it. */
  datatype Found = Found(start: nat, m: Match)

  /** The pattern matches a non-empty slice of `s` starting at `i`. */
  predicate IsHit(m: Matcher, s: string, i: nat) {
    i < |s| && m(s, i).Some? && i < m(s, i).value.end <= |s|
  }

  function EndOf(m: Matcher, s: string, i: nat): (e: nat)
    requires IsHit(m, s, i)
    ensures i < e <= |s|
  {
    m(s, i).value.end
  }

  /** `s[a:b]` for a well-formed span, empty otherwise. */
  function SpanText(s: string, g: Span): string {
    if g.start <= g.end <= |s| then s[g.start..g.end] else []
  }

  /** The text of group `n` of the match starting at `i`. */
  function GroupText(s: string, i: nat, mt: Match, n: nat): string {
    if n == 0 then SpanText(s, Span(i, mt.end))
    else if n - 1 < |mt.groups| then SpanText(s, mt.groups[n - 1])
    else []
  }

  function ExpandParts(parts: seq<Part>, s: string, i: nat, mt: Match): string {
    if parts == [] then []
    else
      (match parts[0]
       case Lit(t) => t
       case Group(n) => GroupText(s, i, mt, n))
      + ExpandParts(parts[1..], s, i, mt)
  }

  /** What replaces the match starting at `i`. */
  function Expand(r: Repl, s: string, i: nat, mt: Match): string {
    match r
    case Template(parts) => ExpandParts(parts, s, i, mt)
    case Lookup(table) =>
      var g := GroupText(s, i, mt, 0);
      if g in table then table[g] else g
  }

  /** A template made of one literal produces that literal. */
  lemma ExpandLiteral(t: string, s: string, i: nat, mt: Match)
    ensures Expand(Template([Lit(t)]), s, i, mt) == t
  {
    var parts := [Lit(t)];
    assert parts[0] == Lit(t) && parts[1..] == [];
    calc {
      Expand(Template(parts), s, i, mt);
      ExpandParts(parts, s, i, mt);
      t + ExpandParts(parts[1..], s, i, mt);
      t + [];
    }
  }

  function ReplAt(m: Matcher, r: Repl, s: string, i: nat): string
    requires IsHit(m, s, i)
  {
    Expand(r, s, i, m(s, i).value)
  }

  /** The scan of `re.sub` from index `i` on. */
  function SubFrom(m: Matcher, r: Repl, s: string, i: nat): string
    decreases |s| - i
  {
    if i >= |s| then []
    else if IsHit(m, s, i) then ReplAt(m, r, s, i) + SubFrom(m, r, s, EndOf(m, s, i))
    else [s[i]] + SubFrom(m, r, s, i + 1)
  }

  /** `re.sub(pattern, repl, s)` */
  function Sub(m: Matcher, r: Repl, s: string): string {
    SubFrom(m, r, s, 0)
  }

  /** `re.search(pattern, s)` from index `i`: the leftmost start of a match. */
  function SearchFrom(m: Matcher, s: string, i: nat): (r: Option<nat>)
    ensures r.Some? ==> i <= r.value && IsHit(m, s, r.value)
    ensures r.Some? ==> forall k :: i <= k < r.value ==> !IsHit(m, s, k)
    ensures r.None? ==> forall k :: i <= k ==> !IsHit(m, s, k)
    decreases |s| - i
  {
    if i >= |s| then None
    else if IsHit(m, s, i) then Some(i)
    else SearchFrom(m, s, i + 1)
  }

  function Search(m: Matcher, s: string): Option<nat> {
    SearchFrom(m, s, 0)
  }

  /** `bool(re.search(pattern, s))` */
  predicate Occurs(m: Matcher, s: string) {
    Search(m, s).Some?
  }

  lemma OccursIff(m: Matcher, s: string)
    ensures Occurs(m, s) <==> exists k :: IsHit(m, s, k)
  {
    if Search(m, s).Some? {
      assert IsHit(m, s, Search(m, s).value);
    }
  }

  /** `list(re.finditer(pattern, s))` from index `i`: the same matches `re.sub` replaces. */
  function FindFrom(m: Matcher, s: string, i: nat): (fs: seq<Found>)
    ensures forall j :: 0 <= j < |fs| ==> i <= fs[j].start && IsHit(m, s, fs[j].start) && fs[j].m == m(s, fs[j].start).value
    ensures forall j :: 0 <= j < |fs| - 1 ==> fs[j].m.end <= fs[j + 1].start
    decreases |s| - i
  {
    if i >= |s| then []
    else if IsHit(m, s, i) then [Found(i, m(s, i).value)] + FindFrom(m, s, EndOf(m, s, i))
    else FindFrom(m, s, i + 1)
  }

  function FindAll(m: Matcher, s: string): seq<Found> {
    FindFrom(m, s, 0)
  }

  /** Where the scan replaces every match by the text it matched, nothing changes; in
      particular a string without matches is returned as it is. */
  lemma {:induction false} SubIdentity(m: Matcher, r: Repl, s: string, i: nat)
    requires forall k :: i <= k && IsHit(m, s, k) ==> ReplAt(m, r, s, k) == s[k..EndOf(m, s, k)]
    ensures i <= |s| ==> SubFrom(m, r, s, i) == s[i..]
    decreases |s| - i
  {
    if i < |s| {
      if IsHit(m, s, i) {
        SubIdentity(m, r, s, EndOf(m, s, i));
        SubIdentityHit(m, r, s, i);
      } else {
        SubIdentity(m, r, s, i + 1);
        SubIdentityMiss(m, r, s, i);
      }
    }
  }

  lemma SubIdentityHit(m: Matcher, r: Repl, s: string, i: nat)
    requires IsHit(m, s, i) && ReplAt(m, r, s, i) == s[i..EndOf(m, s, i)]
    requires SubFrom(m, r, s, EndOf(m, s, i)) == s[EndOf(m, s, i)..]
    ensures SubFrom(m, r, s, i) == s[i..]
  {
    var e := EndOf(m, s, i);
    assert s[i..] == s[i..e] + s[e..];
  }

  lemma SubIdentityMiss(m: Matcher, r: Repl, s: string, i: nat)
    requires i < |s| && !IsHit(m, s, i)
    requires SubFrom(m, r, s, i + 1) == s[i + 1..]
    ensures SubFrom(m, r, s, i) == s[i..]
  {
    assert s[i..] == [s[i]] + s[i + 1..];
  }

  /** Every match is replaced by text of its own length. */
  ghost predicate LengthPreserving(m: Matcher, r: Repl, s: string) {
    forall p {:trigger ReplAt(m, r, s, p)} :: IsHit(m, s, p) ==> |ReplAt(m, r, s, p)| == EndOf(m, s, p) - p
  }

  /** No match starts inside another one. */
  ghost predicate NonOverlapping(m: Matcher, s: string) {
    forall p, q :: IsHit(m, s, p) && IsHit(m, s, q) && p < q ==> EndOf(m, s, p) <= q
  }

  predicate Covers(m: Matcher, s: string, p: nat, k: nat) {
    IsHit(m, s, p) && p <= k < EndOf(m, s, p)
  }

  lemma {:induction false} SubLength(m: Matcher, r: Repl, s: string, i: nat)
    requires LengthPreserving(m, r, s) && i <= |s|
    ensures |SubFrom(m, r, s, i)| == |s| - i
    decreases |s| - i
  {
    if i < |s| {
      if IsHit(m, s, i) {
        SubLength(m, r, s, EndOf(m, s, i));
      } else {
        SubLength(m, r, s, i + 1);
      }
    }
  }

  /** When matches are replaced by text of the same length and never overlap, every match
      is visited by the scan, so each character of the result is either the character of
      the input at the same index or the corresponding character of the replacement of
      the one match covering that index. */
  lemma ScanAt(m: Matcher, r: Repl, s: string, i: nat, k: nat)
    requires LengthPreserving(m, r, s) && NonOverlapping(m, s)
    requires i <= k < |s|
    ensures |SubFrom(m, r, s, i)| == |s| - i
    ensures forall p :: i <= p && Covers(m, s, p, k) ==> SubFrom(m, r, s, i)[k - i] == ReplAt(m, r, s, p)[k - p]
    ensures (forall p :: i <= p <= k ==> !Covers(m, s, p, k)) ==> SubFrom(m, r, s, i)[k - i] == s[k]
  {
    CharOkFrom(m, r, s, i, k);
    forall p | i <= p && Covers(m, s, p, k)
      ensures SubFrom(m, r, s, i)[k - i] == ReplAt(m, r, s, p)[k - p]
    {
      CoverComplete(m, s, i, k, p);
    }
  }

  /** The match the scan from `i` replaces position `k` with, if any. */
  ghost function ScanCover(m: Matcher, s: string, i: nat, k: nat): (c: Option<nat>)
    requires i <= k < |s|
    ensures c.Some? ==> i <= c.value && Covers(m, s, c.value, k)
    decreases |s| - i
  {
    if IsHit(m, s, i) then
      if k < EndOf(m, s, i) then Some(i) else ScanCover(m, s, EndOf(m, s, i), k)
    else if i == k then None
    else ScanCover(m, s, i + 1, k)
  }

  /** Output position `k - i` of the scan from `i` comes from the match the scan uses
      there, or is `s[k]` when it uses none. */
  ghost predicate CharOk(m: Matcher, r: Repl, s: string, i: nat, k: nat)
    requires LengthPreserving(m, r, s) && i <= k < |s|
  {
    && |SubFrom(m, r, s, i)| == |s| - i
    && (ScanCover(m, s, i, k).Some? ==>
      SubFrom(m, r, s, i)[k - i] == ReplAt(m, r, s, ScanCover(m, s, i, k).value)[k - ScanCover(m, s, i, k).value])
    && (ScanCover(m, s, i, k).None? ==> SubFrom(m, r, s, i)[k - i] == s[k])
  }

  lemma {:induction false} CharOkFrom(m: Matcher, r: Repl, s: string, i: nat, k: nat)
    requires LengthPreserving(m, r, s) && i <= k < |s|
    ensures CharOk(m, r, s, i, k)
    decreases |s| - i
  {
    if IsHit(m, s, i) {
      if EndOf(m, s, i) <= k {
        CharOkFrom(m, r, s, EndOf(m, s, i), k);
      }
      CharOkHit(m, r, s, i, k);
    } else {
      if i < k {
        CharOkFrom(m, r, s, i + 1, k);
      }
      CharOkMiss(m, r, s, i, k);
    }
  }

  lemma CharOkHit(m: Matcher, r: Repl, s: string, i: nat, k: nat)
    requires LengthPreserving(m, r, s) && i <= k < |s| && IsHit(m, s, i)
    requires EndOf(m, s, i) <= k ==> CharOk(m, r, s, EndOf(m, s, i), k)
    ensures CharOk(m, r, s, i, k)
  {
    SubLength(m, r, s, i);
    var out := SubFrom(m, r, s, i);
    var e := EndOf(m, s, i);
    var rep := ReplAt(m, r, s, i);
    SubLength(m, r, s, e);
    var rest := SubFrom(m, r, s, e);
    assert out == rep + rest;
    assert |rep| == e - i;
    if k < e {
      assert out[k - i] == rep[k - i];
    } else {
      AppendRight(rep, rest, k - i);
    }
  }

  lemma AppendRight(a: string, b: string, j: nat)
    requires |a| <= j < |a| + |b|
    ensures (a + b)[j] == b[j - |a|]
  {
  }

  lemma CharOkMiss(m: Matcher, r: Repl, s: string, i: nat, k: nat)
    requires LengthPreserving(m, r, s) && i <= k < |s| && !IsHit(m, s, i)
    requires i < k ==> CharOk(m, r, s, i + 1, k)
    ensures CharOk(m, r, s, i, k)
  {
    SubLength(m, r, s, i);
    var out := SubFrom(m, r, s, i);
    var rest := SubFrom(m, r, s, i + 1);
    assert out == [s[i]] + rest;
    if i < k {
      AppendRight([s[i]], rest, k - i);
    }
  }

  /** Without overlapping matches, a match from `i` on that covers `k` is the one the scan
      uses there. */
  lemma {:induction false} CoverComplete(m: Matcher, s: string, i: nat, k: nat, p: nat)
    requires NonOverlapping(m, s)
    requires i <= p && Covers(m, s, p, k) && i <= k < |s|
    ensures ScanCover(m, s, i, k) == Some(p)
    decreases |s| - i
  {
    if IsHit(m, s, i) {
      var e := EndOf(m, s, i);
      if i < p {
        assert e <= p;
      }
      if e <= k {
        CoverComplete(m, s, e, k, p);
      }
    } else {
      CoverComplete(m, s, i + 1, k, p);
    }
  }

  /** The number of positions at which the pattern matches. */
  ghost function HitCount(m: Matcher, s: string): nat {
    |set k | 0 <= k < |s| && IsHit(m, s, k)|
  }

  /** With a single match, at `p`, each character of the substitution comes from the
      replacement inside the match and from the text outside it. */
  lemma SoleHitAt(m: Matcher, r: Repl, s: string, p: nat, k: nat)
    requires LengthPreserving(m, r, s) && NonOverlapping(m, s) && IsHit(m, s, p)
    requires forall q: nat :: IsHit(m, s, q) ==> q == p
    requires k < |s|
    ensures |SubFrom(m, r, s, 0)| == |s|
    ensures SubFrom(m, r, s, 0)[k] == if p <= k < EndOf(m, s, p) then ReplAt(m, r, s, p)[k - p] else s[k]
  {
    ScanAt(m, r, s, 0, k);
    if p <= k < EndOf(m, s, p) {
      assert Covers(m, s, p, k);
    } else {
      assert forall q :: 0 <= q <= k ==> !Covers(m, s, q, k);
    }
  }

  /** A substitution with a single match, at `p`, writes its replacement there and keeps
      the rest of the text. */
  lemma SoleHit(m: Matcher, r: Repl, s: string, p: nat)
    requires LengthPreserving(m, r, s) && NonOverlapping(m, s) && IsHit(m, s, p)
    requires forall q: nat :: IsHit(m, s, q) ==> q == p
    ensures Sub(m, r, s) == s[..p] + ReplAt(m, r, s, p) + s[EndOf(m, s, p)..]
  {
    var want := s[..p] + ReplAt(m, r, s, p) + s[EndOf(m, s, p)..];
    SubLength(m, r, s, 0);
    forall k | 0 <= k < |s|
      ensures Sub(m, r, s)[k] == want[k]
    {
      SoleHitAt(m, r, s, p, k);
    }
  }
}
