/** Whole-word patterns `\b(w1|w2|...)\b` over alternatives made of word characters, and
    the substitution that re-cases the first letter of every such word (what the pronoun
    passes of scripts/kjv_pronouns.py and scripts/polish.py do). */
module Words {
  import opened Wrappers
  import opened Chars
  import opened Scan

  /** A non-empty string of word characters. */
  predicate IsWord(w: string) {
    w != [] && forall k :: 0 <= k < |w| ==> IsWordChar(w[k])
  }

  predicate AllWords(ws: seq<string>) {
    forall j :: 0 <= j < |ws| ==> IsWord(ws[j])
  }

  /** The alternatives of a group tried in order, each followed by `\b`; group 1 is the word. */
  function FirstAlt(ws: seq<string>, s: string, i: nat): Option<Match> {
    if ws == [] then None
    else if OccursAt(ws[0], s, i) && Boundary(s, i + |ws[0]|) then Some(Match(i + |ws[0]|, [Span(i, i + |ws[0]|)]))
    else FirstAlt(ws[1..], s, i)
  }

  /** The pattern `\b(w1|w2|...)\b`, case-sensitive, at index `i`. */
  function AltWordAt(ws: seq<string>, s: string, i: nat): Option<Match> {
    if Boundary(s, i) then FirstAlt(ws, s, i) else None
  }

  function AltWords(ws: seq<string>): Matcher {
    (s: string, i: nat) => AltWordAt(ws, s, i)
  }

  /** Two words occurring as whole words at the same index are the same word. */
  lemma WordUnique(a: string, b: string, s: string, i: nat)
    requires IsWord(a) && IsWord(b) && WordAt(a, s, i) && WordAt(b, s, i)
    ensures a == b
  {
  }

  lemma {:induction false} FirstAltHit(ws: seq<string>, s: string, i: nat)
    requires AllWords(ws) && Boundary(s, i)
    ensures FirstAlt(ws, s, i).Some? ==>
      var e := FirstAlt(ws, s, i).value.end;
      i < e <= |s| && s[i..e] in ws && WordAt(s[i..e], s, i)
    ensures forall w :: w in ws && WordAt(w, s, i) ==> FirstAlt(ws, s, i).Some? && FirstAlt(ws, s, i).value.end == i + |w|
    decreases |ws|
  {
    if ws != [] {
      FirstAltHit(ws[1..], s, i);
      forall w | w in ws && WordAt(w, s, i)
        ensures FirstAlt(ws, s, i).Some? && FirstAlt(ws, s, i).value.end == i + |w|
      {
        if OccursAt(ws[0], s, i) && Boundary(s, i + |ws[0]|) {
          WordUnique(ws[0], w, s, i);
        } else {
          assert w != ws[0];
          assert w in ws[1..];
        }
      }
    }
  }

  /** A match of `\b(w1|w2|...)\b` at `i` is one of the words, occurring as a whole word,
      and conversely every whole-word occurrence of an alternative is a match. */
  lemma AltHit(ws: seq<string>, s: string, i: nat)
    requires AllWords(ws)
    ensures IsHit(AltWords(ws), s, i) ==>
      var e := EndOf(AltWords(ws), s, i);
      s[i..e] in ws && WordAt(s[i..e], s, i)
    ensures forall w :: w in ws && WordAt(w, s, i) ==> IsHit(AltWords(ws), s, i) && EndOf(AltWords(ws), s, i) == i + |w|
  {
    if Boundary(s, i) {
      FirstAltHit(ws, s, i);
    }
  }

  /** Whole words never overlap. */
  lemma AltNonOverlapping(ws: seq<string>, s: string)
    requires AllWords(ws)
    ensures NonOverlapping(AltWords(ws), s)
  {
    forall p: nat, q: nat | IsHit(AltWords(ws), s, p) && IsHit(AltWords(ws), s, q) && p < q
      ensures EndOf(AltWords(ws), s, p) <= q
    {
      AltHit(ws, s, p);
      var e := EndOf(AltWords(ws), s, p);
      if q < e {
        var w := s[p..e];
        assert IsWord(w);
        InsideWordNoHit(ws, s, w, p, q - p);
      }
    }
  }

  function Recase(c: char, up: bool): char {
    if up then ToUpper(c) else ToLower(c)
  }

  /** Every match is replaced by itself with its first letter re-cased. */
  ghost predicate RecasesFirst(m: Matcher, r: Repl, s: string, up: bool) {
    forall p: nat :: IsHit(m, s, p) ==> ReplAt(m, r, s, p) == [Recase(s[p], up)] + s[p + 1..EndOf(m, s, p)]
  }

  /** The reference definition of such a substitution: re-case the character at every index
      where a match starts, keep every other character. */
  function RecaseHits(m: Matcher, s: string, up: bool): (t: string)
    ensures |t| == |s|
  {
    seq(|s|, k requires 0 <= k < |s| => if IsHit(m, s, k) then Recase(s[k], up) else s[k])
  }

  /** The scan of `re.sub` and the reference definition agree. */
  lemma SubIsRecase(ws: seq<string>, r: Repl, s: string, up: bool)
    requires AllWords(ws) && RecasesFirst(AltWords(ws), r, s, up)
    ensures Sub(AltWords(ws), r, s) == RecaseHits(AltWords(ws), s, up)
  {
    var m := AltWords(ws);
    AltNonOverlapping(ws, s);
    assert LengthPreserving(m, r, s);
    SubLength(m, r, s, 0);
    forall k | 0 <= k < |s|
      ensures Sub(m, r, s)[k] == RecaseHits(m, s, up)[k]
    {
      RecaseAt(m, r, s, up, k);
    }
  }

  /** One character of such a substitution: the re-cased first letter of the match that
      starts there, or the input's own character. */
  lemma RecaseAt(m: Matcher, r: Repl, s: string, up: bool, k: nat)
    requires LengthPreserving(m, r, s) && NonOverlapping(m, s) && RecasesFirst(m, r, s, up)
    requires k < |s|
    ensures |Sub(m, r, s)| == |s| && Sub(m, r, s)[k] == RecaseHits(m, s, up)[k]
  {
    var t := SubFrom(m, r, s, 0);
    ScanAt(m, r, s, 0, k);
    if IsHit(m, s, k) {
      assert Covers(m, s, k, k);
      var rep := ReplAt(m, r, s, k);
      assert rep == [Recase(s[k], up)] + s[k + 1..EndOf(m, s, k)];
      assert t[k] == rep[0] == Recase(s[k], up);
    } else {
      forall p | 0 <= p <= k && Covers(m, s, p, k)
        ensures t[k] == s[k]
      {
        var rep := ReplAt(m, r, s, p);
        var tail := s[p + 1..EndOf(m, s, p)];
        assert rep == [Recase(s[p], up)] + tail;
        assert p < k && tail[k - p - 1] == s[k];
      }
      assert t[k] == s[k];
    }
  }

  /** Re-casing keeps each character's class, so it keeps every word boundary. */
  lemma RecaseKeepsBoundaries(m: Matcher, s: string, up: bool)
    ensures forall k :: 0 <= k <= |s| ==> Boundary(RecaseHits(m, s, up), k) == Boundary(s, k)
  {
    var t := RecaseHits(m, s, up);
    forall k | 0 <= k < |s|
      ensures IsWordChar(t[k]) == IsWordChar(s[k])
    {
      CaseKeepsClass(s[k]);
    }
  }

  lemma RecaseKeepsLower(m: Matcher, s: string, up: bool)
    ensures Lower(RecaseHits(m, s, up)) == Lower(s)
  {
    var t := RecaseHits(m, s, up);
    forall k | 0 <= k < |s|
      ensures ToLower(t[k]) == ToLower(s[k])
    {
      CaseKeepsClass(s[k]);
    }
  }

  /** Every alternative starts with a letter of the case opposite to the one re-casing produces. */
  predicate FirstLettersFlip(ws: seq<string>, up: bool) {
    forall j :: 0 <= j < |ws| ==> ws[j] != [] && (if up then IsLower(ws[j][0]) else IsUpper(ws[j][0]))
  }

  /** A match in the re-cased string cannot start where the original had a match: that
      first letter now has the other case. */
  lemma RecasedStartIsNoHit(ws: seq<string>, s: string, up: bool, k: nat)
    requires AllWords(ws) && FirstLettersFlip(ws, up)
    requires IsHit(AltWords(ws), RecaseHits(AltWords(ws), s, up), k)
    ensures !IsHit(AltWords(ws), s, k)
  {
    var m := AltWords(ws);
    var t := RecaseHits(m, s, up);
    AltHit(ws, t, k);
    var w := t[k..EndOf(m, t, k)];
    assert w in ws && t[k] == w[0];
    if IsHit(m, s, k) {
      AltHit(ws, s, k);
    }
  }

  /** Inside a whole word of the re-cased string no match of the original starts, so
      those characters are the original ones. */
  lemma RecasedInsideUnchanged(ws: seq<string>, s: string, up: bool, k: nat, x: nat)
    requires AllWords(ws)
    requires IsHit(AltWords(ws), RecaseHits(AltWords(ws), s, up), k)
    requires k < x < EndOf(AltWords(ws), RecaseHits(AltWords(ws), s, up), k)
    ensures RecaseHits(AltWords(ws), s, up)[x] == s[x]
  {
    var m := AltWords(ws);
    var t := RecaseHits(m, s, up);
    AltHit(ws, t, k);
    var w := t[k..EndOf(m, t, k)];
    assert IsWord(w);
    assert t[x - 1] == w[x - 1 - k] && t[x] == w[x - k];
    RecaseKeepsBoundaries(m, s, up);
    assert !Boundary(t, x);
  }

  lemma RecaseNoHitAt(ws: seq<string>, s: string, up: bool, k: nat)
    requires AllWords(ws) && FirstLettersFlip(ws, up)
    ensures !IsHit(AltWords(ws), RecaseHits(AltWords(ws), s, up), k)
  {
    var m := AltWords(ws);
    var t := RecaseHits(m, s, up);
    if IsHit(m, t, k) {
      RecasedStartIsNoHit(ws, s, up, k);
      AltHit(ws, t, k);
      var e := EndOf(m, t, k);
      var w := t[k..e];
      forall x | k <= x < e
        ensures t[x] == s[x]
      {
        if x > k {
          RecasedInsideUnchanged(ws, s, up, k, x);
        }
      }
      assert s[k..e] == w;
      RecaseKeepsBoundaries(m, s, up);
      assert WordAt(w, s, k);
      AltHit(ws, s, k);
    }
  }

  /** After re-casing, no alternative occurs as a whole word any more. */
  lemma RecaseClearsHits(ws: seq<string>, s: string, up: bool)
    requires AllWords(ws) && FirstLettersFlip(ws, up)
    ensures forall k: nat :: !IsHit(AltWords(ws), RecaseHits(AltWords(ws), s, up), k)
  {
    forall k: nat
      ensures !IsHit(AltWords(ws), RecaseHits(AltWords(ws), s, up), k)
    {
      RecaseNoHitAt(ws, s, up, k);
    }
  }

  /** Some alternative occurs as a whole word. */
  predicate HasWord(ws: seq<string>, s: string) {
    exists k: nat, w :: k < |s| && w in ws && WordAt(w, s, k)
  }

  /** `bool(re.search(r"\b(w1|w2|...)\b", s))` is exactly `HasWord`. */
  lemma OccursIffHasWord(ws: seq<string>, s: string)
    requires AllWords(ws)
    ensures Occurs(AltWords(ws), s) <==> HasWord(ws, s)
  {
    var m := AltWords(ws);
    OccursIff(m, s);
    if Occurs(m, s) {
      var k: nat :| IsHit(m, s, k);
      AltHit(ws, s, k);
      assert s[k..EndOf(m, s, k)] in ws;
    }
    if HasWord(ws, s) {
      var k: nat, w :| k < |s| && w in ws && WordAt(w, s, k);
      AltHit(ws, s, k);
    }
  }

  /** A dictionary that maps each alternative to itself with its first letter re-cased. */
  predicate RecaseTable(ws: seq<string>, table: map<string, string>, up: bool) {
    forall j :: 0 <= j < |ws| ==> ws[j] in table && ws[j] != [] && table[ws[j]] == [Recase(ws[j][0], up)] + ws[j][1..]
  }

  lemma LookupRecases(ws: seq<string>, table: map<string, string>, s: string, up: bool)
    requires AllWords(ws) && RecaseTable(ws, table, up)
    ensures RecasesFirst(AltWords(ws), Lookup(table), s, up)
  {
    var m := AltWords(ws);
    forall p: nat | IsHit(m, s, p)
      ensures ReplAt(m, Lookup(table), s, p) == [Recase(s[p], up)] + s[p + 1..EndOf(m, s, p)]
    {
      AltHit(ws, s, p);
      var e := EndOf(m, s, p);
      var w := s[p..e];
      var j :| 0 <= j < |ws| && ws[j] == w;
      assert GroupText(s, p, m(s, p).value, 0) == w;
      assert w[1..] == s[p + 1..e];
    }
  }

  lemma RecasedCharAt(ws: seq<string>, s: string, up: bool, w: string, k: nat, x: nat)
    requires AllWords(ws) && w in ws && WordAt(w, s, k) && x < |w|
    ensures RecaseHits(AltWords(ws), s, up)[k + x] == ([Recase(w[0], up)] + w[1..])[x]
  {
    assert s[k + x] == w[x];
    if x == 0 {
      AltHit(ws, s, k);
      assert IsHit(AltWords(ws), s, k);
    } else {
      InsideWordNoHit(ws, s, w, k, x);
    }
  }

  /** No match of `\b(w1|w2|...)\b` starts inside a whole word. */
  lemma InsideWordNoHit(ws: seq<string>, s: string, w: string, k: nat, x: nat)
    requires IsWord(w) && OccursAt(w, s, k) && 0 < x < |w|
    ensures !IsHit(AltWords(ws), s, k + x)
  {
    assert s[k + x - 1] == w[x - 1] && s[k + x] == w[x];
    assert !Boundary(s, k + x);
    assert AltWords(ws)(s, k + x) == AltWordAt(ws, s, k + x);
  }

  /** A whole-word match of the original is, after re-casing, the same word with its first
      letter re-cased, still a whole word at the same index. */
  lemma RecasedWordAt(ws: seq<string>, s: string, up: bool, w: string, k: nat)
    requires AllWords(ws) && w in ws && WordAt(w, s, k)
    ensures WordAt([Recase(w[0], up)] + w[1..], RecaseHits(AltWords(ws), s, up), k)
  {
    var t := RecaseHits(AltWords(ws), s, up);
    var rw := [Recase(w[0], up)] + w[1..];
    forall x | 0 <= x < |w|
      ensures t[k + x] == rw[x]
    {
      RecasedCharAt(ws, s, up, w, k, x);
    }
    assert t[k..k + |w|] == rw;
    RecaseKeepsBoundaries(AltWords(ws), s, up);
  }
  /** A match of `\b(w1|w2|...)\b` starts at a word boundary. */
  lemma AltHitBoundary(ws: seq<string>, s: string, k: nat)
    requires IsHit(AltWords(ws), s, k)
    ensures Boundary(s, k)
  {
  }

  /** The alternatives' matches are those of the first alternative and those of the rest. */
  lemma HitSplit(ws: seq<string>, s: string, k: nat)
    requires ws != [] && AllWords(ws)
    ensures IsHit(AltWords(ws), s, k) <==> IsHit(AltWords([ws[0]]), s, k) || IsHit(AltWords(ws[1..]), s, k)
  {
    assert AllWords([ws[0]]) && AllWords(ws[1..]);
    AltHit(ws, s, k);
    AltHit([ws[0]], s, k);
    AltHit(ws[1..], s, k);
    if IsHit(AltWords(ws), s, k) {
      var w := s[k..EndOf(AltWords(ws), s, k)];
      if w != ws[0] {
        assert w in ws[1..];
      }
    }
    if IsHit(AltWords([ws[0]]), s, k) {
      assert s[k..EndOf(AltWords([ws[0]]), s, k)] in ws;
    }
    if IsHit(AltWords(ws[1..]), s, k) {
      assert s[k..EndOf(AltWords(ws[1..]), s, k)] in ws;
    }
  }

  /** Re-casing at the matches of one pattern leaves alone a run of word characters that
      does not start at one of them. */
  lemma SameInside(ws0: seq<string>, s: string, up: bool, k: nat, n: nat)
    requires AllWords(ws0) && k + n <= |s| && !IsHit(AltWords(ws0), s, k)
    requires forall x :: k <= x < k + n ==> IsWordChar(s[x])
    ensures RecaseHits(AltWords(ws0), s, up)[k..k + n] == s[k..k + n]
  {
    var u := RecaseHits(AltWords(ws0), s, up);
    forall x | k <= x < k + n
      ensures u[x] == s[x]
    {
      if x > k {
        assert !Boundary(s, x);
      }
    }
  }

  /** A whole word that occurs where the first pattern has no match occurs there after
      re-casing as well. */
  lemma KeepWord(ws0: seq<string>, v: string, s: string, up: bool, k: nat)
    requires AllWords(ws0) && IsWord(v) && WordAt(v, s, k) && !IsHit(AltWords(ws0), s, k)
    ensures WordAt(v, RecaseHits(AltWords(ws0), s, up), k)
  {
    var u := RecaseHits(AltWords(ws0), s, up);
    RecaseKeepsBoundaries(AltWords(ws0), s, up);
    forall x | k <= x < k + |v|
      ensures IsWordChar(s[x])
    {
      assert s[x] == v[x - k];
    }
    SameInside(ws0, s, up, k, |v|);
  }

  /** Conversely, a whole word of the re-cased text that starts where the first pattern had
      no match was there before. */
  lemma KeepWordBack(ws0: seq<string>, v: string, s: string, up: bool, k: nat)
    requires AllWords(ws0) && IsWord(v) && WordAt(v, RecaseHits(AltWords(ws0), s, up), k) && !IsHit(AltWords(ws0), s, k)
    ensures WordAt(v, s, k)
  {
    var u := RecaseHits(AltWords(ws0), s, up);
    RecaseKeepsBoundaries(AltWords(ws0), s, up);
    forall x | k <= x < k + |v|
      ensures IsWordChar(s[x])
    {
      assert u[x] == v[x - k];
      CaseKeepsClass(s[x]);
    }
    SameInside(ws0, s, up, k, |v|);
  }

  /** Where the first pattern has no match, the second matches after re-casing exactly when
      it matched before. */
  lemma KeepHitIff(ws0: seq<string>, ws: seq<string>, s: string, up: bool, k: nat)
    requires AllWords(ws0) && AllWords(ws) && !IsHit(AltWords(ws0), s, k)
    ensures IsHit(AltWords(ws), RecaseHits(AltWords(ws0), s, up), k) <==> IsHit(AltWords(ws), s, k)
  {
    var u := RecaseHits(AltWords(ws0), s, up);
    if IsHit(AltWords(ws), u, k) {
      AltHit(ws, u, k);
      var v := u[k..EndOf(AltWords(ws), u, k)];
      KeepWordBack(ws0, v, s, up, k);
      AltHit(ws, s, k);
    }
    if IsHit(AltWords(ws), s, k) {
      AltHit(ws, s, k);
      var v := s[k..EndOf(AltWords(ws), s, k)];
      KeepWord(ws0, v, s, up, k);
      AltHit(ws, u, k);
    }
  }

  /** At a character that was re-cased, no alternative whose first letter has the other
      case can match. */
  lemma RecasedNoOtherHit(ws0: seq<string>, ws: seq<string>, s: string, up: bool, k: nat)
    requires AllWords(ws) && FirstLettersFlip(ws, up) && IsHit(AltWords(ws0), s, k)
    ensures !IsHit(AltWords(ws), RecaseHits(AltWords(ws0), s, up), k)
  {
    var u := RecaseHits(AltWords(ws0), s, up);
    assert u[k] == Recase(s[k], up);
    assert up ==> !IsLower(u[k]);
    assert !up ==> !IsUpper(u[k]);
    AltHit(ws, u, k);
    assert forall w :: w in ws ==> w != [] && (if up then IsLower(w[0]) else IsUpper(w[0]));
  }

  /** Re-casing for the first alternative and then for the rest is re-casing for all. */
  lemma RecaseSplit(ws: seq<string>, s: string, up: bool)
    requires ws != [] && AllWords(ws) && FirstLettersFlip(ws, up)
    ensures RecaseHits(AltWords(ws[1..]), RecaseHits(AltWords([ws[0]]), s, up), up) == RecaseHits(AltWords(ws), s, up)
  {
    var m0 := AltWords([ws[0]]);
    var mr := AltWords(ws[1..]);
    var u := RecaseHits(m0, s, up);
    assert AllWords([ws[0]]) && AllWords(ws[1..]) && FirstLettersFlip(ws[1..], up);
    forall k | 0 <= k < |s|
      ensures RecaseHits(mr, u, up)[k] == RecaseHits(AltWords(ws), s, up)[k]
    {
      HitSplit(ws, s, k);
      if IsHit(m0, s, k) {
        RecasedNoOtherHit([ws[0]], ws[1..], s, up, k);
      } else {
        KeepHitIff([ws[0]], ws[1..], s, up, k);
      }
    }
  }

  /** One whole-word substitution per alternative, in the list's order. */
  function RecaseEach(ws: seq<string>, s: string, up: bool): string
    decreases |ws|
  {
    if ws == [] then s else RecaseEach(ws[1..], RecaseHits(AltWords([ws[0]]), s, up), up)
  }

  /** Re-casing word by word gives what re-casing for the whole alternation gives. */
  lemma {:induction false} RecaseEachIsRecase(ws: seq<string>, s: string, up: bool)
    requires AllWords(ws) && FirstLettersFlip(ws, up)
    ensures RecaseEach(ws, s, up) == RecaseHits(AltWords(ws), s, up)
    decreases |ws|
  {
    if ws == [] {
      assert forall k: nat :: !IsHit(AltWords(ws), s, k);
      assert RecaseHits(AltWords(ws), s, up) == s;
    } else {
      var u := RecaseHits(AltWords([ws[0]]), s, up);
      assert AllWords(ws[1..]) && FirstLettersFlip(ws[1..], up);
      RecaseEachIsRecase(ws[1..], u, up);
      RecaseSplit(ws, s, up);
    }
  }

  /** `re.sub(r"\bw\b", W, s)` where `W` is `w` with its first letter re-cased. */
  lemma TemplateRecases(w: string, s: string, up: bool)
    requires IsWord(w)
    ensures RecasesFirst(AltWords([w]), Template([Lit([Recase(w[0], up)] + w[1..])]), s, up)
  {
    var m := AltWords([w]);
    assert AllWords([w]);
    forall p: nat | IsHit(m, s, p)
      ensures ReplAt(m, Template([Lit([Recase(w[0], up)] + w[1..])]), s, p) == [Recase(s[p], up)] + s[p + 1..EndOf(m, s, p)]
    {
      AltHit([w], s, p);
      var e := EndOf(m, s, p);
      assert s[p..e] == w;
      assert s[p] == w[0] && s[p + 1..e] == w[1..];
      ExpandLiteral([Recase(w[0], up)] + w[1..], s, p, m(s, p).value);
    }
  }
}
