/** `enforce_lord_caps` of scripts/polish.py: four case-sensitive substitutions that turn
    "Lord" into "LORD" in fixed phrases, leaving "the Lord GOD" alone. */
module LordCaps {
  import opened Wrappers
  import opened Chars
  import opened Scan
  import opened Whitespace

  /** A rule matches the whole-word phrase `pre + "Lord" + post` and writes
      `pre + "LORD" + post`; a guarded rule does not match when whitespace and a
      whole-word "GOD" follow. */
  datatype Rule = Rule(pre: string, post: string, guarded: bool)

  function Pattern(r: Rule): string { r.pre + "Lord" + r.post }

  function Replacement(r: Rule): string { r.pre + "LORD" + r.post }

  /** The lookahead `\s+GOD\b` succeeds at `e`. */
  predicate GodFollows(s: string, e: nat)
    requires e <= |s|
  {
    var f := SpaceRunEnd(s, e);
    f > e && OccursAt("GOD", s, f) && Boundary(s, f + 3)
  }

  function RuleAt(r: Rule, s: string, i: nat): Option<Match> {
    if WordAt(Pattern(r), s, i) && !(r.guarded && GodFollows(s, i + |Pattern(r)|)) then Some(Match(i + |Pattern(r)|, []))
    else None
  }

  function RuleMatcher(r: Rule): Matcher {
    (s: string, i: nat) => RuleAt(r, s, i)
  }

  function Apply(r: Rule, s: string): string {
    Sub(RuleMatcher(r), Template([Lit(Replacement(r))]), s)
  }

  /** `\bLord God\b` → "LORD God" */
  const LordGod := Rule("", " God", false)
  /** `\bAnd the Lord said\b` → "And the LORD said" */
  const AndTheLordSaid := Rule("And the ", " said", false)
  /** `\bthe Lord\b(?!\s+GOD\b)` → "the LORD" */
  const TheLord := Rule("the ", "", true)
  /** `\bangel of the Lord\b` → "angel of the LORD" */
  const AngelOfTheLord := Rule("angel of the ", "", false)

  function EnforceLordCaps(text: string): string {
    Apply(AngelOfTheLord, Apply(TheLord, Apply(AndTheLordSaid, Apply(LordGod, text))))
  }

  /** `t` is `s` with some of its letters o, r, d upper-cased. */
  predicate UpOrd(s: string, t: string) {
    |t| == |s| && forall k :: 0 <= k < |s| ==> t[k] == s[k] || (s[k] in "ord" && t[k] == ToUpper(s[k]))
  }

  lemma UpOrdTrans(a: string, b: string, c: string)
    requires UpOrd(a, b) && UpOrd(b, c)
    ensures UpOrd(a, c)
  {
  }

  /** Upper-casing o, r, d keeps every character's class, so boundaries and whitespace stay. */
  lemma UpOrdClasses(s: string, t: string)
    requires UpOrd(s, t)
    ensures forall k :: 0 <= k < |s| ==> IsWordChar(t[k]) == IsWordChar(s[k]) && IsSpace(t[k]) == IsSpace(s[k])
    ensures forall k :: 0 <= k <= |s| ==> Boundary(t, k) == Boundary(s, k)
  {
    forall k | 0 <= k < |s|
      ensures IsWordChar(t[k]) == IsWordChar(s[k]) && IsSpace(t[k]) == IsSpace(s[k])
    {
      CaseKeepsClass(s[k]);
    }
  }

  lemma {:induction false} SpaceRunEndSame(s: string, t: string, i: nat)
    requires |s| == |t| && i <= |s|
    requires forall k :: 0 <= k < |s| ==> IsSpace(t[k]) == IsSpace(s[k])
    ensures SpaceRunEnd(t, i) == SpaceRunEnd(s, i)
    decreases |s| - i
  {
    if i < |s| && IsSpace(s[i]) {
      SpaceRunEndSame(s, t, i + 1);
    }
  }

  /** The conditions under which the proofs below go through; each of the four rules meets them. */
  predicate WellFormed(r: Rule) {
    FirstOnce(Pattern(r)) && NoUpperOrd(Pattern(r))
  }

  /** The first character occurs nowhere else. */
  predicate FirstOnce(p: string) {
    forall x :: 0 < x < |p| ==> p[x] != p[0]
  }

  predicate NoUpperOrd(p: string) {
    forall x :: 0 <= x < |p| ==> p[x] !in "ORD"
  }

  const AngelPhrase := ['a', 'n', 'g', 'e', 'l', ' ', 'o', 'f', ' ', 't', 'h', 'e', ' ', 'L', 'o', 'r', 'd']

  lemma AngelWellFormed()
    ensures WellFormed(AngelOfTheLord)
  {
    AngelFirstOnce();
    AngelNoUpperOrd();
  }

  lemma AngelFirstOnce()
    ensures FirstOnce(Pattern(AngelOfTheLord))
  {
    assert Pattern(AngelOfTheLord) == AngelPhrase;
  }

  lemma AngelNoUpperOrd()
    ensures NoUpperOrd(Pattern(AngelOfTheLord))
  {
    assert Pattern(AngelOfTheLord) == AngelPhrase;
  }

  lemma LordGodWellFormed()
    ensures WellFormed(LordGod)
  {
    assert Pattern(LordGod) == ['L', 'o', 'r', 'd', ' ', 'G', 'o', 'd'];
  }

  lemma AndTheLordSaidWellFormed()
    ensures WellFormed(AndTheLordSaid)
  {
    assert Pattern(AndTheLordSaid) == ['A', 'n', 'd', ' ', 't', 'h', 'e', ' ', 'L', 'o', 'r', 'd', ' ', 's', 'a', 'i', 'd'];
  }

  lemma TheLordWellFormed()
    ensures WellFormed(TheLord)
  {
    assert Pattern(TheLord) == ['t', 'h', 'e', ' ', 'L', 'o', 'r', 'd'];
  }

  /** Matches of a well-formed rule never overlap: its first character occurs nowhere else in it. */
  lemma RuleNonOverlapping(r: Rule, s: string)
    requires WellFormed(r)
    ensures NonOverlapping(RuleMatcher(r), s)
  {
    var m := RuleMatcher(r);
    forall a: nat, b: nat | IsHit(m, s, a) && IsHit(m, s, b) && a < b
      ensures EndOf(m, s, a) <= b
    {
      RuleHitAt(r, s, a);
      RuleHitAt(r, s, b);
      NoPatternInside(r, s, a, b);
    }
  }

  /** A hit of a rule is an occurrence of its phrase, and the match ends with the phrase. */
  lemma RuleHitAt(r: Rule, s: string, a: nat)
    requires IsHit(RuleMatcher(r), s, a)
    ensures OccursAt(Pattern(r), s, a) && EndOf(RuleMatcher(r), s, a) == a + |Pattern(r)|
  {
    assert RuleMatcher(r)(s, a) == RuleAt(r, s, a);
  }

  /** The phrase of a well-formed rule does not start again inside one of its occurrences. */
  lemma NoPatternInside(r: Rule, s: string, a: nat, b: nat)
    requires WellFormed(r) && OccursAt(Pattern(r), s, a) && a < b
    ensures b < a + |Pattern(r)| ==> !OccursAt(Pattern(r), s, b)
  {
    var p := Pattern(r);
    if b < a + |p| {
      assert s[b] == s[a..a + |p|][b - a] == p[b - a];
      assert p[b - a] != p[0];
    }
  }

  /** The replacement is the matched phrase with its "ord" upper-cased. */
  lemma ReplacementUpOrd(r: Rule)
    ensures |Replacement(r)| == |Pattern(r)|
    ensures forall x :: 0 <= x < |Pattern(r)| ==>
      Replacement(r)[x] == Pattern(r)[x] || (Pattern(r)[x] in "ord" && Replacement(r)[x] == ToUpper(Pattern(r)[x]))
    ensures Replacement(r)[|r.pre| + 1] == 'O' && Pattern(r)[|r.pre| + 1] == 'o'
  {
    var p := Pattern(r);
    var q := Replacement(r);
    forall x | 0 <= x < |p|
      ensures q[x] == p[x] || (p[x] in "ord" && q[x] == ToUpper(p[x]))
    {
      if x < |r.pre| {
        assert q[x] == r.pre[x] == p[x];
      } else if x < |r.pre| + 4 {
        assert q[x] == "LORD"[x - |r.pre|] && p[x] == "Lord"[x - |r.pre|];
      } else {
        assert q[x] == r.post[x - |r.pre| - 4] == p[x];
      }
    }
    assert q[|r.pre| + 1] == "LORD"[1] && p[|r.pre| + 1] == "Lord"[1];
  }

  lemma ReplAtRule(r: Rule, s: string, p: nat)
    requires IsHit(RuleMatcher(r), s, p)
    ensures ReplAt(RuleMatcher(r), Template([Lit(Replacement(r))]), s, p) == Replacement(r)
    ensures EndOf(RuleMatcher(r), s, p) == p + |Pattern(r)| && s[p..p + |Pattern(r)|] == Pattern(r)
  {
    ExpandLiteral(Replacement(r), s, p, RuleMatcher(r)(s, p).value);
  }

  /** The scan of a well-formed rule replaces same-length, non-overlapping matches. */
  lemma ApplyFacts(r: Rule, s: string)
    requires WellFormed(r)
    ensures LengthPreserving(RuleMatcher(r), Template([Lit(Replacement(r))]), s)
    ensures NonOverlapping(RuleMatcher(r), s)
    ensures |Apply(r, s)| == |s|
  {
    var m := RuleMatcher(r);
    var rp := Template([Lit(Replacement(r))]);
    RuleNonOverlapping(r, s);
    ReplacementUpOrd(r);
    forall p: nat | IsHit(m, s, p)
      ensures |ReplAt(m, rp, s, p)| == EndOf(m, s, p) - p
    {
      ReplAtRule(r, s, p);
    }
    SubLength(m, rp, s, 0);
  }

  /** What a rule does, character by character: inside a match, the replacement's
      character; everywhere else, the input's. */
  lemma ApplyAt(r: Rule, s: string, k: nat)
    requires WellFormed(r) && k < |s|
    ensures |Apply(r, s)| == |s|
    ensures forall p: nat :: Covers(RuleMatcher(r), s, p, k) ==> p + |Pattern(r)| > k && Apply(r, s)[k] == Replacement(r)[k - p]
    ensures (forall p: nat :: !Covers(RuleMatcher(r), s, p, k)) ==> Apply(r, s)[k] == s[k]
  {
    var m := RuleMatcher(r);
    var rp := Template([Lit(Replacement(r))]);
    ApplyFacts(r, s);
    ScanAt(m, rp, s, 0, k);
    forall p: nat | Covers(m, s, p, k)
      ensures p + |Pattern(r)| > k && Apply(r, s)[k] == Replacement(r)[k - p]
    {
      ReplAtRule(r, s, p);
    }
  }

  /** Every match is replaced by the rule's replacement text. */
  lemma ApplyReplacesHit(r: Rule, s: string, q: nat)
    requires WellFormed(r) && IsHit(RuleMatcher(r), s, q)
    ensures |Apply(r, s)| == |s| && q + |Pattern(r)| <= |s|
    ensures Apply(r, s)[q..q + |Pattern(r)|] == Replacement(r)
  {
    var t := Apply(r, s);
    var n := |Pattern(r)|;
    ReplAtRule(r, s, q);
    ReplacementUpOrd(r);
    ApplyFacts(r, s);
    forall x | 0 <= x < n
      ensures t[q + x] == Replacement(r)[x]
    {
      ApplyAt(r, s, q + x);
      assert Covers(RuleMatcher(r), s, q, q + x);
    }
  }

  lemma FirstCharAt(r: Rule, s: string, p: nat)
    requires OccursAt(Pattern(r), s, p)
    ensures s[p] == Pattern(r)[0]
  {
    assert s[p] == s[p..p + |Pattern(r)|][0];
  }

  /** Inside an occurrence of a well-formed phrase, its first character does not recur. */
  lemma FirstCharElsewhere(r: Rule, s: string, p: nat, q: nat)
    requires WellFormed(r) && OccursAt(Pattern(r), s, p) && p < q < p + |Pattern(r)|
    ensures s[q] != Pattern(r)[0]
  {
    assert s[q] == s[p..p + |Pattern(r)|][q - p];
  }

  /** An occurrence of the phrase that the rule does not match (a guarded "the Lord" before
      "GOD") comes out untouched: another match cannot overlap it, because the phrase's
      first character occurs nowhere else in it. */
  lemma ApplyKeepsNonHit(r: Rule, s: string, q: nat)
    requires WellFormed(r) && OccursAt(Pattern(r), s, q) && !IsHit(RuleMatcher(r), s, q)
    ensures |Apply(r, s)| == |s|
    ensures Apply(r, s)[q..q + |Pattern(r)|] == s[q..q + |Pattern(r)|]
  {
    var t := Apply(r, s);
    var pt := Pattern(r);
    ApplyFacts(r, s);
    forall k | q <= k < q + |pt|
      ensures t[k] == s[k]
    {
      ApplyAt(r, s, k);
      forall p: nat
        ensures !Covers(RuleMatcher(r), s, p, k)
      {
        if Covers(RuleMatcher(r), s, p, k) {
          ReplAtRule(r, s, p);
          FirstCharAt(r, s, q);
          FirstCharAt(r, s, p);
          if p < q {
            FirstCharElsewhere(r, s, p, q);
          } else if q < p {
            FirstCharElsewhere(r, s, q, p);
          }
        }
      }
    }
    assert t[q..q + |pt|] == s[q..q + |pt|];
  }

  /** A rule only upper-cases letters o, r, d. */
  lemma ApplyUpOrd(r: Rule, s: string)
    requires WellFormed(r)
    ensures UpOrd(s, Apply(r, s))
  {
    ReplacementUpOrd(r);
    ApplyFacts(r, s);
    var t := Apply(r, s);
    forall k | 0 <= k < |s|
      ensures t[k] == s[k] || (s[k] in "ord" && t[k] == ToUpper(s[k]))
    {
      ApplyAt(r, s, k);
      forall p: nat | Covers(RuleMatcher(r), s, p, k)
        ensures t[k] == s[k] || (s[k] in "ord" && t[k] == ToUpper(s[k]))
      {
        ReplAtRule(r, s, p);
        assert s[k] == Pattern(r)[k - p];
      }
    }
  }

  /** A "GOD" after whitespace survives upper-casing o, r, d. */
  lemma GodFollowsUp(s: string, t: string, e: nat)
    requires UpOrd(s, t) && e <= |s|
    ensures GodFollows(s, e) ==> GodFollows(t, e)
  {
    if GodFollows(s, e) {
      UpOrdClasses(s, t);
      SpaceRunEndSame(s, t, e);
      var f := SpaceRunEnd(s, e);
      assert s[f..f + 3] == "GOD";
      assert s[f] == 'G' && s[f + 1] == 'O' && s[f + 2] == 'D';
      assert t[f] == 'G' && t[f + 1] == 'O' && t[f + 2] == 'D';
      assert t[f..f + 3] == "GOD";
    }
  }

  /** A character that is not O, R or D was not touched. */
  lemma UpOrdKeeps(s: string, t: string, k: nat)
    requires UpOrd(s, t) && k < |s| && t[k] !in "ORD"
    ensures s[k] == t[k]
  {
  }

  /** Every match has a lower-case "o" where the replacement has "O". */
  lemma HitHasLowerO(r: Rule, s: string, p: nat)
    requires IsHit(RuleMatcher(r), s, p)
    ensures s[p + |r.pre| + 1] == 'o'
  {
    ReplacementUpOrd(r);
    assert s[p..p + |Pattern(r)|][|r.pre| + 1] == s[p + |r.pre| + 1];
  }

  /** The phrase has no O, R or D, so where it occurs after upper-casing it occurred before. */
  lemma PatternReflects(r: Rule, s: string, t: string, q: nat)
    requires WellFormed(r) && UpOrd(s, t) && OccursAt(Pattern(r), t, q)
    ensures OccursAt(Pattern(r), s, q)
  {
    var p := Pattern(r);
    forall x | 0 <= x < |p|
      ensures s[q + x] == p[x]
    {
      assert t[q + x] == t[q..q + |p|][x];
      UpOrdKeeps(s, t, q + x);
    }
    assert s[q..q + |p|] == p;
  }

  /** A match in the upper-cased text was already a match before: none of the phrase's
      letters was touched, and a "GOD" that follows stays. */
  lemma UpOrdReflectsHit(r: Rule, s: string, t: string, q: nat)
    requires WellFormed(r) && UpOrd(s, t) && IsHit(RuleMatcher(r), t, q)
    ensures IsHit(RuleMatcher(r), s, q)
  {
    var p := Pattern(r);
    PatternReflects(r, s, t, q);
    UpOrdClasses(s, t);
    GodFollowsUp(s, t, q + |p|);
  }

  /** After a rule has run, it finds nothing more to do. */
  lemma ApplyClears(r: Rule, s: string)
    requires WellFormed(r)
    ensures forall q: nat :: !IsHit(RuleMatcher(r), Apply(r, s), q)
  {
    var t := Apply(r, s);
    forall q: nat
      ensures !IsHit(RuleMatcher(r), t, q)
    {
      if IsHit(RuleMatcher(r), t, q) {
        ApplyUpOrd(r, s);
        UpOrdReflectsHit(r, s, t, q);
        ApplyReplacesHit(r, s, q);
        ReplacementUpOrd(r);
        assert t[q + |r.pre| + 1] == t[q..q + |Pattern(r)|][|r.pre| + 1];
        HitHasLowerO(r, t, q);
      }
    }
  }

  /** A rule leaves text without matches as it is. */
  lemma ApplyNoHits(r: Rule, s: string)
    requires forall q: nat :: !IsHit(RuleMatcher(r), s, q)
    ensures Apply(r, s) == s
  {
    SubIdentity(RuleMatcher(r), Template([Lit(Replacement(r))]), s, 0);
  }

  /** The rule finds nothing to do in `s`. */
  ghost predicate NoHits(r: Rule, s: string) {
    forall q: nat :: !IsHit(RuleMatcher(r), s, q)
  }

  /** Upper-casing o, r, d creates no new match. */
  lemma NoHitsUp(r: Rule, s: string, t: string)
    requires WellFormed(r) && UpOrd(s, t) && NoHits(r, s)
    ensures NoHits(r, t)
  {
    forall q: nat
      ensures !IsHit(RuleMatcher(r), t, q)
    {
      if IsHit(RuleMatcher(r), t, q) {
        UpOrdReflectsHit(r, s, t, q);
      }
    }
  }

  /** Upper-casing o, r, d keeps text in the shape `normalize_space` leaves it in. */
  lemma UpOrdKeepsNormalized(s: string, t: string)
    requires UpOrd(s, t) && Normalized(s)
    ensures Normalized(t)
  {
    UpOrdClasses(s, t);
    forall k | 0 <= k < |t| && IsSpace(t[k])
      ensures t[k] == ' '
    {
      assert s[k] == ' ';
    }
  }

  /** After `enforce_lord_caps` none of its four phrases is left to rewrite: every whole-word
      "Lord God", "And the Lord said" and "angel of the Lord" has become "LORD", and every
      whole-word "the Lord" that remains is followed by whitespace and "GOD".  The result is
      the input with some o, r, d upper-cased, so its length and shape are the input's. */
  lemma EnforceLordCapsProperties(text: string)
    ensures UpOrd(text, EnforceLordCaps(text))
    ensures |EnforceLordCaps(text)| == |text|
    ensures Normalized(text) ==> Normalized(EnforceLordCaps(text))
    ensures NoHits(LordGod, EnforceLordCaps(text)) && NoHits(AndTheLordSaid, EnforceLordCaps(text))
    ensures NoHits(TheLord, EnforceLordCaps(text)) && NoHits(AngelOfTheLord, EnforceLordCaps(text))
  {
    LordGodWellFormed();
    AndTheLordSaidWellFormed();
    TheLordWellFormed();
    AngelWellFormed();
    var s1 := Apply(LordGod, text);
    var s2 := Apply(AndTheLordSaid, s1);
    var s3 := Apply(TheLord, s2);
    var s4 := Apply(AngelOfTheLord, s3);
    ApplyUpOrd(LordGod, text);
    ApplyUpOrd(AndTheLordSaid, s1);
    ApplyUpOrd(TheLord, s2);
    ApplyUpOrd(AngelOfTheLord, s3);
    UpOrdTrans(text, s1, s2);
    UpOrdTrans(text, s2, s3);
    UpOrdTrans(text, s3, s4);
    ApplyClears(LordGod, text);
    ApplyClears(AndTheLordSaid, s1);
    ApplyClears(TheLord, s2);
    ApplyClears(AngelOfTheLord, s3);
    NoHitsUp(LordGod, s1, s2);
    NoHitsUp(LordGod, s2, s3);
    NoHitsUp(LordGod, s3, s4);
    NoHitsUp(AndTheLordSaid, s2, s3);
    NoHitsUp(AndTheLordSaid, s3, s4);
    NoHitsUp(TheLord, s3, s4);
    if Normalized(text) {
      UpOrdKeepsNormalized(text, s4);
    }
  }

  /** Applying `enforce_lord_caps` twice gives the same text as applying it once. */
  lemma EnforceLordCapsIdempotent(text: string)
    ensures EnforceLordCaps(EnforceLordCaps(text)) == EnforceLordCaps(text)
  {
    var out := EnforceLordCaps(text);
    EnforceLordCapsProperties(text);
    ApplyNoHits(LordGod, out);
    ApplyNoHits(AndTheLordSaid, out);
    ApplyNoHits(TheLord, out);
    ApplyNoHits(AngelOfTheLord, out);
  }
}
