/** scripts/suggest_caps.py: the review worksheet of proposed capitalisations.  For a verse
    that names the LORD or God it proposes capitalising each lower-case pronoun, one at a
    time and cumulatively; independently it proposes capitalising titles (Rock, Fortress,
    Stronghold, High Tower, Salvation) after a possessive; it scores every proposal and
    drops repeated ones.  Confidences are in hundredths. */
module SuggestCaps {
  import opened Wrappers
  import opened Chars
  import opened Scan
  import opened Whitespace
  import opened Regex
  import opened Words

  // ---------------------------------------------------------------------------------------
  // Divine anchors

  /** `ANCHOR_RE`: `\bLORD\b|\bGOD\b|\bO\s+LORD\b|\bO\s+God\b|\bGod\b`, case-sensitive. */
  const AnchorAlts: seq<Rx> := [
    Bound(Text("LORD", false, Bound(Done))),
    Bound(Text("GOD", false, Bound(Done))),
    Bound(Text("O", false, Spaces(Text("LORD", false, Bound(Done))))),
    Bound(Text("O", false, Spaces(Text("God", false, Bound(Done))))),
    Bound(Text("God", false, Bound(Done)))
  ]

  /** A top-level alternation: the first alternative, in order, that matches at `i`. */
  function FirstRx(rxs: seq<Rx>, s: string, i: nat): Option<Match> {
    if rxs == [] then None
    else if Run(rxs[0], s, i).Some? then Run(rxs[0], s, i)
    else FirstRx(rxs[1..], s, i)
  }

  function AnchorRe(): Matcher {
    (s: string, i: nat) => FirstRx(AnchorAlts, s, i)
  }

  /** `has_anchor` */
  predicate HasAnchor(text: string) {
    Occurs(AnchorRe(), text)
  }

  /** A whole-word, case-sensitive LORD, GOD or God at `i`. */
  predicate AnchorWordAt(s: string, i: nat) {
    WordAt("LORD", s, i) || WordAt("GOD", s, i) || WordAt("God", s, i)
  }

  lemma {:induction false} FirstRxSome(rxs: seq<Rx>, s: string, i: nat)
    ensures FirstRx(rxs, s, i).Some? <==> exists j :: 0 <= j < |rxs| && Run(rxs[j], s, i).Some?
    ensures FirstRx(rxs, s, i).Some? ==> exists j :: 0 <= j < |rxs| && FirstRx(rxs, s, i) == Run(rxs[j], s, i)
    decreases |rxs|
  {
    if rxs != [] {
      FirstRxSome(rxs[1..], s, i);
      if FirstRx(rxs, s, i).Some? && Run(rxs[0], s, i).None? {
        var j :| 0 <= j < |rxs[1..]| && FirstRx(rxs[1..], s, i) == Run(rxs[1..][j], s, i);
        assert FirstRx(rxs, s, i) == Run(rxs[j + 1], s, i);
      }
      forall j | 0 <= j < |rxs| && Run(rxs[j], s, i).Some?
        ensures FirstRx(rxs, s, i).Some?
      {
        if j > 0 {
          assert rxs[1..][j - 1] == rxs[j];
        }
      }
    }
  }

  /** `\bw\b` for literal text `w`: the whole word `w`. */
  lemma WordRun(w: string, s: string, i: nat)
    ensures Run(Bound(Text(w, false, Bound(Done))), s, i).Some? <==> WordAt(w, s, i)
    ensures Run(Bound(Text(w, false, Bound(Done))), s, i).Some? ==> Run(Bound(Text(w, false, Bound(Done))), s, i).value.end == i + |w|
  {
    var k := Text(w, false, Bound(Done));
    assert Run(Bound(k), s, i) == if Boundary(s, i) then Run(k, s, i) else None;
    assert Run(k, s, i) == if OccursAt(w, s, i) then Run(Bound(Done), s, i + |w|) else None;
    assert Run(Bound(Done), s, i + |w|) == if Boundary(s, i + |w|) then Some(Match(i + |w|, [])) else None;
  }

  /** `\bO\s+W\b`: after the `O` and the whitespace comes the whole word `W`. */
  lemma InvocationRun(w: string, s: string, i: nat) returns (c: nat)
    requires w != [] && IsUpper(w[0])
    requires Run(Bound(Text("O", false, Spaces(Text(w, false, Bound(Done))))), s, i).Some?
    ensures i < c && WordAt(w, s, c)
    ensures i < Run(Bound(Text("O", false, Spaces(Text(w, false, Bound(Done))))), s, i).value.end
  {
    var k := Text(w, false, Bound(Done));
    var m := Run(Bound(Text("O", false, Spaces(k))), s, i).value;
    assert Run(Spaces(k), s, i + 1) == Some(m);
    c := SpacesPick(k, s, i + 1);
    assert IsSpace(s[c - 1]) && s[c] == w[0];
    WordRun(w, s, c);
    assert Run(Bound(k), s, c) == Run(k, s, c);
  }

  /** Each alternative of `ANCHOR_RE` matches a non-empty slice and holds a whole-word
      anchor. */
  lemma AnchorAlt(j: nat, s: string, i: nat) returns (c: nat)
    requires j < |AnchorAlts| && Run(AnchorAlts[j], s, i).Some?
    ensures AnchorWordAt(s, c) && i < Run(AnchorAlts[j], s, i).value.end
  {
    if j == 0 {
      WordRun("LORD", s, i);
      c := i;
    } else if j == 1 {
      WordRun("GOD", s, i);
      c := i;
    } else if j == 2 {
      c := InvocationRun("LORD", s, i);
    } else if j == 3 {
      c := InvocationRun("God", s, i);
    } else {
      WordRun("God", s, i);
      c := i;
    }
  }

  lemma AnchorHitHasWord(text: string, i: nat) returns (c: nat)
    requires IsHit(AnchorRe(), text, i)
    ensures AnchorWordAt(text, c)
  {
    FirstRxSome(AnchorAlts, text, i);
    var j :| 0 <= j < |AnchorAlts| && FirstRx(AnchorAlts, text, i) == Run(AnchorAlts[j], text, i);
    c := AnchorAlt(j, text, i);
  }

  lemma AnchorWordIsHit(text: string, i: nat)
    requires AnchorWordAt(text, i)
    ensures IsHit(AnchorRe(), text, i)
  {
    WordRun("LORD", text, i);
    WordRun("GOD", text, i);
    WordRun("God", text, i);
    var j := if WordAt("LORD", text, i) then 0 else if WordAt("GOD", text, i) then 1 else 4;
    assert Run(AnchorAlts[j], text, i).Some?;
    FirstRxSome(AnchorAlts, text, i);
    var j' :| 0 <= j' < |AnchorAlts| && FirstRx(AnchorAlts, text, i) == Run(AnchorAlts[j'], text, i);
    var c := AnchorAlt(j', text, i);
    RunEnd(AnchorAlts[j'], text, i);
  }

  /** `has_anchor` holds exactly when the text contains a whole-word LORD, GOD or God:
      "O LORD" and "O God" contain one, and "Lord" is not an anchor. */
  lemma HasAnchorIff(text: string)
    ensures HasAnchor(text) <==> exists i :: AnchorWordAt(text, i)
  {
    OccursIff(AnchorRe(), text);
    if HasAnchor(text) {
      var i :| IsHit(AnchorRe(), text, i);
      var c := AnchorHitHasWord(text, i);
    }
    forall i | AnchorWordAt(text, i)
      ensures HasAnchor(text)
    {
      AnchorWordIsHit(text, i);
    }
  }

  // ---------------------------------------------------------------------------------------
  // Confidence

  /** `NEAR_INVOCATION_RE`: `\bO\s+(LORD|God)\b`, ignoring case. */
  const NearInvocation: Rx := Bound(Text("O", true, Spaces(Alt(["LORD", "God"], true, Bound(Done)))))

  /** `s[lo:hi]` with Python's clamping of out-of-range bounds. */
  function Slice(s: string, lo: nat, hi: nat): (r: string)
    ensures |r| <= |s|
  {
    var a := if lo < |s| then lo else |s|;
    var b := if hi < |s| then hi else |s|;
    if a <= b then s[a..b] else []
  }

  lemma SliceIn(s: string, lo: nat, hi: nat)
    requires lo <= hi <= |s|
    ensures Slice(s, lo, hi) == s[lo..hi]
  {
  }

  /** `text[max(0, match_start - 40): match_start + 40]` */
  function Window(text: string, start: nat): string {
    Slice(text, if start >= 40 then start - 40 else 0, start + 40)
  }

  /** `re.match(r"^\s*(God|The LORD|LORD)\b", text)`: after the leading whitespace (which
      the greedy `\s*` takes whole, as the alternatives start with a letter) one of the three
      names, ending at a word boundary. */
  predicate OpensWithName(text: string) {
    Run(Alt(["God", "The LORD", "LORD"], false, Bound(Done)), text, StripStart(text)).Some?
  }

  /** `confidence_for_pronoun`, in hundredths: 55, plus 25 with an anchor, plus 15 with an
      invocation "O LORD"/"O God" within 40 characters of the pronoun, plus 5 when the verse
      opens with God/The LORD/LORD, capped at 95. */
  function ConfidenceForPronoun(text: string, start: nat): (c: nat)
    ensures 55 <= c <= 95
    ensures HasAnchor(text) ==> 80 <= c
  {
    var score := 55 + (if HasAnchor(text) then 25 else 0)
      + (if Occurs(M(NearInvocation), Window(text, start)) then 15 else 0)
      + (if OpensWithName(text) then 5 else 0);
    if score < 95 then score else 95
  }

  // ---------------------------------------------------------------------------------------
  // Span replacement and phrase capitalisation

  /** `apply_single_span`: `text[:start] + replacement + text[end:]`. */
  function ApplySingleSpan(text: string, start: nat, end: nat, replacement: string): string {
    Slice(text, 0, start) + replacement + Slice(text, end, |text|)
  }

  /** For a span inside the text, the result is the text before the span, the replacement,
      and the text after the span. */
  lemma ApplySingleSpanParts(text: string, start: nat, end: nat, replacement: string)
    requires start <= end <= |text|
    ensures var r := ApplySingleSpan(text, start, end, replacement);
      && |r| == |text| - (end - start) + |replacement|
      && r[..start] == text[..start]
      && r[start..start + |replacement|] == replacement
      && r[start + |replacement|..] == text[end..]
  {
    var r := ApplySingleSpan(text, start, end, replacement);
    SliceIn(text, 0, start);
    SliceIn(text, end, |text|);
    assert text[0..start] == text[..start];
    assert r == text[..start] + replacement + text[end..];
  }

  /** `w.capitalize()`: the first character upper-cased, the rest lower-cased. */
  function Capitalize(w: string): (r: string)
    ensures |r| == |w| && Lower(r) == Lower(w)
  {
    if w == [] then []
    else
      CapitalizeLower(w);
      [ToUpper(w[0])] + Lower(w[1..])
  }

  /** Re-casing the first character and lower-casing the rest keeps the lower-cased text. */
  lemma CapitalizeLower(w: string)
    requires w != []
    ensures Lower([ToUpper(w[0])] + Lower(w[1..])) == Lower(w)
  {
    var r := [ToUpper(w[0])] + Lower(w[1..]);
    CaseKeepsClass(w[0]);
    forall k | 1 <= k < |w| ensures ToLower(r[k]) == ToLower(w[k]) {
      assert r[k] == ToLower(w[k]);
      CaseKeepsClass(w[k]);
    }
  }

  function CapitalizeAll(ws: seq<string>): (rs: seq<string>)
    ensures |rs| == |ws| && forall j :: 0 <= j < |ws| ==> rs[j] == Capitalize(ws[j])
  {
    if ws == [] then [] else [Capitalize(ws[0])] + CapitalizeAll(ws[1..])
  }

  /** `cap_phrase`: `" ".join(w.capitalize() for w in phrase.split())`. */
  function CapPhrase(phrase: string): string {
    JoinSpace(CapitalizeAll(SplitSpace(phrase)))
  }

  /** The characters of the words, in order. */
  function Concat(ws: seq<string>): string {
    if ws == [] then [] else ws[0] + Concat(ws[1..])
  }

  lemma {:induction false} SplitSpaceSqueeze(s: string)
    ensures Concat(SplitSpace(s)) == Squeeze(s)
    decreases |s|
  {
    if s != [] {
      if IsSpace(s[0]) {
        SplitSpaceSqueeze(s[1..]);
      } else {
        var e := WordEnd(s, 0);
        SplitSpaceSqueeze(s[e..]);
        assert s == s[..e] + s[e..];
        SqueezeConcat(s[..e], s[e..]);
        NoSpaceSqueeze(s[..e]);
      }
    }
  }

  lemma {:induction false} NoSpaceSqueeze(w: string)
    requires forall x :: 0 <= x < |w| ==> !IsSpace(w[x])
    ensures Squeeze(w) == w
    decreases |w|
  {
    if w != [] {
      NoSpaceSqueeze(w[1..]);
      assert w == [w[0]] + w[1..];
    }
  }

  /** Words without whitespace joined by single spaces are single-spaced and trimmed, and
      hold the words' characters. */
  lemma {:induction false} JoinSpaceShape(ws: seq<string>)
    requires forall j :: 0 <= j < |ws| ==> ws[j] != [] && forall x :: 0 <= x < |ws[j]| ==> !IsSpace(ws[j][x])
    ensures Normalized(JoinSpace(ws)) && Squeeze(JoinSpace(ws)) == Concat(ws)
    ensures ws != [] ==> JoinSpace(ws) != [] && JoinSpace(ws)[0] == ws[0][0]
    decreases |ws|
  {
    if ws != [] {
      NoSpaceSqueeze(ws[0]);
      if |ws| == 1 {
        assert Concat(ws) == ws[0] + Concat(ws[1..]);
      } else {
        JoinSpaceShape(ws[1..]);
        JoinSpaceStep(ws);
      }
    }
  }

  lemma JoinSpaceStep(ws: seq<string>)
    requires |ws| > 1 && ws[0] != [] && forall x :: 0 <= x < |ws[0]| ==> !IsSpace(ws[0][x])
    requires Squeeze(ws[0]) == ws[0]
    requires var rest := JoinSpace(ws[1..]);
      Normalized(rest) && Squeeze(rest) == Concat(ws[1..]) && rest != []
    ensures Normalized(JoinSpace(ws)) && Squeeze(JoinSpace(ws)) == Concat(ws)
    ensures JoinSpace(ws) != [] && JoinSpace(ws)[0] == ws[0][0]
  {
    var rest := JoinSpace(ws[1..]);
    assert JoinSpace(ws) == ws[0] + " " + rest;
    assert Concat(ws) == ws[0] + Concat(ws[1..]);
    SqueezeJoin(ws[0], rest);
    NormalizedJoin(ws[0], rest);
  }

  /** Squeezing `a + " " + rest` where `a` has no whitespace. */
  lemma SqueezeJoin(a: string, rest: string)
    requires Squeeze(a) == a
    ensures Squeeze(a + " " + rest) == a + Squeeze(rest)
  {
    SqueezeConcat(a + " ", rest);
    SqueezeConcat(a, " ");
    SqueezeSpace();
  }

  lemma SqueezeSpace()
    ensures Squeeze(" ") == []
  {
    SqueezeAllSpace(" ");
  }

  /** A word, a space and normalised text make normalised text. */
  lemma NormalizedJoin(a: string, rest: string)
    requires a != [] && (forall x :: 0 <= x < |a| ==> !IsSpace(a[x])) && Normalized(rest) && rest != []
    ensures Normalized(a + " " + rest) && (a + " " + rest)[0] == a[0]
  {
    SingleSpacedConcat(a, " ");
    SingleSpacedConcat(a + " ", rest);
    var r := a + " " + rest;
    assert r[|r| - 1] == rest[|rest| - 1];
  }

  lemma {:induction false} LowerConcat(a: string, b: string)
    ensures Lower(a + b) == Lower(a) + Lower(b)
  {
  }

  lemma {:induction false} CapitalizeAllConcat(ws: seq<string>)
    ensures Lower(Concat(CapitalizeAll(ws))) == Lower(Concat(ws))
    decreases |ws|
  {
    if ws != [] {
      CapitalizeAllConcat(ws[1..]);
      assert CapitalizeAll(ws)[1..] == CapitalizeAll(ws[1..]);
      LowerConcat(Capitalize(ws[0]), Concat(CapitalizeAll(ws[1..])));
      LowerConcat(ws[0], Concat(ws[1..]));
    }
  }

  /** `cap_phrase` gives the phrase's words, in order, separated by single spaces, each with
      its first letter upper-cased and the rest lower-cased: the result is normalised, holds
      the phrase's non-whitespace characters up to case, and starts with an upper-case
      letter when the phrase starts with a letter. */
  lemma CapPhraseProperties(phrase: string)
    ensures Normalized(CapPhrase(phrase))
    ensures Lower(Squeeze(CapPhrase(phrase))) == Lower(Squeeze(phrase))
    ensures phrase != [] && IsLower(phrase[0]) ==> CapPhrase(phrase) != [] && IsUpper(CapPhrase(phrase)[0])
  {
    var ws := SplitSpace(phrase);
    SplitSpaceShape(phrase);
    var cs := CapitalizeAll(ws);
    forall j | 0 <= j < |cs|
      ensures cs[j] != [] && forall x :: 0 <= x < |cs[j]| ==> !IsSpace(cs[j][x])
    {
      forall x | 0 <= x < |cs[j]|
        ensures !IsSpace(cs[j][x])
      {
        assert Lower(cs[j])[x] == Lower(ws[j])[x];
        CaseKeepsClass(cs[j][x]);
        CaseKeepsClass(ws[j][x]);
      }
    }
    JoinSpaceShape(cs);
    SplitSpaceSqueeze(phrase);
    CapitalizeAllConcat(ws);
    if phrase != [] && IsLower(phrase[0]) {
      var e := WordEnd(phrase, 0);
      assert ws[0] == phrase[..e];
    }
  }

  // ---------------------------------------------------------------------------------------
  // Suggestions

  /** `Suggestion`; the confidence is in hundredths. */
  datatype Suggestion = Suggestion(ref: string, original: string, suggested: string, reason: string, confidence: nat, kind: string)

  // ---------------------------------------------------------------------------------------
  // The pronoun loop

  /** `PRONOUN_RE`: `\b(he|him|his|you|your|yours|himself)\b`, case-sensitive. */
  const PronounWords: seq<string> := ["he", "him", "his", "you", "your", "yours", "himself"]

  function PronounRe(): Matcher { AltWords(PronounWords) }

  /** `str.islower()`: some cased character, and every cased character lower-case. */
  predicate IsLowerWord(w: string) {
    (exists x :: 0 <= x < |w| && IsLower(w[x])) && forall x :: 0 <= x < |w| ==> !IsUpper(w[x])
  }

  /** Whole words that start with a lower-case letter. */
  predicate LowerWords(ws: seq<string>) {
    AllWords(ws) && forall j :: 0 <= j < |ws| ==> IsLower(ws[j][0])
  }

  lemma PronounWordsShape()
    ensures LowerWords(PronounWords)
    ensures forall j :: 0 <= j < |PronounWords| ==> IsLowerWord(PronounWords[j])
  {
    forall j | 0 <= j < |PronounWords|
      ensures IsWord(PronounWords[j]) && IsLower(PronounWords[j][0]) && IsLowerWord(PronounWords[j])
    {
      var w := PronounWords[j];
      assert forall x :: 0 <= x < |w| ==> IsLower(w[x]);
    }
  }

  /** The text with the character at `p` upper-cased. */
  function CapAt(s: string, p: nat): (t: string)
    requires p < |s|
    ensures |t| == |s| && t[p] == ToUpper(s[p]) && forall k :: 0 <= k < |s| && k != p ==> t[k] == s[k]
  {
    s[..p] + [ToUpper(s[p])] + s[p + 1..]
  }

  /** The number of lower-case letters: it drops by one with every accepted proposal. */
  function LowerCount(s: string): nat {
    if s == [] then 0 else (if IsLower(s[0]) then 1 else 0) + LowerCount(s[1..])
  }

  lemma {:induction false} LowerCountCapAt(s: string, p: nat)
    requires p < |s| && IsLower(s[p])
    ensures LowerCount(CapAt(s, p)) + 1 == LowerCount(s)
    decreases p
  {
    var t := CapAt(s, p);
    if p > 0 {
      LowerCountCapAt(s[1..], p - 1);
      assert t[1..] == CapAt(s[1..], p - 1);
    } else {
      assert t[1..] == s[1..];
    }
  }

  /** Replacing the span `p..e` by itself with its first letter upper-cased is `CapAt`. */
  lemma CapSpan(s: string, p: nat, e: nat)
    requires p < e <= |s|
    ensures ApplySingleSpan(s, p, e, [ToUpper(s[p..e][0])] + s[p..e][1..]) == CapAt(s, p)
  {
    var rep := [ToUpper(s[p..e][0])] + s[p..e][1..];
    var r := ApplySingleSpan(s, p, e, rep);
    var t := CapAt(s, p);
    assert |rep| == e - p;
    SpliceAt(s, p, e, rep, p);
    forall k | 0 <= k < |s|
      ensures r[k] == t[k]
    {
      SpliceAt(s, p, e, rep, k);
      if p < k < e {
        assert rep[k - p] == s[p..e][1..][k - p - 1] == s[k];
      }
    }
  }

  /** A match of `\b(w1|w2|...)\b` over such words starts a whole word of the list, at a
      lower-case letter. */
  lemma LowerHit(ws: seq<string>, s: string, p: nat)
    requires LowerWords(ws) && IsHit(AltWords(ws), s, p)
    ensures var e := EndOf(AltWords(ws), s, p);
      p < e <= |s| && s[p..e] in ws && WordAt(s[p..e], s, p) && IsLower(s[p]) && Boundary(s, p)
  {
    AltHit(ws, s, p);
    var e := EndOf(AltWords(ws), s, p);
    var j :| 0 <= j < |ws| && ws[j] == s[p..e];
    assert s[p..e][0] == s[p];
  }

  lemma HitIffWord(ws: seq<string>, s: string, k: nat)
    requires AllWords(ws)
    ensures IsHit(AltWords(ws), s, k) <==> exists w :: w in ws && WordAt(w, s, k)
  {
    AltHit(ws, s, k);
  }

  lemma CapAtBoundary(s: string, p: nat)
    requires p < |s|
    ensures forall k :: 0 <= k <= |s| ==> Boundary(CapAt(s, p), k) == Boundary(s, k)
  {
    CaseKeepsClass(s[p]);
  }

  /** Upper-casing a lower-case letter that starts a word removes the whole word starting
      there (it starts with a lower-case letter) and changes no other whole word. */
  lemma CapAtWord(w: string, s: string, p: nat, k: nat)
    requires IsWord(w) && IsLower(w[0])
    requires p < |s| && IsLower(s[p]) && Boundary(s, p)
    ensures WordAt(w, CapAt(s, p), k) <==> WordAt(w, s, k) && k != p
  {
    var t := CapAt(s, p);
    CapAtBoundary(s, p);
    if k + |w| <= |s| {
      if k == p {
        assert t[k..k + |w|][0] == t[p];
      } else if k < p < k + |w| {
        assert s[k..k + |w|][p - 1 - k] == s[p - 1];
        assert t[k..k + |w|][p - 1 - k] == s[p - 1];
      } else {
        assert t[k..k + |w|] == s[k..k + |w|];
      }
    }
  }

  lemma CapAtHits(ws: seq<string>, s: string, p: nat)
    requires LowerWords(ws) && p < |s| && IsLower(s[p]) && Boundary(s, p)
    ensures forall k: nat :: IsHit(AltWords(ws), CapAt(s, p), k) <==> IsHit(AltWords(ws), s, k) && k != p
  {
    var t := CapAt(s, p);
    forall k: nat
      ensures IsHit(AltWords(ws), t, k) <==> IsHit(AltWords(ws), s, k) && k != p
    {
      HitIffWord(ws, s, k);
      HitIffWord(ws, t, k);
      forall w | w in ws
        ensures WordAt(w, t, k) <==> WordAt(w, s, k) && k != p
      {
        var j :| 0 <= j < |ws| && ws[j] == w;
        CapAtWord(w, s, p, k);
      }
    }
  }

  lemma HitCountCapAt(ws: seq<string>, s: string, p: nat)
    requires LowerWords(ws) && IsHit(AltWords(ws), s, p)
    ensures HitCount(AltWords(ws), CapAt(s, p)) + 1 == HitCount(AltWords(ws), s)
  {
    LowerHit(ws, s, p);
    CapAtHits(ws, s, p);
    var t := CapAt(s, p);
    var hs := set k | 0 <= k < |s| && IsHit(AltWords(ws), s, k);
    var ht := set k | 0 <= k < |t| && IsHit(AltWords(ws), t, k);
    assert ht == hs - {p};
    assert hs == ht + {p};
  }

  /** Capitalising one match is one step of re-casing all of them. */
  lemma RecaseCapAt(ws: seq<string>, s: string, p: nat)
    requires LowerWords(ws) && IsHit(AltWords(ws), s, p)
    ensures RecaseHits(AltWords(ws), CapAt(s, p), true) == RecaseHits(AltWords(ws), s, true)
  {
    LowerHit(ws, s, p);
    CapAtHits(ws, s, p);
    var t := CapAt(s, p);
    var a := RecaseHits(AltWords(ws), t, true);
    var b := RecaseHits(AltWords(ws), s, true);
    forall k | 0 <= k < |s|
      ensures a[k] == b[k]
    {
      if k == p {
        CaseKeepsClass(s[p]);
      }
    }
  }

  lemma RecaseNoHits(m: Matcher, s: string, up: bool)
    requires forall k :: 0 <= k < |s| ==> !IsHit(m, s, k)
    ensures RecaseHits(m, s, up) == s
  {
  }

  /** A whole word starting with an upper-case letter survives upper-casing a lower-case
      letter at the start of a word. */
  lemma CapAtKeepsWord(w: string, s: string, p: nat, i: nat)
    requires IsWord(w) && IsUpper(w[0]) && WordAt(w, s, i)
    requires p < |s| && IsLower(s[p]) && Boundary(s, p)
    ensures WordAt(w, CapAt(s, p), i)
  {
    var t := CapAt(s, p);
    CapAtBoundary(s, p);
    assert s[i..i + |w|][0] == s[i];
    assert t[i..i + |w|] == s[i..i + |w|];
  }

  lemma CapAtKeepsAnchorWord(s: string, p: nat, i: nat)
    requires p < |s| && IsLower(s[p]) && Boundary(s, p) && AnchorWordAt(s, i)
    ensures AnchorWordAt(CapAt(s, p), i)
  {
    assert IsWord("LORD") && IsWord("GOD") && IsWord("God");
    if WordAt("LORD", s, i) {
      CapAtKeepsWord("LORD", s, p, i);
    } else if WordAt("GOD", s, i) {
      CapAtKeepsWord("GOD", s, p, i);
    } else {
      CapAtKeepsWord("God", s, p, i);
    }
  }

  /** Capitalising a pronoun keeps the verse's anchor. */
  lemma CapAtKeepsAnchor(s: string, p: nat)
    requires p < |s| && IsLower(s[p]) && Boundary(s, p)
    ensures HasAnchor(s) ==> HasAnchor(CapAt(s, p))
  {
    HasAnchorIff(s);
    HasAnchorIff(CapAt(s, p));
    forall i | AnchorWordAt(s, i)
      ensures AnchorWordAt(CapAt(s, p), i)
    {
      CapAtKeepsAnchorWord(s, p, i);
    }
  }

  /** One turn of the loop at the leftmost match `p`: the replacement
      `pron[0].upper() + pron[1:]` upper-cases the match's first letter and nothing else. */
  lemma CapStep(ws: seq<string>, s: string, p: nat)
    requires LowerWords(ws) && IsHit(AltWords(ws), s, p)
    ensures var e := EndOf(AltWords(ws), s, p);
      && p < e <= |s| && s[p..e] in ws && IsLower(s[p]) && Boundary(s, p)
      && ApplySingleSpan(s, p, e, [ToUpper(s[p..e][0])] + s[p..e][1..]) == CapAt(s, p)
      && LowerCount(CapAt(s, p)) < LowerCount(s)
  {
    LowerHit(ws, s, p);
    var e := EndOf(AltWords(ws), s, p);
    CapSpan(s, p, e);
    LowerCountCapAt(s, p);
  }

  /** One proposal of the pronoun loop: the text before it, where the pronoun starts, the
      pronoun, and the text after it. */
  datatype Edit = Edit(before: string, start: nat, word: string, after: string)

  /** The proposals of the pronoun loop from the working text on, for the whole words `ws`:
      find the leftmost, capitalise it, and carry on from the result. */
  function CapEdits(ws: seq<string>, working: string): seq<Edit>
    requires LowerWords(ws)
    decreases LowerCount(working)
  {
    match Search(AltWords(ws), working)
    case None => []
    case Some(p) =>
      var e := EndOf(AltWords(ws), working, p);
      var pron := working[p..e];
      CapStep(ws, working, p);
      var next := ApplySingleSpan(working, p, e, [ToUpper(pron[0])] + pron[1..]);
      [Edit(working, p, pron, next)] + CapEdits(ws, next)
  }

  lemma CapEditsUnfold(ws: seq<string>, working: string)
    requires LowerWords(ws)
    ensures Search(AltWords(ws), working).None? ==> CapEdits(ws, working) == []
    ensures Search(AltWords(ws), working).Some? ==>
      var p := Search(AltWords(ws), working).value;
      && p < |working| && IsLower(working[p]) && Boundary(working, p)
      && CapEdits(ws, working)[0] == Edit(working, p, working[p..EndOf(AltWords(ws), working, p)], CapAt(working, p))
      && CapEdits(ws, working) == [CapEdits(ws, working)[0]] + CapEdits(ws, CapAt(working, p))
      && working[p..EndOf(AltWords(ws), working, p)] in ws
      && LowerCount(CapAt(working, p)) < LowerCount(working)
  {
    if Search(AltWords(ws), working).Some? {
      CapStep(ws, working, Search(AltWords(ws), working).value);
    }
  }

  /** The loop makes one proposal per whole-word match of the text. */
  lemma {:induction false} CapEditsCount(ws: seq<string>, working: string)
    requires LowerWords(ws)
    ensures |CapEdits(ws, working)| == HitCount(AltWords(ws), working)
    ensures CapEdits(ws, working) == [] <==> !Occurs(AltWords(ws), working)
    decreases LowerCount(working)
  {
    var m := AltWords(ws);
    CapEditsUnfold(ws, working);
    match Search(m, working)
    case None =>
      assert (set k | 0 <= k < |working| && IsHit(m, working, k)) == {};
    case Some(p) =>
      CapEditsCount(ws, CapAt(working, p));
      HitCountCapAt(ws, working, p);
  }

  /** Each proposal capitalises the leftmost match of the text it starts from. */
  lemma {:induction false} CapEditsSteps(ws: seq<string>, working: string)
    requires LowerWords(ws)
    ensures var es := CapEdits(ws, working);
      forall j :: 0 <= j < |es| ==>
        && Search(AltWords(ws), es[j].before) == Some(es[j].start)
        && es[j].word in ws
        && es[j].after == CapAt(es[j].before, es[j].start)
    decreases LowerCount(working)
  {
    var es := CapEdits(ws, working);
    CapEditsUnfold(ws, working);
    match Search(AltWords(ws), working)
    case None =>
    case Some(p) =>
      var rest := CapEdits(ws, CapAt(working, p));
      CapEditsSteps(ws, CapAt(working, p));
      forall j | 0 <= j < |es|
        ensures Search(AltWords(ws), es[j].before) == Some(es[j].start) && es[j].word in ws
        ensures es[j].after == CapAt(es[j].before, es[j].start)
      {
        if j > 0 {
          assert es[j] == rest[j - 1];
        }
      }
  }

  /** The first proposal starts from the text, each further one from the previous one's
      result, and the matches capitalised lie further and further right. */
  lemma {:induction false} CapEditsChain(ws: seq<string>, working: string)
    requires LowerWords(ws)
    ensures var es := CapEdits(ws, working);
      && (es != [] ==> es[0].before == working)
      && forall j :: 0 <= j < |es| - 1 ==> es[j + 1].before == es[j].after && es[j].start < es[j + 1].start
    decreases LowerCount(working)
  {
    CapEditsUnfold(ws, working);
    match Search(AltWords(ws), working)
    case None =>
    case Some(p) =>
      CapEditsChain(ws, CapAt(working, p));
      CapEditsChainStep(ws, working, p);
  }

  /** The chain of proposals from the text, given the chain from the text after the
      first proposal. */
  lemma CapEditsChainStep(ws: seq<string>, working: string, p: nat)
    requires LowerWords(ws) && Search(AltWords(ws), working) == Some(p)
    requires var rest := CapEdits(ws, CapAt(working, p));
      && (rest != [] ==> rest[0].before == CapAt(working, p))
      && forall j :: 0 <= j < |rest| - 1 ==> rest[j + 1].before == rest[j].after && rest[j].start < rest[j + 1].start
    ensures var es := CapEdits(ws, working);
      && (es != [] ==> es[0].before == working)
      && forall j :: 0 <= j < |es| - 1 ==> es[j + 1].before == es[j].after && es[j].start < es[j + 1].start
  {
    CapEditsUnfold(ws, working);
    var next := CapAt(working, p);
    var es := CapEdits(ws, working);
    var rest := CapEdits(ws, next);
    assert es == [es[0]] + rest;
    if rest != [] {
      NextStartsRight(ws, working, p);
    }
    forall j | 0 <= j < |es| - 1
      ensures es[j + 1].before == es[j].after && es[j].start < es[j + 1].start
    {
      if j > 0 {
        assert es[j] == rest[j - 1];
      }
    }
  }

  /** The proposal after the one at `p` starts from its result, further right. */
  lemma NextStartsRight(ws: seq<string>, working: string, p: nat)
    requires LowerWords(ws) && Search(AltWords(ws), working) == Some(p)
    requires CapEdits(ws, CapAt(working, p)) != []
    ensures CapEdits(ws, CapAt(working, p))[0].start > p
  {
    var m := AltWords(ws);
    var next := CapAt(working, p);
    var rest := CapEdits(ws, next);
    CapEditsUnfold(ws, working);
    CapEditsSteps(ws, next);
    assert Search(m, next) == Some(rest[0].start);
    CapAtHits(ws, working, p);
    assert IsHit(m, next, rest[0].start);
  }

  /** The last proposal has every match of the text capitalised and no other change. */
  lemma {:induction false} CapEditsFinal(ws: seq<string>, working: string)
    requires LowerWords(ws)
    ensures var es := CapEdits(ws, working);
      es != [] ==> es[|es| - 1].after == RecaseHits(AltWords(ws), working, true)
    decreases LowerCount(working)
  {
    CapEditsUnfold(ws, working);
    match Search(AltWords(ws), working)
    case None =>
    case Some(p) =>
      CapEditsFinal(ws, CapAt(working, p));
      CapEditsFinalStep(ws, working, p);
  }

  lemma CapEditsFinalStep(ws: seq<string>, working: string, p: nat)
    requires LowerWords(ws) && Search(AltWords(ws), working) == Some(p)
    requires var rest := CapEdits(ws, CapAt(working, p));
      rest != [] ==> rest[|rest| - 1].after == RecaseHits(AltWords(ws), CapAt(working, p), true)
    ensures var es := CapEdits(ws, working);
      es != [] ==> es[|es| - 1].after == RecaseHits(AltWords(ws), working, true)
  {
    var next := CapAt(working, p);
    CapEditsUnfold(ws, working);
    RecaseCapAt(ws, working, p);
    var es := CapEdits(ws, working);
    var rest := CapEdits(ws, next);
    if rest == [] {
      NoEditsNoHits(ws, next);
    }
    LastOfCons(es, es[0], rest);
  }

  lemma LastOfCons<T>(xs: seq<T>, x: T, rest: seq<T>)
    requires xs == [x] + rest
    ensures xs[|xs| - 1] == if rest == [] then x else rest[|rest| - 1]
  {
  }

  /** When the loop proposes nothing, every match is already capitalised. */
  lemma NoEditsNoHits(ws: seq<string>, s: string)
    requires LowerWords(ws) && CapEdits(ws, s) == []
    ensures RecaseHits(AltWords(ws), s, true) == s
  {
    CapEditsCount(ws, s);
    OccursIff(AltWords(ws), s);
    RecaseNoHits(AltWords(ws), s, true);
  }

  /** Every proposal keeps the verse's anchor, so when the loop runs at all every
      proposal scores between 80 and 95. */
  lemma {:induction false} CapEditsAnchored(ws: seq<string>, working: string)
    requires LowerWords(ws) && HasAnchor(working)
    ensures forall j :: 0 <= j < |CapEdits(ws, working)| ==> HasAnchor(CapEdits(ws, working)[j].before)
    decreases LowerCount(working)
  {
    CapEditsUnfold(ws, working);
    match Search(AltWords(ws), working)
    case None =>
    case Some(p) =>
      CapAtKeepsAnchor(working, p);
      CapEditsAnchored(ws, CapAt(working, p));
      var es := CapEdits(ws, working);
      forall j | 0 <= j < |es|
        ensures HasAnchor(es[j].before)
      {
        if j > 0 {
          assert es[j] == CapEdits(ws, CapAt(working, p))[j - 1];
        }
      }
  }

  function PronounReason(pron: string): string {
    "Divine pronoun '" + pron + "' not capitalized (anchor present in verse)."
  }

  function PronounSuggestion(ref: string, original: string, e: Edit): Suggestion {
    Suggestion(ref, original, e.after, PronounReason(e.word), ConfidenceForPronoun(e.before, e.start), "pronoun")
  }

  // ---------------------------------------------------------------------------------------
  // Titles

  /** The owner group `(my|our|his|their)`; the four words start with four different
      letters, so at most one of them can match at an index and the alternation never
      needs to backtrack into another word. */
  const Owners: seq<string> := ["my", "our", "his", "their"]

  /** The single-word title nouns `rock|fortress|stronghold`, also with different first
      letters (and different from `high`). */
  const Nouns: seq<string> := ["rock", "fortress", "stronghold"]

  /** The first word of `ws` that occurs at `i` ignoring case, and where it ends. */
  function FoldWordEnd(ws: seq<string>, s: string, i: nat): (r: Option<nat>)
    ensures r.Some? ==> i <= r.value <= |s|
  {
    if ws == [] then None
    else if OccursAtFold(ws[0], s, i) then Some(i + |ws[0]|)
    else FoldWordEnd(ws[1..], s, i)
  }

  /** The first word of `ws` that occurs at `i` ignoring case and is followed by `\b`. */
  function FoldWordBound(ws: seq<string>, s: string, i: nat): (r: Option<nat>)
    ensures r.Some? ==> i <= r.value <= |s| && Boundary(s, r.value)
  {
    if ws == [] then None
    else if OccursAtFold(ws[0], s, i) && Boundary(s, i + |ws[0]|) then Some(i + |ws[0]|)
    else FoldWordBound(ws[1..], s, i)
  }

  /** The word `FoldWordBound` found. */
  lemma {:induction false} FoldWordBoundPick(ws: seq<string>, s: string, i: nat) returns (w: string)
    requires FoldWordBound(ws, s, i).Some?
    ensures w in ws && OccursAtFold(w, s, i) && FoldWordBound(ws, s, i).value == i + |w|
    decreases |ws|
  {
    if OccursAtFold(ws[0], s, i) && Boundary(s, i + |ws[0]|) {
      w := ws[0];
    } else {
      w := FoldWordBoundPick(ws[1..], s, i);
    }
  }

  /** The noun group `(rock|fortress|stronghold|high\s+tower)` followed by `\b`, ignoring
      case.  The greedy `\s+` inside `high\s+tower` is followed by a letter, so only the
      whole whitespace run can succeed. */
  function NounEnd(s: string, c: nat): (r: Option<nat>)
    ensures r.Some? ==> c < r.value <= |s| && Boundary(s, r.value)
  {
    match FoldWordBound(Nouns, s, c)
    case Some(e) => if c < e then Some(e) else None
    case None =>
      if OccursAtFold("high", s, c) && c + 4 < |s| && IsSpace(s[c + 4]) then
        var t := SpaceRunEnd(s, c + 4);
        if OccursAtFold("tower", s, t) && Boundary(s, t + 5) then Some(t + 5) else None
      else None
  }

  datatype TitleKind = IsTitle | PossessiveTitle

  /** Where the owner word starts: at once for `POSSESSIVE_TITLE_RE`, after `is` and its
      whitespace run for `IS_TITLE_RE`. */
  function OwnerStart(kind: TitleKind, s: string, i: nat): Option<nat> {
    match kind
    case PossessiveTitle => Some(i)
    case IsTitle =>
      if OccursAtFold("is", s, i) && i + 2 < |s| && IsSpace(s[i + 2]) then Some(SpaceRunEnd(s, i + 2)) else None
  }

  /** `IS_TITLE_RE` (`\bis\s+(my|our|his|their)\s+(rock|fortress|stronghold|high\s+tower)\b`)
      and `POSSESSIVE_TITLE_RE` (the same without `is\s+`), ignoring case, at `i`: group 1 is
      the owner, group 2 the noun, and the match ends where the noun does. */
  function TitleAt(kind: TitleKind, s: string, i: nat): (r: Option<Match>)
    ensures r.Some? ==>
      && |r.value.groups| == 2
      && i <= r.value.groups[1].start < r.value.groups[1].end == r.value.end <= |s|
  {
    if !Boundary(s, i) then None
    else
      match OwnerStart(kind, s, i)
      case None => None
      case Some(j) =>
        if j > |s| then None
        else
          match FoldWordEnd(Owners, s, j)
          case None => None
          case Some(o) =>
            if o < |s| && IsSpace(s[o]) then
              var c := SpaceRunEnd(s, o);
              match NounEnd(s, c)
              case None => None
              case Some(e) => Some(Match(e, [Span(j, o), Span(c, e)]))
            else None
  }

  function TitleRe(kind: TitleKind): Matcher {
    (s: string, i: nat) => TitleAt(kind, s, i)
  }

  function TitleReason(kind: TitleKind): string {
    match kind
    case IsTitle => "Divine title used as identity ('is my/our/his/their ...')."
    case PossessiveTitle => "Divine title used as possessive title ('my/our/his/their ...')."
  }

  function TitleConfidence(kind: TitleKind): nat {
    match kind
    case IsTitle => 92
    case PossessiveTitle => 88
  }

  /** `m.span(2)` */
  function NounSpan(f: Found): Span {
    if |f.m.groups| >= 2 then f.m.groups[1] else Span(f.start, f.m.end)
  }

  /** `cap_phrase(m.group(2).lower())`, the group taken from the text the matches were
      listed in. */
  function TitleCap(src: string, f: Found): string {
    CapPhrase(Lower(SpanText(src, NounSpan(f))))
  }

  function NounSpans(fs: seq<Found>): (gs: seq<Span>)
    ensures |gs| == |fs| && forall j :: 0 <= j < |fs| ==> gs[j] == NounSpan(fs[j])
  {
    seq(|fs|, j requires 0 <= j < |fs| => NounSpan(fs[j]))
  }

  function TitleCaps(src: string, fs: seq<Found>): (cs: seq<string>)
    ensures |cs| == |fs| && forall j :: 0 <= j < |fs| ==> cs[j] == TitleCap(src, fs[j])
  {
    seq(|fs|, j requires 0 <= j < |fs| => TitleCap(src, fs[j]))
  }

  /** The spans lie in the text, each non-empty and each after the one before. */
  predicate Ordered(src: string, gs: seq<Span>) {
    && (forall j :: 0 <= j < |gs| ==> gs[j].start < gs[j].end <= |src|)
    && (forall j :: 0 <= j < |gs| - 1 ==> gs[j].end <= gs[j + 1].start)
  }

  lemma TitlesOrdered(kind: TitleKind, src: string)
    ensures Ordered(src, NounSpans(FindAll(TitleRe(kind), src)))
  {
    var fs := FindAll(TitleRe(kind), src);
    forall j | 0 <= j < |fs|
      ensures fs[j].start <= NounSpan(fs[j]).start < NounSpan(fs[j]).end == fs[j].m.end <= |src|
    {
      assert fs[j].m == TitleAt(kind, src, fs[j].start).value;
    }
  }

  /** The title loop as written: every span was found in the text the matches were listed
      in, but it is replaced in the current working text, which earlier replacements may
      have made shorter. */
  function StaleTexts(working: string, gs: seq<Span>, cs: seq<string>): (ts: seq<string>)
    requires |gs| == |cs|
    ensures |ts| == |gs|
  {
    seq(|gs|, j requires 0 <= j < |gs| => Working(working, gs, cs, j + 1))
  }

  /** The working text once the first `n` spans have been replaced, each at the offsets it
      was found at. */
  function Working(working: string, gs: seq<Span>, cs: seq<string>, n: nat): string
    requires |gs| == |cs| && n <= |gs|
  {
    if n == 0 then working
    else ApplySingleSpan(Working(working, gs, cs, n - 1), gs[n - 1].start, gs[n - 1].end, cs[n - 1])
  }

  /** Where the last span ends (0 for none). */
  function LastEnd(gs: seq<Span>): nat {
    if gs == [] then 0 else gs[|gs| - 1].end
  }

  /** `src` up to the end of the last span, every span replaced by its phrase. */
  function Capped(src: string, gs: seq<Span>, cs: seq<string>): string
    requires |gs| == |cs|
    decreases |gs|
  {
    if gs == [] then []
    else
      var n := |gs| - 1;
      Capped(src, gs[..n], cs[..n]) + Slice(src, LastEnd(gs[..n]), gs[n].start) + cs[n]
  }

  /** `src` with every span replaced by its phrase and nothing else changed. */
  function Rebuilt(src: string, gs: seq<Span>, cs: seq<string>): string
    requires |gs| == |cs|
  {
    Capped(src, gs, cs) + Slice(src, LastEnd(gs), |src|)
  }

  /** The title loop as intended: the j-th proposal is the text with the first j+1 spans
      replaced. */
  function IntendedTexts(src: string, gs: seq<Span>, cs: seq<string>): (ts: seq<string>)
    requires |gs| == |cs|
    ensures |ts| == |gs|
    decreases |gs|
  {
    if gs == [] then [] else IntendedTexts(src, gs[..|gs| - 1], cs[..|gs| - 1]) + [Rebuilt(src, gs, cs)]
  }

  lemma {:induction false} IntendedTextsAt(src: string, gs: seq<Span>, cs: seq<string>, j: nat)
    requires |gs| == |cs| && j < |gs|
    ensures IntendedTexts(src, gs, cs)[j] == Rebuilt(src, gs[..j + 1], cs[..j + 1])
    decreases |gs|
  {
    var n := |gs| - 1;
    IntendedTextsLast(src, gs, cs);
    if j < n {
      IntendedTextsAt(src, gs[..n], cs[..n], j);
      assert gs[..n][..j + 1] == gs[..j + 1] && cs[..n][..j + 1] == cs[..j + 1];
    } else {
      assert gs[..j + 1] == gs && cs[..j + 1] == cs;
    }
  }

  /** The proposals for all spans extend those for all but the last by one. */
  lemma IntendedTextsLast(src: string, gs: seq<Span>, cs: seq<string>)
    requires |gs| == |cs| && gs != []
    ensures var n := |gs| - 1;
      && IntendedTexts(src, gs, cs)[n] == Rebuilt(src, gs, cs)
      && forall j :: 0 <= j < n ==> IntendedTexts(src, gs, cs)[j] == IntendedTexts(src, gs[..n], cs[..n])[j]
  {
    var n := |gs| - 1;
    var pre := IntendedTexts(src, gs[..n], cs[..n]);
    assert IntendedTexts(src, gs, cs) == pre + [Rebuilt(src, gs, cs)];
  }

  /** How far the phrases written so far have moved everything after them. */
  function Shift(src: string, gs: seq<Span>, cs: seq<string>): int
    requires |gs| == |cs|
  {
    |Capped(src, gs, cs)| - LastEnd(gs)
  }

  /** In `w == cp + src[last..]`, the slice that holds `src[c..e]`. */
  lemma Splice(w: string, cp: string, src: string, last: nat, c: nat, e: nat, a: nat)
    requires last <= c <= e <= |src| && w == cp + src[last..] && a == |cp| + (c - last)
    ensures a + (e - c) <= |w|
    ensures w[a..a + (e - c)] == src[c..e]
    ensures w[..a] == cp + src[last..c]
    ensures w[a + (e - c)..] == src[e..]
  {
    assert w[a..a + (e - c)] == src[last..][c - last..e - last];
  }

  lemma ApplyIn(w: string, a: nat, b: nat, rep: string)
    requires a <= b <= |w|
    ensures ApplySingleSpan(w, a, b, rep) == w[..a] + rep + w[b..]
  {
    SliceIn(w, 0, a);
    SliceIn(w, b, |w|);
    assert w[0..a] == w[..a];
  }

  lemma CappedSnoc(src: string, gs: seq<Span>, cs: seq<string>, j: nat)
    requires |gs| == |cs| && j < |gs|
    ensures Capped(src, gs[..j + 1], cs[..j + 1]) == Capped(src, gs[..j], cs[..j]) + Slice(src, LastEnd(gs[..j]), gs[j].start) + cs[j]
    ensures LastEnd(gs[..j + 1]) == gs[j].end
  {
    assert gs[..j + 1][..j] == gs[..j] && cs[..j + 1][..j] == cs[..j];
  }

  lemma LastEndBefore(src: string, gs: seq<Span>, j: nat)
    requires Ordered(src, gs) && j < |gs|
    ensures LastEnd(gs[..j]) <= gs[j].start
  {
    if j > 0 {
      assert gs[..j][j - 1] == gs[j - 1];
    }
  }

  /** One turn of the intended loop: the next span, moved by the shift of the spans before
      it to `a..b`, is replaced by its phrase. */
  lemma RebuiltStep(src: string, gs: seq<Span>, cs: seq<string>, j: nat) returns (a: nat, b: nat)
    requires |gs| == |cs| && Ordered(src, gs) && j < |gs|
    ensures a == gs[j].start + Shift(src, gs[..j], cs[..j]) && b == gs[j].end + Shift(src, gs[..j], cs[..j])
    ensures a <= b <= |Rebuilt(src, gs[..j], cs[..j])|
    ensures Rebuilt(src, gs[..j], cs[..j])[a..b] == src[gs[j].start..gs[j].end]
    ensures ApplySingleSpan(Rebuilt(src, gs[..j], cs[..j]), a, b, cs[j]) == Rebuilt(src, gs[..j + 1], cs[..j + 1])
  {
    var g := gs[j];
    var last := LastEnd(gs[..j]);
    var cp := Capped(src, gs[..j], cs[..j]);
    RebuiltNext(src, gs, cs, j);
    a := |cp| + (g.start - last);
    b := a + (g.end - g.start);
    SpliceStep(Rebuilt(src, gs[..j], cs[..j]), Rebuilt(src, gs[..j + 1], cs[..j + 1]), cp, src, last, g.start, g.end, cs[j], a, b);
  }

  /** Replacing, in `w == cp + src[last..]`, the slice that holds `src[c..e]`. */
  lemma SpliceStep(w: string, w2: string, cp: string, src: string, last: nat, c: nat, e: nat, rep: string, a: nat, b: nat)
    requires last <= c <= e <= |src| && w == cp + src[last..] && a == |cp| + (c - last) && b == a + (e - c)
    requires w2 == cp + src[last..c] + rep + src[e..]
    ensures a <= b <= |w| && w[a..b] == src[c..e]
    ensures ApplySingleSpan(w, a, b, rep) == w2
  {
    Splice(w, cp, src, last, c, e, a);
    ApplyIn(w, a, b, rep);
  }

  /** The text with the first `j` spans replaced, and with the first `j + 1`, in terms of
      the phrases written so far and the rest of `src`. */
  lemma RebuiltNext(src: string, gs: seq<Span>, cs: seq<string>, j: nat)
    requires |gs| == |cs| && Ordered(src, gs) && j < |gs|
    ensures var last, cp := LastEnd(gs[..j]), Capped(src, gs[..j], cs[..j]);
      && last <= gs[j].start
      && Rebuilt(src, gs[..j], cs[..j]) == cp + src[last..]
      && Rebuilt(src, gs[..j + 1], cs[..j + 1]) == cp + src[last..gs[j].start] + cs[j] + src[gs[j].end..]
  {
    var g := gs[j];
    var last := LastEnd(gs[..j]);
    LastEndBefore(src, gs, j);
    CappedSnoc(src, gs, cs, j);
    RebuiltIn(src, gs[..j], cs[..j]);
    RebuiltIn(src, gs[..j + 1], cs[..j + 1]);
    SliceIn(src, last, g.start);
  }

  lemma RebuiltIn(src: string, gs: seq<Span>, cs: seq<string>)
    requires |gs| == |cs| && LastEnd(gs) <= |src|
    ensures Rebuilt(src, gs, cs) == Capped(src, gs, cs) + src[LastEnd(gs)..]
  {
    SliceIn(src, LastEnd(gs), |src|);
  }

  /** Every span is replaced by a phrase of its own length, as a title noun whose words
      are separated by single spaces is. */
  predicate LengthsKept(gs: seq<Span>, cs: seq<string>)
    requires |gs| == |cs|
  {
    forall j :: 0 <= j < |gs| ==> |cs[j]| == gs[j].end - gs[j].start
  }

  lemma {:induction false} ShiftZero(src: string, gs: seq<Span>, cs: seq<string>, i: nat)
    requires |gs| == |cs| && Ordered(src, gs) && LengthsKept(gs, cs) && i <= |gs|
    ensures Shift(src, gs[..i], cs[..i]) == 0
  {
    if i > 0 {
      ShiftZero(src, gs, cs, i - 1);
      CappedSnoc(src, gs, cs, i - 1);
      LastEndBefore(src, gs, i - 1);
      SliceIn(src, LastEnd(gs[..i - 1]), gs[i - 1].start);
    }
  }

  lemma RebuiltNone(src: string, gs: seq<Span>, cs: seq<string>)
    requires |gs| == |cs|
    ensures Rebuilt(src, gs[..0], cs[..0]) == src
  {
    assert gs[..0] == [] && cs[..0] == [];
    SliceIn(src, 0, |src|);
  }

  /** The first proposal of the loop as written. */
  lemma StaleTextsFirst(w: string, gs: seq<Span>, cs: seq<string>)
    requires |gs| == |cs| && gs != []
    ensures StaleTexts(w, gs, cs)[0] == ApplySingleSpan(w, gs[0].start, gs[0].end, cs[0])
  {
    StaleAt(w, gs, cs, 0);
  }

  /** The j-th proposal of the loop as written is the working text after j+1
      replacements. */
  lemma StaleAt(w: string, gs: seq<Span>, cs: seq<string>, j: nat)
    requires |gs| == |cs| && j < |gs|
    ensures StaleTexts(w, gs, cs)[j] == Working(w, gs, cs, j + 1)
  {
  }

  /** Each later proposal of the loop as written is the one before it with the next span
      replaced, at that span's original offsets. */
  lemma StaleTextsNext(w: string, gs: seq<Span>, cs: seq<string>, j: nat)
    requires |gs| == |cs| && j + 1 < |gs|
    ensures StaleTexts(w, gs, cs)[j + 1]
      == ApplySingleSpan(StaleTexts(w, gs, cs)[j], gs[j + 1].start, gs[j + 1].end, cs[j + 1])
  {
    StaleAt(w, gs, cs, j);
    StaleAt(w, gs, cs, j + 1);
  }

  /** With lengths kept, the j-th proposal of the loop as written is the text with the
      first j+1 spans replaced. */
  lemma StaleIsRebuilt(src: string, gs: seq<Span>, cs: seq<string>, j: nat)
    requires |gs| == |cs| && Ordered(src, gs) && LengthsKept(gs, cs) && j < |gs|
    ensures StaleTexts(src, gs, cs)[j] == Rebuilt(src, gs[..j + 1], cs[..j + 1])
  {
    StaleAt(src, gs, cs, j);
    WorkingIsRebuilt(src, gs, cs, j + 1);
  }

  /** With lengths kept, the working text after `n` replacements is the text with the
      first `n` spans replaced. */
  lemma {:induction false} WorkingIsRebuilt(src: string, gs: seq<Span>, cs: seq<string>, n: nat)
    requires |gs| == |cs| && Ordered(src, gs) && LengthsKept(gs, cs) && n <= |gs|
    ensures Working(src, gs, cs, n) == Rebuilt(src, gs[..n], cs[..n])
    decreases n
  {
    if n == 0 {
      RebuiltNone(src, gs, cs);
    } else {
      WorkingIsRebuilt(src, gs, cs, n - 1);
      WorkingStep(src, gs, cs, n);
    }
  }

  lemma WorkingStep(src: string, gs: seq<Span>, cs: seq<string>, n: nat)
    requires |gs| == |cs| && Ordered(src, gs) && LengthsKept(gs, cs) && 0 < n <= |gs|
    requires Working(src, gs, cs, n - 1) == Rebuilt(src, gs[..n - 1], cs[..n - 1])
    ensures Working(src, gs, cs, n) == Rebuilt(src, gs[..n], cs[..n])
  {
    var j := n - 1;
    ShiftZero(src, gs, cs, j);
    var a, b := RebuiltStep(src, gs, cs, j);
    assert j + 1 == n;
    ApplySame(Working(src, gs, cs, n), Working(src, gs, cs, j), Rebuilt(src, gs[..j], cs[..j]),
      Rebuilt(src, gs[..n], cs[..n]), gs[j].start, gs[j].end, a, b, cs[j]);
  }

  lemma ApplySame(x: string, y: string, w: string, w2: string, c: nat, e: nat, a: nat, b: nat, rep: string)
    requires x == ApplySingleSpan(y, c, e, rep) && y == w && c == a && e == b
    requires ApplySingleSpan(w, a, b, rep) == w2
    ensures x == w2
  {
  }

  /** Where no replacement changes a span's length, the loop as written gives the intended
      proposals. */
  lemma StaleAgrees(src: string, gs: seq<Span>, cs: seq<string>)
    requires |gs| == |cs| && Ordered(src, gs) && LengthsKept(gs, cs)
    ensures StaleTexts(src, gs, cs) == IntendedTexts(src, gs, cs)
  {
    forall j | 0 <= j < |gs|
      ensures StaleTexts(src, gs, cs)[j] == IntendedTexts(src, gs, cs)[j]
    {
      StaleIsRebuilt(src, gs, cs, j);
      IntendedTextsAt(src, gs, cs, j);
    }
  }

  /** The first proposal, as written and as intended: the text with the first span
      replaced. */
  lemma FirstProposal(src: string, gs: seq<Span>, cs: seq<string>)
    requires |gs| == |cs| && Ordered(src, gs) && |gs| >= 1
    ensures ApplySingleSpan(src, gs[0].start, gs[0].end, cs[0]) == Rebuilt(src, gs[..1], cs[..1])
    ensures |Capped(src, gs[..1], cs[..1])| == gs[0].start + |cs[0]|
    ensures Rebuilt(src, gs[..1], cs[..1]) == Capped(src, gs[..1], cs[..1]) + src[gs[0].end..]
  {
    FirstSplice(src, gs, cs);
    CappedFirst(src, gs, cs);
    SliceIn(src, gs[0].end, |src|);
  }

  /** Replacing the first span in the text is the first step of the rebuild. */
  lemma FirstSplice(src: string, gs: seq<Span>, cs: seq<string>)
    requires |gs| == |cs| && Ordered(src, gs) && |gs| >= 1
    ensures ApplySingleSpan(src, gs[0].start, gs[0].end, cs[0]) == Rebuilt(src, gs[..1], cs[..1])
  {
    assert gs[..0] == [] && cs[..0] == [];
    assert Shift(src, gs[..0], cs[..0]) == 0;
    RebuiltNone(src, gs, cs);
    var a0, b0 := RebuiltStep(src, gs, cs, 0);
  }

  /** The text up to the end of the first span, with that span replaced. */
  lemma CappedFirst(src: string, gs: seq<Span>, cs: seq<string>)
    requires |gs| == |cs| && Ordered(src, gs) && |gs| >= 1
    ensures |Capped(src, gs[..1], cs[..1])| == gs[0].start + |cs[0]|
    ensures LastEnd(gs[..1]) == gs[0].end
  {
    assert gs[..0] == [] && cs[..0] == [];
    CappedSnoc(src, gs, cs, 0);
    SliceIn(src, 0, gs[0].start);
  }

  /** Where the second span starts once the first phrase is in place. */
  function SecondStart(gs: seq<Span>, cs: seq<string>): int
    requires |gs| == |cs| && |gs| >= 2
  {
    gs[0].start + |cs[0]| + (gs[1].start - gs[0].end)
  }

  lemma StaleKeepsSecond(src: string, gs: seq<Span>, cs: seq<string>)
    requires |gs| == |cs| && Ordered(src, gs) && |gs| >= 2
    requires |cs[0]| < gs[0].end - gs[0].start
    ensures 0 <= SecondStart(gs, cs) < |StaleTexts(src, gs, cs)[1]|
    ensures StaleTexts(src, gs, cs)[1][SecondStart(gs, cs)] == src[gs[1].start]
  {
    FirstProposal(src, gs, cs);
    StaleTextsFirst(src, gs, cs);
    StaleTextsNext(src, gs, cs, 0);
    var x := SecondStart(gs, cs);
    assert gs[0].end <= gs[1].start < |src|;
    TailAt(Capped(src, gs[..1], cs[..1]), src, gs[0].end, x, gs[1].start);
    ApplyKeepsBefore(Rebuilt(src, gs[..1], cs[..1]), gs[1].start, gs[1].end, cs[1], x);
  }

  /** In `cp + src[e..]`, position `x` past `cp` holds `src[y]`. */
  lemma TailAt(cp: string, src: string, e: nat, x: nat, y: nat)
    requires e <= y < |src| && |cp| <= x && y == e + (x - |cp|)
    ensures x < |cp + src[e..]| && (cp + src[e..])[x] == src[y]
  {
  }

  /** A replacement leaves every character before its start in place. */
  lemma ApplyKeepsBefore(w: string, c: nat, e: nat, rep: string, x: nat)
    requires x < c && x < |w|
    ensures x < |ApplySingleSpan(w, c, e, rep)| && ApplySingleSpan(w, c, e, rep)[x] == w[x]
  {
  }

  lemma IntendedStartsSecond(src: string, gs: seq<Span>, cs: seq<string>)
    requires |gs| == |cs| && Ordered(src, gs) && |gs| >= 2 && cs[1] != []
    ensures 0 <= SecondStart(gs, cs) < |IntendedTexts(src, gs, cs)[1]|
    ensures IntendedTexts(src, gs, cs)[1][SecondStart(gs, cs)] == cs[1][0]
  {
    FirstProposal(src, gs, cs);
    var w1 := Rebuilt(src, gs[..1], cs[..1]);
    var a1, b1 := RebuiltStep(src, gs, cs, 1);
    assert a1 == SecondStart(gs, cs);
    IntendedTextsAt(src, gs, cs, 1);
    ApplyIn(w1, a1, b1, cs[1]);
  }

  /** Where the first phrase is shorter than its span, the loop as written writes the
      second phrase too far right: the character where the second span now starts keeps
      its case, while the intended proposal starts the second phrase there. */
  lemma StaleMisplaced(src: string, gs: seq<Span>, cs: seq<string>)
    requires |gs| == |cs| && Ordered(src, gs) && |gs| >= 2
    requires |cs[0]| < gs[0].end - gs[0].start
    requires cs[1] != [] && IsLower(src[gs[1].start]) && IsUpper(cs[1][0])
    ensures StaleTexts(src, gs, cs)[1] != IntendedTexts(src, gs, cs)[1]
  {
    StaleKeepsSecond(src, gs, cs);
    IntendedStartsSecond(src, gs, cs);
  }

  /** A title noun that starts with a lower-case letter is proposed with an upper-case
      one. */
  lemma TitleCapUpper(src: string, f: Found)
    requires NounSpan(f).start < NounSpan(f).end <= |src| && IsLower(src[NounSpan(f).start])
    ensures TitleCap(src, f) != [] && IsUpper(TitleCap(src, f)[0])
  {
    var noun := Lower(SpanText(src, NounSpan(f)));
    assert noun[0] == src[NounSpan(f).start];
    CapPhraseProperties(noun);
  }

  lemma NounEndsAt(w: string, s: string, c: nat)
    requires w != [] && forall y :: 0 <= y < |w| ==> !IsSpace(w[y])
    requires OccursAtFold(w, s, c)
    ensures !IsSpace(s[c]) && !IsSpace(s[c + |w| - 1])
  {
    FoldSpaceless(w, s, c, c);
    FoldSpaceless(w, s, c, c + |w| - 1);
  }

  lemma NounsSpaceless()
    ensures Spaceless(Nouns) && Spaceless(["high", "tower"])
  {
  }

  /** A title noun starts and ends with a letter. */
  lemma NounEnds(s: string, c: nat)
    requires NounEnd(s, c).Some?
    ensures !IsSpace(s[c]) && !IsSpace(s[NounEnd(s, c).value - 1])
  {
    NounsSpaceless();
    if FoldWordBound(Nouns, s, c).Some? {
      var w := FoldWordBoundPick(Nouns, s, c);
      NounEndsAt(w, s, c);
    } else {
      var t := SpaceRunEnd(s, c + 4);
      NounEndsAt("high", s, c);
      NounEndsAt("tower", s, t);
    }
  }

  /** No whitespace at either end and no two whitespace characters in a row. */
  predicate SingleGaps(p: string) {
    && p != [] && !IsSpace(p[0]) && !IsSpace(p[|p| - 1])
    && forall k :: 0 <= k < |p| - 1 ==> !(IsSpace(p[k]) && IsSpace(p[k + 1]))
  }

  lemma {:induction false} SplitJoinLength(p: string)
    requires SingleGaps(p)
    ensures SplitSpace(p) != [] && |JoinSpace(SplitSpace(p))| == |p|
    decreases |p|
  {
    var e := WordEnd(p, 0);
    if e < |p| {
      var q := p[e + 1..];
      assert p[e..][1..] == q;
      assert e + 1 < |p|;
      assert SingleGaps(q) by {
        assert q[0] == p[e + 1] && q[|q| - 1] == p[|p| - 1];
        forall k | 0 <= k < |q| - 1
          ensures !(IsSpace(q[k]) && IsSpace(q[k + 1]))
        {
          assert q[k] == p[e + 1 + k] && q[k + 1] == p[e + 2 + k];
        }
      }
      SplitJoinLength(q);
      assert SplitSpace(p[e..]) == SplitSpace(q);
    }
  }

  lemma {:induction false} JoinSpaceLength(ws: seq<string>, vs: seq<string>)
    requires |ws| == |vs| && forall j :: 0 <= j < |ws| ==> |ws[j]| == |vs[j]|
    ensures |JoinSpace(ws)| == |JoinSpace(vs)|
    decreases |ws|
  {
    if |ws| > 1 {
      JoinSpaceLength(ws[1..], vs[1..]);
    }
  }

  /** `cap_phrase` keeps the length of a phrase whose words are separated by single
      whitespace characters. */
  lemma CapPhraseLength(p: string)
    requires SingleGaps(p)
    ensures |CapPhrase(p)| == |p|
  {
    SplitJoinLength(p);
    JoinSpaceLength(CapitalizeAll(SplitSpace(p)), SplitSpace(p));
  }

  lemma LowerSingleGaps(p: string)
    requires SingleGaps(p)
    ensures SingleGaps(Lower(p))
  {
    forall k | 0 <= k < |p|
      ensures IsSpace(Lower(p)[k]) == IsSpace(p[k])
    {
      CaseKeepsClass(p[k]);
    }
  }

  /** The noun spans of the matches listed in `src`, with single gaps inside. */
  predicate NounsSingleGapped(src: string, fs: seq<Found>) {
    forall j :: 0 <= j < |fs| ==> SingleGapped(src, NounSpan(fs[j]))
  }

  predicate SingleGapped(src: string, g: Span) {
    forall k :: g.start <= k < g.end - 1 && k + 1 < |src| ==> !(IsSpace(src[k]) && IsSpace(src[k + 1]))
  }

  /** The lower-cased phrase, capitalised word by word, keeps its length. */
  lemma LowerCapLength(p: string)
    requires SingleGaps(p)
    ensures |CapPhrase(Lower(p))| == |p|
  {
    LowerSingleGaps(p);
    CapPhraseLength(Lower(p));
  }

  lemma GappedText(src: string, g: Span)
    requires g.start < g.end <= |src| && !IsSpace(src[g.start]) && !IsSpace(src[g.end - 1])
    requires SingleGapped(src, g)
    ensures SingleGaps(SpanText(src, g))
  {
    var p := src[g.start..g.end];
    assert SpanText(src, g) == p;
    forall k | 0 <= k < |p| - 1
      ensures !(IsSpace(p[k]) && IsSpace(p[k + 1]))
    {
      assert p[k] == src[g.start + k] && p[k + 1] == src[g.start + k + 1];
    }
  }

  /** A noun group with single gaps inside keeps its length under `TitleCap`. */
  lemma TitleCapKept(kind: TitleKind, src: string, i: nat, g: Span)
    requires TitleAt(kind, src, i).Some? && g == TitleAt(kind, src, i).value.groups[1]
    requires SingleGapped(src, g)
    ensures |TitleCap(src, Found(i, TitleAt(kind, src, i).value))| == g.end - g.start
  {
    NounEndOf(kind, src, i);
    GappedText(src, g);
    LowerCapLength(SpanText(src, g));
  }

  lemma TitleCapsKept(kind: TitleKind, src: string)
    requires NounsSingleGapped(src, FindAll(TitleRe(kind), src))
    ensures LengthsKept(NounSpans(FindAll(TitleRe(kind), src)), TitleCaps(src, FindAll(TitleRe(kind), src)))
  {
    var fs := FindAll(TitleRe(kind), src);
    forall j | 0 <= j < |fs|
      ensures |TitleCap(src, fs[j])| == NounSpan(fs[j]).end - NounSpan(fs[j]).start
    {
      var m := TitleAt(kind, src, fs[j].start).value;
      assert fs[j] == Found(fs[j].start, m);
      TitleCapKept(kind, src, fs[j].start, m.groups[1]);
    }
  }

  /** The noun group of a title match is what `NounEnd` found. */
  lemma NounEndOf(kind: TitleKind, s: string, i: nat)
    requires TitleAt(kind, s, i).Some?
    ensures var g := TitleAt(kind, s, i).value.groups[1];
      NounEnd(s, g.start) == Some(g.end) && !IsSpace(s[g.start]) && !IsSpace(s[g.end - 1])
  {
    var g := TitleAt(kind, s, i).value.groups[1];
    NounEnds(s, g.start);
  }

  /** Where every noun's words are separated by single whitespace characters, the title
      loop as written gives the intended proposals. */
  lemma TitlesAgree(kind: TitleKind, src: string)
    requires NounsSingleGapped(src, FindAll(TitleRe(kind), src))
    ensures var fs := FindAll(TitleRe(kind), src);
      StaleTexts(src, NounSpans(fs), TitleCaps(src, fs)) == IntendedTexts(src, NounSpans(fs), TitleCaps(src, fs))
  {
    TitlesOrdered(kind, src);
    TitleCapsKept(kind, src);
    var fs := FindAll(TitleRe(kind), src);
    StaleAgrees(src, NounSpans(fs), TitleCaps(src, fs));
  }

  /** Where the first noun shrinks (`high  tower` with two spaces becomes `High Tower`)
      and a second, lower-case noun follows, the second proposal of the loop as written
      differs from the intended one. */
  lemma TitlesMisplaced(kind: TitleKind, src: string)
    requires var fs := FindAll(TitleRe(kind), src);
      && |fs| >= 2
      && |TitleCap(src, fs[0])| < NounSpan(fs[0]).end - NounSpan(fs[0]).start
      && NounSpan(fs[1]).start < |src| && IsLower(src[NounSpan(fs[1]).start])
    ensures var fs := FindAll(TitleRe(kind), src);
      StaleTexts(src, NounSpans(fs), TitleCaps(src, fs))[1] != IntendedTexts(src, NounSpans(fs), TitleCaps(src, fs))[1]
  {
    var fs := FindAll(TitleRe(kind), src);
    TitlesOrdered(kind, src);
    TitleCapUpper(src, fs[1]);
    StaleMisplaced(src, NounSpans(fs), TitleCaps(src, fs));
  }

  /* ---------------------------------------------------------------------------------
     Salvation as a title.  The loop is stated for any owner words, any word `v` and
     any spelling `cap` of it, and used with `salvation` and `Salvation`.
     --------------------------------------------------------------------------------- */

  /** `\b(o1|o2|...)\s+v\b`, ignoring case. */
  function OwnedWord(owners: seq<string>, v: string): Rx {
    Bound(Alt(owners, true, Spaces(WordTail(v))))
  }

  /** `v\b`, ignoring case. */
  function WordTail(v: string): Rx {
    Text(v, true, Bound(Done))
  }

  /** `re.sub(r"\bv\b", cap, phrase, flags=re.IGNORECASE)` */
  function WordSub(v: string, cap: string, phrase: string): string {
    Sub(M(Bound(WordTail(v))), Template([Lit(cap)]), phrase)
  }

  /** `SALVATION_TITLE_RE`: `\b(my|our|his|their)\s+salvation\b`, ignoring case. */
  const SalvationRule: Rx := OwnedWord(Owners, "salvation")

  /** `re.sub(r"\bsalvation\b", "Salvation", phrase, flags=re.IGNORECASE)` */
  function CapSalvation(phrase: string): string {
    WordSub("salvation", "Salvation", phrase)
  }

  /** `cap` spells the word `v` with other letter cases. */
  predicate Respelling(v: string, cap: string) {
    IsWord(v) && |cap| == |v| && Lower(cap) == Lower(v)
  }

  lemma SalvationRespelling()
    ensures Respelling("salvation", "Salvation")
  {
    var w := "salvation";
    assert w == ['s', 'a', 'l', 'v', 'a', 't', 'i', 'o', 'n'];
    forall k | 0 <= k < |w|
      ensures IsLower(w[k])
    {
    }
    assert "Salvation" == ['S'] + w[1..];
  }

  /** No word boundary falls strictly inside a case-insensitive occurrence of a word. */
  lemma FoldWordInside(w: string, s: string, p: nat)
    requires IsWord(w) && OccursAtFold(w, s, p)
    ensures forall q: nat :: p < q < p + |w| ==> !Boundary(s, q)
  {
    FoldAtIff(w, s, p);
    forall q: nat | p < q < p + |w|
      ensures !Boundary(s, q)
    {
      CaseKeepsClass(s[q - 1]);
      CaseKeepsClass(s[q]);
      CaseKeepsClass(w[q - 1 - p]);
      CaseKeepsClass(w[q - p]);
    }
  }

  /** A match of `\bv\b` is `v` in any case and is replaced by `cap`. */
  lemma WordSubHit(v: string, cap: string, s: string, p: nat)
    requires IsHit(M(Bound(WordTail(v))), s, p)
    ensures EndOf(M(Bound(WordTail(v))), s, p) == p + |v| && OccursAtFold(v, s, p)
    ensures ReplAt(M(Bound(WordTail(v))), Template([Lit(cap)]), s, p) == cap
  {
    var rx := Bound(WordTail(v));
    assert M(rx)(s, p) == Run(rx, s, p);
    assert Run(rx, s, p).Some?;
    assert Boundary(s, p) && Run(WordTail(v), s, p).Some?;
    assert LitAt(v, true, s, p);
    assert Run(rx, s, p) == Run(Bound(Done), s, p + |v|);
    ExpandLiteral(cap, s, p, Run(Bound(WordTail(v)), s, p).value);
  }

  lemma WordSubFacts(v: string, cap: string, s: string)
    requires Respelling(v, cap)
    ensures LengthPreserving(M(Bound(WordTail(v))), Template([Lit(cap)]), s)
    ensures NonOverlapping(M(Bound(WordTail(v))), s)
  {
    var m := M(Bound(WordTail(v)));
    forall p | IsHit(m, s, p)
      ensures |ReplAt(m, Template([Lit(cap)]), s, p)| == EndOf(m, s, p) - p
    {
      WordSubHit(v, cap, s, p);
    }
    forall p, q | IsHit(m, s, p) && IsHit(m, s, q) && p < q
      ensures EndOf(m, s, p) <= q
    {
      WordSubHit(v, cap, s, p);
      FoldWordInside(v, s, p);
    }
  }

  /** A character inside a match lower-cases as the same character of `cap` does. */
  lemma CoveredLetter(v: string, cap: string, phrase: string, p: nat, k: nat)
    requires Respelling(v, cap) && Covers(M(Bound(WordTail(v))), phrase, p, k)
    ensures k - p < |cap| && ToLower(phrase[k]) == ToLower(cap[k - p])
  {
    WordSubHit(v, cap, phrase, p);
    FoldAtIff(v, phrase, p);
    assert ToLower(phrase[p + (k - p)]) == ToLower(v[k - p]);
    assert Lower(cap)[k - p] == Lower(v)[k - p];
  }

  /** One character of the rewritten phrase: inside a match it is the character of `cap`
      at the same place, and in any case it lower-cases as the input's does. */
  lemma WordSubAt(v: string, cap: string, phrase: string, k: nat)
    requires Respelling(v, cap) && k < |phrase|
    ensures |WordSub(v, cap, phrase)| == |phrase|
    ensures ToLower(WordSub(v, cap, phrase)[k]) == ToLower(phrase[k])
    ensures forall p: nat :: Covers(M(Bound(WordTail(v))), phrase, p, k) ==> k - p < |cap| && WordSub(v, cap, phrase)[k] == cap[k - p]
  {
    var m := M(Bound(WordTail(v)));
    WordSubFacts(v, cap, phrase);
    ScanAt(m, Template([Lit(cap)]), phrase, 0, k);
    forall p: nat | Covers(m, phrase, p, k)
      ensures ReplAt(m, Template([Lit(cap)]), phrase, p) == cap
      ensures k - p < |cap| && ToLower(phrase[k]) == ToLower(cap[k - p])
    {
      WordSubHit(v, cap, phrase, p);
      CoveredLetter(v, cap, phrase, p, k);
    }
  }

  /** Rewriting the word changes the case of some letters and nothing else, and every
      whole-word occurrence of it, in any case, becomes `cap`. */
  lemma WordSubProperties(v: string, cap: string, phrase: string)
    requires Respelling(v, cap)
    ensures |WordSub(v, cap, phrase)| == |phrase|
    ensures Lower(WordSub(v, cap, phrase)) == Lower(phrase)
    ensures forall p: nat :: IsHit(M(Bound(WordTail(v))), phrase, p) ==>
      p + |v| <= |phrase| && WordSub(v, cap, phrase)[p..p + |v|] == cap
  {
    var m := M(Bound(WordTail(v)));
    var r := WordSub(v, cap, phrase);
    WordSubFacts(v, cap, phrase);
    SubLength(m, Template([Lit(cap)]), phrase, 0);
    forall k | 0 <= k < |phrase|
      ensures Lower(r)[k] == Lower(phrase)[k]
    {
      WordSubAt(v, cap, phrase, k);
    }
    forall p: nat | IsHit(m, phrase, p)
      ensures p + |v| <= |phrase| && r[p..p + |v|] == cap
    {
      WordSubHit(v, cap, phrase, p);
      forall x | 0 <= x < |v|
        ensures r[p..p + |v|][x] == cap[x]
      {
        assert Covers(m, phrase, p, p + x);
        WordSubAt(v, cap, phrase, p + x);
      }
    }
  }

  /** A match of `\b(o1|o2|...)\s+v\b` ends with `v`, in any case, preceded by whitespace
      and followed by a word boundary. */
  lemma OwnedWordShape(owners: seq<string>, v: string, s: string, i: nat, e: nat)
    requires Run(OwnedWord(owners, v), s, i).Some? && e == Run(OwnedWord(owners, v), s, i).value.end
    ensures i + 1 + |v| <= e <= |s| && IsSpace(s[e - |v| - 1]) && OccursAtFold(v, s, e - |v|) && Boundary(s, e)
  {
    var k1 := Spaces(WordTail(v));
    assert Run(Alt(owners, true, k1), s, i) == Run(OwnedWord(owners, v), s, i);
    var w := AltPick(owners, true, k1, s, i);
    var c := SpacesPick(WordTail(v), s, i + |w|);
    assert i + |w| <= c - 1 < c;
    WordTailShape(v, s, c, e);
  }

  /** A match of `v\b`, ignoring case, at `c` covers `v` and ends on a boundary. */
  lemma WordTailShape(v: string, s: string, c: nat, e: nat)
    requires Run(WordTail(v), s, c).Some? && e == Run(WordTail(v), s, c).value.end
    ensures e == c + |v| <= |s| && OccursAtFold(v, s, c) && Boundary(s, e)
  {
  }

  /** Replacing a slice by text of the same length that lower-cases the same way keeps the
      length and the lower-cased text. */
  lemma ApplyRecased(w: string, a: nat, b: nat, rep: string)
    requires a <= b <= |w| && |rep| == b - a && Lower(rep) == Lower(w[a..b])
    ensures |ApplySingleSpan(w, a, b, rep)| == |w|
    ensures Lower(ApplySingleSpan(w, a, b, rep)) == Lower(w)
  {
    var t := ApplySingleSpan(w, a, b, rep);
    forall k | 0 <= k < |w|
      ensures Lower(t)[k] == Lower(w)[k]
    {
      SpliceAt(w, a, b, rep, k);
      if a <= k < b {
        assert Lower(rep)[k - a] == Lower(w[a..b])[k - a];
        assert w[a..b][k - a] == w[k];
      }
    }
  }

  /** One character of a same-length splice. */
  lemma SpliceAt(w: string, a: nat, b: nat, rep: string, k: nat)
    requires a <= b <= |w| && |rep| == b - a && k < |w|
    ensures |ApplySingleSpan(w, a, b, rep)| == |w|
    ensures ApplySingleSpan(w, a, b, rep)[k] == if k < a then w[k] else if k < b then rep[k - a] else w[k]
  {
    var t := ApplySingleSpan(w, a, b, rep);
    if k < a {
      assert t[..a][k] == w[..a][k];
    } else if k < b {
      assert t[a..a + |rep|][k - a] == rep[k - a];
    } else {
      assert t[a + |rep|..][k - b] == w[b..][k - b];
    }
  }

  /** A case-insensitive occurrence survives re-casing of the text. */
  lemma FoldRecased(v: string, w0: string, c: string, a: nat)
    requires |c| == |w0| && Lower(c) == Lower(w0) && OccursAtFold(v, w0, a)
    ensures OccursAtFold(v, c, a)
  {
    assert Lower(c[a..a + |v|]) == Lower(c)[a..a + |v|];
    assert Lower(w0[a..a + |v|]) == Lower(w0)[a..a + |v|];
  }

  /** A case-insensitive occurrence inside `c[i..e]` is one in the slice. */
  lemma FoldInSlice(v: string, c: string, i: nat, e: nat, a: nat)
    requires OccursAtFold(v, c, a) && i <= a && a + |v| <= e <= |c|
    ensures OccursAtFold(v, c[i..e], a - i)
  {
    var u := c[i..e][a - i..a - i + |v|];
    var u' := c[a..a + |v|];
    forall y | 0 <= y < |v|
      ensures u[y] == u'[y]
    {
    }
    assert u == u';
  }

  lemma SpaceRecased(w0: string, c: string, k: nat)
    requires |c| == |w0| && Lower(c) == Lower(w0) && k < |w0| && IsSpace(w0[k])
    ensures IsSpace(c[k])
  {
    assert Lower(c)[k] == Lower(w0)[k];
    CaseKeepsClass(c[k]);
    CaseKeepsClass(w0[k]);
  }

  /** The first and last characters of a case-insensitive occurrence of a word are word
      characters, so it matches `\bv\b` where whitespace precedes it and the text ends. */
  lemma WordEdges(v: string, s: string, x: nat)
    requires IsWord(v) && OccursAtFold(v, s, x) && 0 < x && x + |v| == |s| && IsSpace(s[x - 1])
    ensures IsHit(M(Bound(WordTail(v))), s, x)
  {
    FoldAtIff(v, s, x);
    CaseKeepsClass(s[x]);
    CaseKeepsClass(v[0]);
    CaseKeepsClass(s[x + |v| - 1]);
    CaseKeepsClass(v[|v| - 1]);
    assert Boundary(s, x) && Boundary(s, x + |v|);
    assert LitAt(v, true, s, x);
    assert Run(Bound(Done), s, x + |v|) == Some(Match(x + |v|, []));
    assert Run(WordTail(v), s, x) == Some(Match(x + |v|, []));
    assert Run(Bound(WordTail(v)), s, x) == Some(Match(x + |v|, []));
  }

  /** The word at the end of `c[i..e]`, after whitespace, is a match of `\bv\b` there. */
  lemma PhraseHit(v: string, c: string, i: nat, e: nat)
    requires IsWord(v) && i + 1 + |v| <= e <= |c| && OccursAtFold(v, c, e - |v|) && IsSpace(c[e - |v| - 1])
    ensures IsHit(M(Bound(WordTail(v))), c[i..e], e - |v| - i)
  {
    var phrase := c[i..e];
    FoldInSlice(v, c, i, e, e - |v|);
    assert phrase[e - |v| - i - 1] == c[e - |v| - 1];
    WordEdges(v, phrase, e - |v| - i);
  }

  /** `\bv\b` matches in the phrase where the pattern's own `v` is, once the text the
      phrase is cut from has been re-cased. */
  lemma OwnedWordInPhrase(owners: seq<string>, v: string, w0: string, c: string, i: nat, e: nat)
    requires IsWord(v)
    requires Run(OwnedWord(owners, v), w0, i).Some? && e == Run(OwnedWord(owners, v), w0, i).value.end
    requires |c| == |w0| && Lower(c) == Lower(w0)
    ensures i + 1 + |v| <= e <= |c| && IsHit(M(Bound(WordTail(v))), c[i..e], e - |v| - i)
  {
    OwnedWordShape(owners, v, w0, i, e);
    FoldRecased(v, w0, c, e - |v|);
    SpaceRecased(w0, c, e - |v| - 1);
    PhraseHit(v, c, i, e);
  }

  /** One turn of the loop: the match's phrase is cut from the text as it stands and
      written back with the word respelled. */
  function OwnedEdit(v: string, cap: string, working: string, f: Found): string {
    ApplySingleSpan(working, f.start, f.m.end, WordSub(v, cap, Slice(working, f.start, f.m.end)))
  }

  /** The proposals of the loop, over the matches listed before it starts. */
  function OwnedTexts(v: string, cap: string, working: string, fs: seq<Found>): (ts: seq<string>)
    ensures |ts| == |fs|
    decreases |fs|
  {
    if fs == [] then []
    else
      var t := OwnedEdit(v, cap, working, fs[0]);
      [t] + OwnedTexts(v, cap, t, fs[1..])
  }

  /** The proposals of the salvation loop. */
  function SalvationTexts(working: string, fs: seq<Found>): (ts: seq<string>)
    ensures |ts| == |fs|
  {
    OwnedTexts("salvation", "Salvation", working, fs)
  }

  /** The matches are those of `\b(o1|o2|...)\s+v\b` in `w0`. */
  predicate OwnedFound(owners: seq<string>, v: string, w0: string, fs: seq<Found>) {
    forall j :: 0 <= j < |fs| ==>
      Run(OwnedWord(owners, v), w0, fs[j].start).Some? && fs[j].m == Run(OwnedWord(owners, v), w0, fs[j].start).value
  }

  /** `t` re-cases `w0` and has `cap` as the last word of the match `f`. */
  predicate Placed(cap: string, w0: string, f: Found, t: string) {
    && |t| == |w0| && Lower(t) == Lower(w0)
    && f.start + 1 + |cap| <= f.m.end <= |t| && t[f.m.end - |cap|..f.m.end] == cap
  }

  lemma PlaceWord(v: string, cap: string, c: string, i: nat, e: nat)
    requires Respelling(v, cap)
    requires i + 1 + |v| <= e <= |c| && IsHit(M(Bound(WordTail(v))), c[i..e], e - |v| - i)
    ensures var t := ApplySingleSpan(c, i, e, WordSub(v, cap, c[i..e]));
      |t| == |c| && Lower(t) == Lower(c) && t[e - |cap|..e] == cap
  {
    var phrase := c[i..e];
    var p := e - |v| - i;
    WordSubCapAt(v, cap, phrase, p);
    var r := WordSub(v, cap, phrase);
    ApplyRecased(c, i, e, r);
    var t := ApplySingleSpan(c, i, e, r);
    assert t[i..i + |r|] == r;
    SliceOfSlice(t, i, e, e - |cap|);
  }

  /** The respelling's length and letters, and `cap` at the one match the caller knows of. */
  lemma WordSubCapAt(v: string, cap: string, phrase: string, p: nat)
    requires Respelling(v, cap) && IsHit(M(Bound(WordTail(v))), phrase, p)
    ensures |WordSub(v, cap, phrase)| == |phrase| && Lower(WordSub(v, cap, phrase)) == Lower(phrase)
    ensures p + |v| <= |phrase| && WordSub(v, cap, phrase)[p..p + |v|] == cap
  {
    WordSubProperties(v, cap, phrase);
  }

  lemma SliceOfSlice(t: string, i: nat, e: nat, a: nat)
    requires i <= a <= e <= |t|
    ensures t[a..e] == t[i..e][a - i..e - i]
  {
  }

  /** A turn of the loop on a re-cased copy of `w0` re-cases it further, and writes `cap`
      over the last word of the match. */
  lemma OwnedStep(owners: seq<string>, v: string, cap: string, w0: string, c: string, f: Found)
    requires Respelling(v, cap) && |c| == |w0| && Lower(c) == Lower(w0)
    requires Run(OwnedWord(owners, v), w0, f.start).Some? && f.m == Run(OwnedWord(owners, v), w0, f.start).value
    ensures Placed(cap, w0, f, OwnedEdit(v, cap, c, f))
  {
    var i, e := f.start, f.m.end;
    OwnedWordInPhrase(owners, v, w0, c, i, e);
    SliceIn(c, i, e);
    PlaceWord(v, cap, c, i, e);
  }

  lemma OwnedFoundTail(owners: seq<string>, v: string, w0: string, fs: seq<Found>)
    requires fs != [] && OwnedFound(owners, v, w0, fs)
    ensures OwnedFound(owners, v, w0, fs[1..])
  {
    forall j | 0 <= j < |fs| - 1
      ensures fs[1..][j] == fs[j + 1]
    {
    }
  }

  /** The first proposal is the first turn's; the others are those of the loop started
      from it. */
  lemma OwnedTextsAt(v: string, cap: string, c: string, fs: seq<Found>, j: nat)
    requires j < |fs|
    ensures j == 0 ==> OwnedTexts(v, cap, c, fs)[j] == OwnedEdit(v, cap, c, fs[0])
    ensures j > 0 ==>
      && OwnedTexts(v, cap, c, fs)[j] == OwnedTexts(v, cap, OwnedEdit(v, cap, c, fs[0]), fs[1..])[j - 1]
      && fs[j] == fs[1..][j - 1]
  {
    var t := OwnedEdit(v, cap, c, fs[0]);
    var rest := OwnedTexts(v, cap, t, fs[1..]);
    assert OwnedTexts(v, cap, c, fs) == [t] + rest;
    ConsAt(t, rest, j);
  }

  lemma ConsAt<T>(x: T, xs: seq<T>, j: nat)
    requires j <= |xs|
    ensures ([x] + xs)[j] == if j == 0 then x else xs[j - 1]
  {
  }

  /** Every proposal of the loop re-cases the text the loop started from and has `cap`
      at the end of its own match. */
  lemma {:induction false} OwnedTextsPlaced(owners: seq<string>, v: string, cap: string, w0: string, c: string, fs: seq<Found>)
    requires Respelling(v, cap) && |c| == |w0| && Lower(c) == Lower(w0) && OwnedFound(owners, v, w0, fs)
    ensures forall j :: 0 <= j < |fs| ==> Placed(cap, w0, fs[j], OwnedTexts(v, cap, c, fs)[j])
    decreases |fs|
  {
    if fs != [] {
      var t := OwnedEdit(v, cap, c, fs[0]);
      OwnedStep(owners, v, cap, w0, c, fs[0]);
      OwnedFoundTail(owners, v, w0, fs);
      OwnedTextsPlaced(owners, v, cap, w0, t, fs[1..]);
      forall j | 0 <= j < |fs|
        ensures Placed(cap, w0, fs[j], OwnedTexts(v, cap, c, fs)[j])
      {
        OwnedTextsAt(v, cap, c, fs, j);
      }
    }
  }

  /** Each salvation proposal changes only the case of letters in the text the loop
      started from, and has "Salvation" as the last word of its own match. */
  lemma SalvationTextsPlaced(w0: string)
    ensures var fs := FindAll(M(SalvationRule), w0);
      forall j :: 0 <= j < |fs| ==> Placed("Salvation", w0, fs[j], SalvationTexts(w0, fs)[j])
  {
    var fs := FindAll(M(SalvationRule), w0);
    SalvationRespelling();
    assert OwnedFound(Owners, "salvation", w0, fs);
    OwnedTextsPlaced(Owners, "salvation", "Salvation", w0, w0, fs);
  }

  /* ---------------------------------------------------------------------------------
     Only the respelled word changes
     --------------------------------------------------------------------------------- */

  /** Every owner word is shorter than `v`, so inside a match of `\b(o1|o2|...)\s+v\b`
      the word `v` occurs whole only at the end. */
  predicate ShortOwners(owners: seq<string>, v: string) {
    forall j :: 0 <= j < |owners| ==> |owners[j]| < |v|
  }

  /** Index `x` lies in the last `n` characters of one of the matches `fs`. */
  predicate InLastWords(n: nat, fs: seq<Found>, x: nat)
    decreases |fs|
  {
    fs != [] && (InLastWords(n, fs[..|fs| - 1], x) || fs[|fs| - 1].m.end - n <= x < fs[|fs| - 1].m.end)
  }

  /** `t` is `w0` with `cap` written over the last word of each match of `fs`, and every
      other character as in `w0`. */
  ghost predicate Respelled(cap: string, w0: string, fs: seq<Found>, t: string) {
    && |t| == |w0|
    && (forall j :: 0 <= j < |fs| ==> |cap| <= fs[j].m.end <= |t| && t[fs[j].m.end - |cap|..fs[j].m.end] == cap)
    && (forall x :: 0 <= x < |t| && !InLastWords(|cap|, fs, x) ==> t[x] == w0[x])
  }

  /** A match of `\b(o1|o2|...)\s+v\b` is an owner word, a whitespace run and `v`. */
  lemma OwnedWordParts(owners: seq<string>, v: string, s: string, i: nat, e: nat) returns (w: string)
    requires Run(OwnedWord(owners, v), s, i).Some? && e == Run(OwnedWord(owners, v), s, i).value.end
    ensures w in owners && OccursAtFold(w, s, i) && i + |w| < e - |v| && e <= |s|
    ensures forall y :: i + |w| <= y < e - |v| ==> IsSpace(s[y])
  {
    var k1 := Spaces(WordTail(v));
    assert Run(Alt(owners, true, k1), s, i) == Run(OwnedWord(owners, v), s, i);
    w := AltPick(owners, true, k1, s, i);
    var c := SpacesPick(WordTail(v), s, i + |w|);
    WordTailShape(v, s, c, e);
  }

  /** Inside the phrase of a match, re-cased or not, `\bv\b` matches only at the end. */
  lemma OnlyHitInPhrase(owners: seq<string>, v: string, w0: string, c: string, i: nat, e: nat)
    requires IsWord(v) && ShortOwners(owners, v)
    requires Run(OwnedWord(owners, v), w0, i).Some? && e == Run(OwnedWord(owners, v), w0, i).value.end
    requires |c| == |w0| && Lower(c) == Lower(w0)
    ensures i + |v| <= e <= |c|
    ensures forall q: nat :: IsHit(M(Bound(WordTail(v))), c[i..e], q) ==> q == e - |v| - i
  {
    var w := OwnedWordParts(owners, v, w0, i, e);
    assert |w| < |v|;
    forall q: nat | IsHit(M(Bound(WordTail(v))), c[i..e], q)
      ensures q == e - |v| - i
    {
      HitPastGap(v, w0, c, i, e, |w|, q);
    }
  }

  /** A match of `\bv\b` in `c[i..e]` cannot take in any of the whitespace at
      `w0[i + g..e - |v|]`, so it is the one that ends at `e`. */
  lemma HitPastGap(v: string, w0: string, c: string, i: nat, e: nat, g: nat, q: nat)
    requires IsWord(v) && |c| == |w0| && Lower(c) == Lower(w0)
    requires g < |v| && i + g < e - |v| && e <= |c|
    requires forall y :: i + g <= y < e - |v| ==> IsSpace(w0[y])
    requires IsHit(M(Bound(WordTail(v))), c[i..e], q)
    ensures q == e - |v| - i
  {
    var phrase := c[i..e];
    var p := e - |v| - i;
    WordSubHit(v, v, phrase, q);
    if q != p {
      var y := if q < g then g else q;
      assert q <= y < q + |v| && y < p;
      SpaceRecased(w0, c, i + y);
      assert phrase[y] == c[i + y];
      FoldSpaceless(v, phrase, q, y);
    }
  }

  /** `re.sub(r"\bv\b", cap, phrase)` with a single match at `p` writes `cap` there and
      leaves the rest of the phrase as it is. */
  lemma WordSubOnly(v: string, cap: string, phrase: string, p: nat)
    requires Respelling(v, cap) && IsHit(M(Bound(WordTail(v))), phrase, p)
    requires forall q: nat :: IsHit(M(Bound(WordTail(v))), phrase, q) ==> q == p
    ensures p + |v| <= |phrase|
    ensures WordSub(v, cap, phrase) == phrase[..p] + cap + phrase[p + |v|..]
  {
    WordSubHit(v, cap, phrase, p);
    WordSubFacts(v, cap, phrase);
    SoleHit(M(Bound(WordTail(v))), Template([Lit(cap)]), phrase, p);
  }

  /** One turn of the loop writes `cap` over the last word of its match and changes
      nothing else. */
  lemma OwnedEditExact(owners: seq<string>, v: string, cap: string, w0: string, c: string, f: Found)
    requires Respelling(v, cap) && ShortOwners(owners, v) && |c| == |w0| && Lower(c) == Lower(w0)
    requires Run(OwnedWord(owners, v), w0, f.start).Some? && f.m == Run(OwnedWord(owners, v), w0, f.start).value
    ensures f.start + |v| < f.m.end <= |c|
    ensures OwnedEdit(v, cap, c, f) == ApplySingleSpan(c, f.m.end - |v|, f.m.end, cap)
  {
    PhraseRespelled(owners, v, cap, w0, c, f.start, f.m.end);
    EditSplice(v, cap, c, f);
  }

  /** When the respelled phrase differs from the phrase only in its last word, the turn
      replaces just that word. */
  lemma EditSplice(v: string, cap: string, c: string, f: Found)
    requires |cap| == |v| && f.start + |v| < f.m.end <= |c|
    requires var i, e := f.start, f.m.end;
      WordSub(v, cap, c[i..e]) == c[i..e][..e - |v| - i] + cap + c[i..e][e - |v| - i + |cap|..]
    ensures OwnedEdit(v, cap, c, f) == ApplySingleSpan(c, f.m.end - |v|, f.m.end, cap)
  {
    var i, e := f.start, f.m.end;
    var p := e - |v| - i;
    SliceIn(c, i, e);
    var r := WordSub(v, cap, c[i..e]);
    assert OwnedEdit(v, cap, c, f) == ApplySingleSpan(c, i, e, r);
    SpliceInside(c, i, e, p, cap);
  }

  /** Respelling the word in the phrase of a match writes `cap` over its last word only. */
  lemma PhraseRespelled(owners: seq<string>, v: string, cap: string, w0: string, c: string, i: nat, e: nat)
    requires Respelling(v, cap) && ShortOwners(owners, v) && |c| == |w0| && Lower(c) == Lower(w0)
    requires Run(OwnedWord(owners, v), w0, i).Some? && e == Run(OwnedWord(owners, v), w0, i).value.end
    ensures i + |v| < e <= |c|
    ensures var p := e - |v| - i;
      WordSub(v, cap, c[i..e]) == c[i..e][..p] + cap + c[i..e][p + |cap|..]
  {
    OwnedWordInPhrase(owners, v, w0, c, i, e);
    OnlyHitInPhrase(owners, v, w0, c, i, e);
    WordSubOnly(v, cap, c[i..e], e - |v| - i);
  }

  /** Splicing a phrase whose middle part was replaced is splicing the middle part. */
  lemma SpliceInside(c: string, i: nat, e: nat, p: nat, cap: string)
    requires i + p + |cap| <= e <= |c|
    ensures ApplySingleSpan(c, i, e, c[i..e][..p] + cap + c[i..e][p + |cap|..]) == ApplySingleSpan(c, i + p, i + p + |cap|, cap)
  {
    var x := i + p + |cap|;
    var u, w := c[i..e][..p], c[i..e][p + |cap|..];
    assert u == c[i..i + p];
    assert w == c[x..e];
    SliceIn(c, 0, i);
    SliceIn(c, e, |c|);
    SliceIn(c, 0, i + p);
    SliceIn(c, x, |c|);
    calc {
      ApplySingleSpan(c, i, e, u + cap + w);
      c[0..i] + (u + cap + w) + c[e..|c|];
      (c[0..i] + u) + cap + (w + c[e..|c|]);
      { assert c[0..i] + c[i..i + p] == c[0..i + p]; assert c[x..e] + c[e..|c|] == c[x..|c|]; }
      c[0..i + p] + cap + c[x..|c|];
      ApplySingleSpan(c, i + p, x, cap);
    }
  }

  lemma SameSlice(t: string, c: string, lo: nat, hi: nat)
    requires lo <= hi <= |t| && hi <= |c| && forall y :: lo <= y < hi ==> t[y] == c[y]
    ensures t[lo..hi] == c[lo..hi]
  {
  }

  /** Writing `cap` over the last word of a match that follows all earlier ones extends
      the respelling by that match. */
  lemma RespelledStep(cap: string, w0: string, done: seq<Found>, c: string, f: Found)
    requires Respelled(cap, w0, done, c)
    requires forall j :: 0 <= j < |done| ==> done[j].m.end <= f.start
    requires f.start + |cap| <= f.m.end <= |c|
    ensures Respelled(cap, w0, done + [f], ApplySingleSpan(c, f.m.end - |cap|, f.m.end, cap))
  {
    var e := f.m.end;
    var a := e - |cap|;
    var t := ApplySingleSpan(c, a, e, cap);
    ApplySingleSpanParts(c, a, e, cap);
    forall y | 0 <= y < |t|
      ensures t[y] == if y < a then c[y] else if y < e then cap[y - a] else c[y]
    {
      SpliceAt(c, a, e, cap, y);
    }
    RespelledOver(cap, w0, done, c, f, t);
  }

  /** `t`, which is `c` with `cap` written just before the end of `f`, is respelled over
      the matches `done` and then `f`. */
  lemma RespelledOver(cap: string, w0: string, done: seq<Found>, c: string, f: Found, t: string)
    requires Respelled(cap, w0, done, c)
    requires forall j :: 0 <= j < |done| ==> done[j].m.end <= f.start
    requires f.start + |cap| <= f.m.end <= |c| && |t| == |c|
    requires forall y :: 0 <= y < |t| ==>
      t[y] == if y < f.m.end - |cap| then c[y] else if y < f.m.end then cap[y - (f.m.end - |cap|)] else c[y]
    ensures Respelled(cap, w0, done + [f], t)
  {
    var e := f.m.end;
    var fs := done + [f];
    assert fs[..|fs| - 1] == done && fs[|fs| - 1] == f;
    SameSlice(t[e - |cap|..e], cap, 0, |cap|);
    forall j | 0 <= j < |fs|
      ensures |cap| <= fs[j].m.end <= |t| && t[fs[j].m.end - |cap|..fs[j].m.end] == cap
    {
      if j < |done| {
        assert fs[j] == done[j];
        var d := done[j].m.end;
        SameSlice(t, c, d - |cap|, d);
      }
    }
    forall x | 0 <= x < |t| && !InLastWords(|cap|, fs, x)
      ensures t[x] == w0[x]
    {
      assert !InLastWords(|cap|, done, x);
    }
  }

  /** Every proposal of the loop is the text it started from with `cap` written over the
      last word of each match handled so far, and nothing else changed. */
  lemma {:induction false} OwnedTextsExact(owners: seq<string>, v: string, cap: string, w0: string, c: string, done: seq<Found>, fs: seq<Found>)
    requires Respelling(v, cap) && ShortOwners(owners, v) && |c| == |w0| && Lower(c) == Lower(w0)
    requires OwnedFound(owners, v, w0, fs) && Respelled(cap, w0, done, c)
    requires Ascending(fs)
    requires forall j, k :: 0 <= j < |done| && 0 <= k < |fs| ==> done[j].m.end <= fs[k].start
    ensures forall j :: 0 <= j < |fs| ==> Respelled(cap, w0, done + fs[..j + 1], OwnedTexts(v, cap, c, fs)[j])
    decreases |fs|
  {
    if fs != [] {
      var f := fs[0];
      var t := OwnedEdit(v, cap, c, f);
      OwnedEditExact(owners, v, cap, w0, c, f);
      assert forall j :: 0 <= j < |done| ==> done[j].m.end <= f.start;
      RespelledStep(cap, w0, done, c, f);
      OwnedStep(owners, v, cap, w0, c, f);
      OwnedFoundTail(owners, v, w0, fs);
      var done' := done + [f];
      DoneBefore(done, fs);
      OwnedTextsExact(owners, v, cap, w0, t, done', fs[1..]);
      OwnedTextsShift(owners, v, cap, w0, c, done, fs);
    }
  }

  /** The first match joins the handled ones, which all still end before the rest start. */
  lemma DoneBefore(done: seq<Found>, fs: seq<Found>)
    requires fs != [] && Ascending(fs)
    requires forall j, k :: 0 <= j < |done| && 0 <= k < |fs| ==> done[j].m.end <= fs[k].start
    ensures var done' := done + [fs[0]];
      forall j, k :: 0 <= j < |done'| && 0 <= k < |fs[1..]| ==> done'[j].m.end <= fs[1..][k].start
  {
    var done' := done + [fs[0]];
    forall j, k | 0 <= j < |done'| && 0 <= k < |fs[1..]|
      ensures done'[j].m.end <= fs[1..][k].start
    {
      assert fs[1..][k] == fs[k + 1];
      if j < |done| {
        assert done'[j] == done[j];
      }
    }
  }

  /** The proposals after the first, described from the first match on. */
  lemma OwnedTextsShift(owners: seq<string>, v: string, cap: string, w0: string, c: string, done: seq<Found>, fs: seq<Found>)
    requires fs != []
    requires Respelled(cap, w0, done + [fs[0]], OwnedEdit(v, cap, c, fs[0]))
    requires forall j :: 0 <= j < |fs[1..]| ==>
      Respelled(cap, w0, (done + [fs[0]]) + fs[1..][..j + 1], OwnedTexts(v, cap, OwnedEdit(v, cap, c, fs[0]), fs[1..])[j])
    ensures forall j :: 0 <= j < |fs| ==> Respelled(cap, w0, done + fs[..j + 1], OwnedTexts(v, cap, c, fs)[j])
  {
    forall j | 0 <= j < |fs|
      ensures Respelled(cap, w0, done + fs[..j + 1], OwnedTexts(v, cap, c, fs)[j])
    {
      OwnedTextsAt(v, cap, c, fs, j);
      if j > 0 {
        PrefixShift(done, fs, j);
      } else {
        assert done + fs[..1] == done + [fs[0]];
      }
    }
  }

  lemma PrefixShift(done: seq<Found>, fs: seq<Found>, j: nat)
    requires 0 < j < |fs|
    ensures (done + [fs[0]]) + fs[1..][..j] == done + fs[..j + 1]
  {
    assert fs[..j + 1] == [fs[0]] + fs[1..][..j];
  }

  /** Matches found by one left-to-right scan never overlap, and come in order. */
  /** Every match ends before any later one starts. */
  predicate Ascending(fs: seq<Found>) {
    forall j, k :: 0 <= j < |fs| && 0 <= k < |fs| && j < k ==> fs[j].m.end <= fs[k].start
  }

  lemma {:induction false} FoundAscending(m: Matcher, s: string, i: nat)
    ensures Ascending(FindFrom(m, s, i))
    decreases |s| - i
  {
    var fs := FindFrom(m, s, i);
    if i < |s| {
      if IsHit(m, s, i) {
        var e := EndOf(m, s, i);
        var rest := FindFrom(m, s, e);
        FoundAscending(m, s, e);
        assert fs == [Found(i, m(s, i).value)] + rest;
        assert fs[0].m.end == e;
        forall j, k | 0 <= j < |fs| && 0 <= k < |fs| && j < k
          ensures fs[j].m.end <= fs[k].start
        {
          assert fs[k] == rest[k - 1];
          assert e <= rest[k - 1].start;
          if j > 0 {
            assert fs[j] == rest[j - 1];
            assert rest[j - 1].m.end <= rest[k - 1].start;
          }
        }
      } else {
        FoundAscending(m, s, i + 1);
        assert fs == FindFrom(m, s, i + 1);
      }
    }
  }

  /** Proposal `j` of the salvation loop is the verse with "Salvation" written over the
      last word of each of the first `j + 1` matches of `\b(my|our|his|their)\s+salvation\b`,
      and every other character as it was. */
  lemma SalvationTextsExact(w0: string)
    ensures var fs := FindAll(M(SalvationRule), w0);
      forall j :: 0 <= j < |fs| ==> Respelled("Salvation", w0, fs[..j + 1], SalvationTexts(w0, fs)[j])
  {
    var fs := FindAll(M(SalvationRule), w0);
    SalvationRespelling();
    assert OwnedFound(Owners, "salvation", w0, fs);
    assert ShortOwners(Owners, "salvation");
    FoundAscending(M(SalvationRule), w0, 0);
    OwnedTextsExact(Owners, "salvation", "Salvation", w0, w0, [], fs);
    forall j | 0 <= j < |fs|
      ensures Respelled("Salvation", w0, fs[..j + 1], SalvationTexts(w0, fs)[j])
    {
      assert [] + fs[..j + 1] == fs[..j + 1];
    }
  }

  /* ---------------------------------------------------------------------------------
     Removing duplicate suggestions
     --------------------------------------------------------------------------------- */

  /** The key `(s.ref, s.suggested)` two suggestions are compared by. */
  function Key(s: Suggestion): (string, string) {
    (s.ref, s.suggested)
  }

  function KeySet(ss: seq<Suggestion>): set<(string, string)> {
    set j | 0 <= j < |ss| :: Key(ss[j])
  }

  /** The dedup loop over the suggestions so far: the next one is kept when no earlier one
      had its key. */
  function Dedup(ss: seq<Suggestion>): seq<Suggestion>
    decreases |ss|
  {
    if ss == [] then []
    else
      var pre := ss[..|ss| - 1];
      if Key(ss[|ss| - 1]) in KeySet(pre) then Dedup(pre) else Dedup(pre) + [ss[|ss| - 1]]
  }

  lemma KeySetSnoc(ss: seq<Suggestion>, s: Suggestion)
    ensures KeySet(ss + [s]) == KeySet(ss) + {Key(s)}
  {
    var t := ss + [s];
    forall k | k in KeySet(t)
      ensures k in KeySet(ss) + {Key(s)}
    {
      var j :| 0 <= j < |t| && k == Key(t[j]);
      if j < |ss| {
        assert t[j] == ss[j];
      }
    }
    forall k | k in KeySet(ss)
      ensures k in KeySet(t)
    {
      var j :| 0 <= j < |ss| && k == Key(ss[j]);
      assert t[j] == ss[j];
    }
    assert Key(t[|ss|]) == Key(s);
  }

  /** The kept suggestions have the keys of all of them. */
  lemma {:induction false} DedupKeys(ss: seq<Suggestion>)
    ensures KeySet(Dedup(ss)) == KeySet(ss)
    decreases |ss|
  {
    if ss != [] {
      var pre := ss[..|ss| - 1];
      var last := ss[|ss| - 1];
      DedupKeys(pre);
      assert ss == pre + [last];
      KeySetSnoc(pre, last);
      if Key(last) !in KeySet(pre) {
        KeySetSnoc(Dedup(pre), last);
      }
    }
  }

  /** No two kept suggestions share a key. */
  lemma {:induction false} DedupDistinct(ss: seq<Suggestion>)
    ensures forall i, j :: 0 <= i < j < |Dedup(ss)| ==> Key(Dedup(ss)[i]) != Key(Dedup(ss)[j])
    decreases |ss|
  {
    if ss != [] {
      var pre := ss[..|ss| - 1];
      var last := ss[|ss| - 1];
      DedupDistinct(pre);
      if Key(last) !in KeySet(pre) {
        DedupKeys(pre);
        var u := Dedup(pre);
        var r := u + [last];
        forall i, j | 0 <= i < j < |r|
          ensures Key(r[i]) != Key(r[j])
        {
          if j == |u| {
            assert Key(r[i]) in KeySet(u) by {
              assert r[i] == u[i];
            }
          } else {
            assert r[i] == u[i] && r[j] == u[j];
          }
        }
      }
    }
  }

  /** `kept` is, in its order, the first suggestion of `ss` with each key: `idx` gives
      where each was in `ss`. */
  ghost predicate FirstOfKeys(ss: seq<Suggestion>, kept: seq<Suggestion>, idx: seq<nat>) {
    && |idx| == |kept|
    && (forall i :: 0 <= i < |idx| ==> idx[i] < |ss| && ss[idx[i]] == kept[i])
    && (forall i :: 0 <= i < |idx| ==> forall k :: 0 <= k < idx[i] ==> Key(ss[k]) != Key(ss[idx[i]]))
    && (forall i, j :: 0 <= i < j < |idx| ==> idx[i] < idx[j])
  }

  /** The kept suggestions are, in their order, the first suggestion with each key. */
  lemma {:induction false} DedupFirst(ss: seq<Suggestion>) returns (idx: seq<nat>)
    ensures FirstOfKeys(ss, Dedup(ss), idx)
    decreases |ss|
  {
    if ss == [] {
      idx := [];
    } else {
      var pre := ss[..|ss| - 1];
      var idx0 := DedupFirst(pre);
      if Key(ss[|ss| - 1]) in KeySet(pre) {
        idx := idx0;
        FirstOfKeysSkip(ss, Dedup(pre), idx0);
      } else {
        idx := idx0 + [|ss| - 1];
        FirstOfKeysAdd(ss, Dedup(pre), idx0);
      }
    }
  }

  /** A suggestion whose key came earlier adds nothing to the kept ones. */
  lemma FirstOfKeysSkip(ss: seq<Suggestion>, kept: seq<Suggestion>, idx: seq<nat>)
    requires ss != [] && FirstOfKeys(ss[..|ss| - 1], kept, idx)
    ensures FirstOfKeys(ss, kept, idx)
  {
  }

  /** A suggestion with a new key is kept, after the ones before it. */
  lemma FirstOfKeysAdd(ss: seq<Suggestion>, kept: seq<Suggestion>, idx: seq<nat>)
    requires ss != [] && FirstOfKeys(ss[..|ss| - 1], kept, idx)
    requires Key(ss[|ss| - 1]) !in KeySet(ss[..|ss| - 1])
    ensures FirstOfKeys(ss, kept + [ss[|ss| - 1]], idx + [|ss| - 1])
  {
    var n := |ss| - 1;
    forall k | 0 <= k < n
      ensures Key(ss[k]) != Key(ss[n])
    {
      assert Key(ss[..n][k]) in KeySet(ss[..n]);
    }
  }

  /* ---------------------------------------------------------------------------------
     `suggest_line`
     --------------------------------------------------------------------------------- */

  /** The suggestions of one loop that proposes the texts `ts` with the same reason,
      confidence and kind. */
  function Proposals(ref: string, original: string, ts: seq<string>, reason: string, conf: nat, kind: string): (ss: seq<Suggestion>)
    ensures |ss| == |ts|
    ensures forall j :: 0 <= j < |ts| ==> ss[j] == Suggestion(ref, original, ts[j], reason, conf, kind)
  {
    seq(|ts|, j requires 0 <= j < |ts| => Suggestion(ref, original, ts[j], reason, conf, kind))
  }

  /** The suggestions of the pronoun loop, in order. */
  function PronounSuggestions(ref: string, original: string, es: seq<Edit>): (ss: seq<Suggestion>)
    ensures |ss| == |es|
    ensures forall j :: 0 <= j < |es| ==> ss[j] == PronounSuggestion(ref, original, es[j])
  {
    seq(|es|, j requires 0 <= j < |es| => PronounSuggestion(ref, original, es[j]))
  }

  /** The proposals of the pronoun loop on `text`: none without an anchor. */
  function PronounEdits(text: string): seq<Edit> {
    PronounWordsShape();
    if HasAnchor(text) then CapEdits(PronounWords, text) else []
  }

  /** The matches of one title pattern, their noun spans and the capitalised nouns. */
  function TitleFound(kind: TitleKind, src: string): seq<Found> {
    FindAll(TitleRe(kind), src)
  }

  /** The proposals of one title loop, each span placed where the spans before it have
      moved it. */
  function TitleTexts(kind: TitleKind, src: string): (ts: seq<string>)
    ensures |ts| == |TitleFound(kind, src)|
  {
    var fs := TitleFound(kind, src);
    IntendedTexts(src, NounSpans(fs), TitleCaps(src, fs))
  }

  /** The working text once one title loop is over: every noun replaced. */
  function AfterTitles(kind: TitleKind, src: string): string {
    var fs := TitleFound(kind, src);
    Rebuilt(src, NounSpans(fs), TitleCaps(src, fs))
  }

  const SalvationReason: string := "Salvation used as a title (my/our/his/their Salvation)."

  /** Every suggestion of `suggest_line`, before duplicates are removed: pronouns (with an
      anchor), then "is my ..." titles and possessive titles, both found in the original
      text and the second in the text the first left, then salvation. */
  function AllSuggestions(ref: string, text: string): seq<Suggestion> {
    var w2 := AfterTitles(IsTitle, text);
    var w3 := AfterTitles(PossessiveTitle, w2);
    PronounSuggestions(ref, text, PronounEdits(text))
      + Proposals(ref, text, TitleTexts(IsTitle, text), TitleReason(IsTitle), TitleConfidence(IsTitle), "title")
      + Proposals(ref, text, TitleTexts(PossessiveTitle, w2), TitleReason(PossessiveTitle), TitleConfidence(PossessiveTitle), "title")
      + Proposals(ref, text, SalvationTexts(w3, FindAll(M(SalvationRule), w3)), SalvationReason, 85, "title")
  }

  function SuggestLineSpec(ref: string, text: string): seq<Suggestion> {
    Dedup(AllSuggestions(ref, text))
  }

  lemma PronounSuggestionsCons(ref: string, original: string, e: Edit, es: seq<Edit>)
    ensures PronounSuggestions(ref, original, [e] + es) == [PronounSuggestion(ref, original, e)] + PronounSuggestions(ref, original, es)
  {
    var l := PronounSuggestions(ref, original, [e] + es);
    var r := [PronounSuggestion(ref, original, e)] + PronounSuggestions(ref, original, es);
    forall j | 0 <= j < |l|
      ensures l[j] == r[j]
    {
      if j > 0 {
        assert ([e] + es)[j] == es[j - 1];
      }
    }
  }

  lemma ProposalsSnoc(ref: string, original: string, ts: seq<string>, t: string, reason: string, conf: nat, kind: string)
    ensures Proposals(ref, original, ts + [t], reason, conf, kind)
      == Proposals(ref, original, ts, reason, conf, kind) + [Suggestion(ref, original, t, reason, conf, kind)]
  {
  }

  lemma ProposalsCons(ref: string, original: string, t: string, ts: seq<string>, reason: string, conf: nat, kind: string)
    ensures Proposals(ref, original, [t] + ts, reason, conf, kind)
      == [Suggestion(ref, original, t, reason, conf, kind)] + Proposals(ref, original, ts, reason, conf, kind)
  {
    var l := Proposals(ref, original, [t] + ts, reason, conf, kind);
    var r := [Suggestion(ref, original, t, reason, conf, kind)] + Proposals(ref, original, ts, reason, conf, kind);
    forall j | 0 <= j < |l|
      ensures l[j] == r[j]
    {
      if j > 0 {
        assert ([t] + ts)[j] == ts[j - 1];
      }
    }
  }

  /** One turn of the pronoun loop at the leftmost match `p`: the word found is lower-case,
      and the proposal it makes comes first among those of the loop from here. */
  lemma PronounTurn(ws: seq<string>, ref: string, original: string, working: string, p: nat)
    requires LowerWords(ws) && forall j :: 0 <= j < |ws| ==> IsLowerWord(ws[j])
    requires Search(AltWords(ws), working) == Some(p)
    ensures var e := EndOf(AltWords(ws), working, p);
      var pron := working[p..e];
      var suggested := ApplySingleSpan(working, p, e, [ToUpper(pron[0])] + pron[1..]);
      && IsLowerWord(pron)
      && LowerCount(suggested) < LowerCount(working)
      && PronounSuggestions(ref, original, CapEdits(ws, working))
        == [Suggestion(ref, original, suggested, PronounReason(pron), ConfidenceForPronoun(working, p), "pronoun")]
          + PronounSuggestions(ref, original, CapEdits(ws, suggested))
  {
    CapEditsUnfold(ws, working);
    CapStep(ws, working, p);
    PronounSuggestionsCons(ref, original, CapEdits(ws, working)[0], CapEdits(ws, CapAt(working, p)));
  }

  /** One turn of the pronoun loop: search the working text for one of the whole words
      `ws`; when one is found, propose the working text with its first letter upper-cased.
      The proposal is the first of those still to come, and the loop goes on from it. */
  method PronounStep(ws: seq<string>, ref: string, original: string, working: string)
    returns (found: bool, s: Suggestion, next: string)
    requires LowerWords(ws) && forall j :: 0 <= j < |ws| ==> IsLowerWord(ws[j])
    ensures !found ==> PronounSuggestions(ref, original, CapEdits(ws, working)) == []
    ensures found ==> LowerCount(next) < LowerCount(working)
    ensures found ==>
      PronounSuggestions(ref, original, CapEdits(ws, working)) == [s] + PronounSuggestions(ref, original, CapEdits(ws, next))
  {
    var m := Search(AltWords(ws), working);
    if m.None? {
      CapEditsUnfold(ws, working);
      return false, Suggestion(ref, original, working, "", 0, ""), working;
    }
    var p := m.value;
    var e := EndOf(AltWords(ws), working, p);
    var pron := working[p..e];
    PronounTurn(ws, ref, original, working, p);
    var cap := [ToUpper(pron[0])] + pron[1..];
    var conf := ConfidenceForPronoun(working, p);
    next := ApplySingleSpan(working, p, e, cap);
    s := Suggestion(ref, original, next, PronounReason(pron), conf, "pronoun");
    found := true;
  }

  /** The pronoun loop of `suggest_line` for the whole words `ws`: while one is found,
      propose the working text with its first letter upper-cased and carry on from the
      proposal. */
  method PronounLoop(ws: seq<string>, ref: string, original: string) returns (suggestions: seq<Suggestion>)
    requires LowerWords(ws) && forall j :: 0 <= j < |ws| ==> IsLowerWord(ws[j])
    ensures suggestions == PronounSuggestions(ref, original, CapEdits(ws, original))
  {
    suggestions := [];
    var working := original;
    ghost var all := PronounSuggestions(ref, original, CapEdits(ws, original));
    while true
      invariant all == suggestions + PronounSuggestions(ref, original, CapEdits(ws, working))
      decreases LowerCount(working)
    {
      var found, s, next := PronounStep(ws, ref, original, working);
      if !found {
        break;
      }
      suggestions := suggestions + [s];
      working := next;
    }
  }

  /** The pronoun part of `suggest_line`: the loop over `PRONOUN_RE` when the verse has an
      anchor, nothing otherwise. */
  method PronounPhase(ref: string, text: string) returns (suggestions: seq<Suggestion>)
    ensures suggestions == PronounSuggestions(ref, text, PronounEdits(text))
  {
    if HasAnchor(text) {
      PronounWordsShape();
      suggestions := PronounLoop(PronounWords, ref, text);
    } else {
      suggestions := [];
    }
  }

  /** Moving past one more span shifts what follows by the change in its length. */
  lemma ShiftSnoc(src: string, gs: seq<Span>, cs: seq<string>, j: nat)
    requires |gs| == |cs| && Ordered(src, gs) && j < |gs|
    ensures Shift(src, gs[..j + 1], cs[..j + 1]) == Shift(src, gs[..j], cs[..j]) + |cs[j]| - (gs[j].end - gs[j].start)
  {
    CappedSnoc(src, gs, cs, j);
    LastEndBefore(src, gs, j);
    SliceIn(src, LastEnd(gs[..j]), gs[j].start);
  }

  lemma IntendedTextsSnoc(src: string, gs: seq<Span>, cs: seq<string>, j: nat)
    requires |gs| == |cs| && j < |gs|
    ensures IntendedTexts(src, gs[..j + 1], cs[..j + 1]) == IntendedTexts(src, gs[..j], cs[..j]) + [Rebuilt(src, gs[..j + 1], cs[..j + 1])]
  {
    assert gs[..j + 1][..j] == gs[..j] && cs[..j + 1][..j] == cs[..j];
  }

  lemma TitleProposalsSnoc(ref: string, original: string, src: string, gs: seq<Span>, cs: seq<string>, j: nat, reason: string, conf: nat)
    requires |gs| == |cs| && j < |gs|
    ensures Proposals(ref, original, IntendedTexts(src, gs[..j + 1], cs[..j + 1]), reason, conf, "title")
      == Proposals(ref, original, IntendedTexts(src, gs[..j], cs[..j]), reason, conf, "title")
        + [Suggestion(ref, original, Rebuilt(src, gs[..j + 1], cs[..j + 1]), reason, conf, "title")]
  {
    IntendedTextsSnoc(src, gs, cs, j);
    ProposalsSnoc(ref, original, IntendedTexts(src, gs[..j], cs[..j]), Rebuilt(src, gs[..j + 1], cs[..j + 1]), reason, conf, "title");
  }

  /** Before the first turn of a title loop nothing is replaced and nothing proposed. */
  lemma TitleLoopStart(ref: string, original: string, src: string, gs: seq<Span>, cs: seq<string>, reason: string, conf: nat)
    requires |gs| == |cs|
    ensures src == Rebuilt(src, gs[..0], cs[..0]) && 0 == Shift(src, gs[..0], cs[..0])
    ensures [] == Proposals(ref, original, IntendedTexts(src, gs[..0], cs[..0]), reason, conf, "title")
  {
    RebuiltNone(src, gs, cs);
    assert gs[..0] == [] && cs[..0] == [];
  }

  /** One turn of a title loop: the `j`-th noun span, moved by `off`, is replaced in the
      working text by its capitalised form; the result is the text rebuilt through span
      `j`, and the shift grows by the change in length. */
  method TitleStep(src: string, fs: seq<Found>, j: nat, working: string, off: int) returns (suggested: string, off': int)
    requires j < |fs| && Ordered(src, NounSpans(fs))
    requires working == Rebuilt(src, NounSpans(fs)[..j], TitleCaps(src, fs)[..j])
    requires off == Shift(src, NounSpans(fs)[..j], TitleCaps(src, fs)[..j])
    ensures suggested == Rebuilt(src, NounSpans(fs)[..j + 1], TitleCaps(src, fs)[..j + 1])
    ensures off' == Shift(src, NounSpans(fs)[..j + 1], TitleCaps(src, fs)[..j + 1])
  {
    ghost var gs, cs := NounSpans(fs), TitleCaps(src, fs);
    var g := NounSpan(fs[j]);
    var nounCap := CapPhrase(Lower(SpanText(src, g)));
    ghost var a, b := RebuiltStep(src, gs, cs, j);
    var start: nat := g.start + off;
    var end: nat := g.end + off;
    suggested := ApplySingleSpan(working, start, end, nounCap);
    assert gs[j] == g && cs[j] == nounCap;
    ApplySame(suggested, working, Rebuilt(src, gs[..j], cs[..j]), Rebuilt(src, gs[..j + 1], cs[..j + 1]),
      start, end, a, b, nounCap);
    ShiftSnoc(src, gs, cs, j);
    off' := off + |nounCap| - (g.end - g.start);
  }

  /** One title loop of `suggest_line`, with each noun span moved by the change in length
      of the nouns already replaced. */
  method TitlePhase(kind: TitleKind, ref: string, original: string, src: string) returns (suggestions: seq<Suggestion>, working: string)
    ensures suggestions == Proposals(ref, original, TitleTexts(kind, src), TitleReason(kind), TitleConfidence(kind), "title")
    ensures working == AfterTitles(kind, src)
  {
    var fs := FindAll(TitleRe(kind), src);
    TitlesOrdered(kind, src);
    suggestions, working := TitleLoop(ref, original, src, fs, TitleReason(kind), TitleConfidence(kind));
  }

  /** The loop over the matches `fs` of a title pattern in `src`. */
  method TitleLoop(ref: string, original: string, src: string, fs: seq<Found>, reason: string, conf: nat)
    returns (suggestions: seq<Suggestion>, working: string)
    requires Ordered(src, NounSpans(fs))
    ensures suggestions == Proposals(ref, original, IntendedTexts(src, NounSpans(fs), TitleCaps(src, fs)), reason, conf, "title")
    ensures working == Rebuilt(src, NounSpans(fs), TitleCaps(src, fs))
  {
    ghost var gs := NounSpans(fs);
    ghost var cs := TitleCaps(src, fs);
    working := src;
    suggestions := [];
    var off: int := 0;
    TitleLoopStart(ref, original, src, gs, cs, reason, conf);
    for j := 0 to |fs|
      invariant working == Rebuilt(src, gs[..j], cs[..j])
      invariant off == Shift(src, gs[..j], cs[..j])
      invariant suggestions == Proposals(ref, original, IntendedTexts(src, gs[..j], cs[..j]), reason, conf, "title")
    {
      var suggested;
      suggested, off := TitleStep(src, fs, j, working, off);
      TitleProposalsSnoc(ref, original, src, gs, cs, j, reason, conf);
      suggestions := suggestions + [Suggestion(ref, original, suggested, reason, conf, "title")];
      working := suggested;
    }
    assert gs[..|fs|] == gs && cs[..|fs|] == cs;
  }

  /** The salvation loop of `suggest_line`: each match listed before the loop is cut from
      the working text as it stands and written back with "salvation" capitalised. */
  method SalvationPhase(ref: string, original: string, src: string) returns (suggestions: seq<Suggestion>)
    ensures suggestions == Proposals(ref, original, SalvationTexts(src, FindAll(M(SalvationRule), src)), SalvationReason, 85, "title")
  {
    var fs := FindAll(M(SalvationRule), src);
    ghost var all := Proposals(ref, original, SalvationTexts(src, fs), SalvationReason, 85, "title");
    var working := src;
    suggestions := [];
    for j := 0 to |fs|
      invariant all == suggestions + Proposals(ref, original, SalvationTexts(working, fs[j..]), SalvationReason, 85, "title")
    {
      var start, end := fs[j].start, fs[j].m.end;
      var phrase := Slice(working, start, end);
      var phrase2 := CapSalvation(phrase);
      var suggested := ApplySingleSpan(working, start, end, phrase2);
      assert fs[j..][0] == fs[j] && fs[j..][1..] == fs[j + 1..];
      assert SalvationTexts(working, fs[j..]) == [suggested] + SalvationTexts(suggested, fs[j + 1..]);
      ProposalsCons(ref, original, suggested, SalvationTexts(suggested, fs[j + 1..]), SalvationReason, 85, "title");
      suggestions := suggestions + [Suggestion(ref, original, suggested, SalvationReason, 85, "title")];
      working := suggested;
    }
  }

  /** The dedup loop of `suggest_line`, with the set of keys seen so far. */
  method DedupPass(ss: seq<Suggestion>) returns (uniq: seq<Suggestion>)
    ensures uniq == Dedup(ss)
  {
    var seen: set<(string, string)> := {};
    uniq := [];
    for j := 0 to |ss|
      invariant uniq == Dedup(ss[..j]) && seen == KeySet(ss[..j])
    {
      var key := Key(ss[j]);
      assert ss[..j + 1][..j] == ss[..j] && ss[..j + 1] == ss[..j] + [ss[j]];
      KeySetSnoc(ss[..j], ss[j]);
      if key !in seen {
        seen := seen + {key};
        uniq := uniq + [ss[j]];
      }
    }
    assert ss[..|ss|] == ss;
  }

  /** `suggest_line`: the pronoun, title and salvation loops, then duplicates removed. */
  method SuggestLine(ref: string, text: string) returns (uniq: seq<Suggestion>)
    ensures uniq == SuggestLineSpec(ref, text)
  {
    var pronouns := PronounPhase(ref, text);
    var isTitles, afterIs := TitlePhase(IsTitle, ref, text, text);
    var possessive, afterPossessive := TitlePhase(PossessiveTitle, ref, text, afterIs);
    var salvation := SalvationPhase(ref, text, afterPossessive);
    uniq := DedupPass(pronouns + isTitles + possessive + salvation);
  }

  /** A suggestion as `suggest_line` makes them for `ref` and `text`: about that verse, a
      pronoun proposal only when the verse has an anchor and then scored 80 to 95, and a
      title proposal scored 92, 88 or 85. */
  predicate WellMade(ref: string, text: string, s: Suggestion) {
    && s.ref == ref && s.original == text
    && (s.kind == "pronoun" || s.kind == "title")
    && (s.kind == "pronoun" ==> HasAnchor(text) && 80 <= s.confidence <= 95)
    && (s.kind == "title" ==> s.confidence in {92, 88, 85})
  }

  predicate AllWellMade(ref: string, text: string, ss: seq<Suggestion>) {
    forall j :: 0 <= j < |ss| ==> WellMade(ref, text, ss[j])
  }

  lemma PronounsWellMade(ref: string, text: string)
    ensures AllWellMade(ref, text, PronounSuggestions(ref, text, PronounEdits(text)))
  {
    if HasAnchor(text) {
      PronounWordsShape();
      CapEditsAnchored(PronounWords, text);
    }
  }

  lemma ProposalsWellMade(ref: string, text: string, ts: seq<string>, reason: string, conf: nat)
    requires conf in {92, 88, 85}
    ensures AllWellMade(ref, text, Proposals(ref, text, ts, reason, conf, "title"))
  {
  }

  lemma AppendWellMade(ref: string, text: string, a: seq<Suggestion>, b: seq<Suggestion>)
    requires AllWellMade(ref, text, a) && AllWellMade(ref, text, b)
    ensures AllWellMade(ref, text, a + b)
  {
    forall j | 0 <= j < |a + b|
      ensures WellMade(ref, text, (a + b)[j])
    {
      if j >= |a| {
        assert (a + b)[j] == b[j - |a|];
      }
    }
  }

  /** Every suggestion made before duplicates are removed is well made. */
  lemma AllSuggestionsWellMade(ref: string, text: string)
    ensures AllWellMade(ref, text, AllSuggestions(ref, text))
  {
    var w2 := AfterTitles(IsTitle, text);
    var w3 := AfterTitles(PossessiveTitle, w2);
    var a := PronounSuggestions(ref, text, PronounEdits(text));
    var b := Proposals(ref, text, TitleTexts(IsTitle, text), TitleReason(IsTitle), TitleConfidence(IsTitle), "title");
    var c := Proposals(ref, text, TitleTexts(PossessiveTitle, w2), TitleReason(PossessiveTitle), TitleConfidence(PossessiveTitle), "title");
    var d := Proposals(ref, text, SalvationTexts(w3, FindAll(M(SalvationRule), w3)), SalvationReason, 85, "title");
    PronounsWellMade(ref, text);
    ProposalsWellMade(ref, text, TitleTexts(IsTitle, text), TitleReason(IsTitle), 92);
    ProposalsWellMade(ref, text, TitleTexts(PossessiveTitle, w2), TitleReason(PossessiveTitle), 88);
    ProposalsWellMade(ref, text, SalvationTexts(w3, FindAll(M(SalvationRule), w3)), SalvationReason, 85);
    AppendWellMade(ref, text, a, b);
    AppendWellMade(ref, text, a + b, c);
    AppendWellMade(ref, text, a + b + c, d);
  }

  /** What `suggest_line` returns: well-made suggestions, no two with the same reference and
      suggested text, one for every reference and suggested text proposed, each the first
      proposal with its key. */
  lemma SuggestLineProperties(ref: string, text: string)
    ensures var out := SuggestLineSpec(ref, text);
      && AllWellMade(ref, text, out)
      && (forall i, j :: 0 <= i < j < |out| ==> out[i].suggested != out[j].suggested)
      && KeySet(out) == KeySet(AllSuggestions(ref, text))
  {
    var all := AllSuggestions(ref, text);
    var out := Dedup(all);
    AllSuggestionsWellMade(ref, text);
    var idx := DedupFirst(all);
    DedupDistinct(all);
    DedupKeys(all);
    forall j | 0 <= j < |out|
      ensures WellMade(ref, text, out[j])
    {
      assert out[j] == all[idx[j]];
    }
  }
}
