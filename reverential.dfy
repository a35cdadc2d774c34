/** `enforce_reverential_pronouns` of scripts/polish.py: when the verse names God or the
    LORD as the subject of one of a few verbs, every whole-word lower-case he/him/his/himself
    is capitalised; otherwise the verse is left alone. */
module Reverential {
  import opened Wrappers
  import opened Chars
  import opened Scan
  import opened Whitespace
  import opened Regex
  import opened Words
  import opened KjvPronouns

  /** `\bS\s+(v1|v2|...)\b`, case-sensitive. */
  function SubjectVerb(subject: string, verbs: seq<string>): Rx {
    Bound(Text(subject, false, Spaces(Alt(verbs, false, Bound(Done)))))
  }

  const GodVerbs: seq<string> := ["said", "did", "made", "created", "saw", "called", "blessed", "commanded", "formed"]
  const LordVerbs: seq<string> := ["said", "did", "made", "saw", "called", "commanded", "appeared"]
  const LordGodVerbs: seq<string> := ["said", "did", "made", "formed", "took", "placed"]

  const GodActs: Rx := SubjectVerb("God", GodVerbs)
  const LordActs: Rx := SubjectVerb("the LORD", LordVerbs)
  const LordGodActs: Rx := SubjectVerb("the LORD God", LordGodVerbs)

  /** `any(re.search(p, text) for p in patterns)` */
  predicate Gate(text: string) {
    Occurs(M(GodActs), text) || Occurs(M(LordActs), text) || Occurs(M(LordGodActs), text)
  }

  /** `re.sub(r"\bw\b", W, text)` for one pronoun. */
  function CapWord(w: string, cap: string, text: string): string {
    Sub(AltWords([w]), Template([Lit(cap)]), text)
  }

  function EnforceReverentialPronouns(text: string): string {
    if !Gate(text) then text
    else
      var t1 := CapWord("he", "He", text);
      var t2 := CapWord("him", "Him", t1);
      var t3 := CapWord("his", "His", t2);
      CapWord("himself", "Himself", t3)
  }

  /** One of the four substitutions capitalises the first letter of every whole-word
      occurrence of its pronoun and changes nothing else. */
  lemma CapWordIsRecase(w: string, cap: string, text: string)
    requires IsWord(w) && IsLower(w[0]) && cap == [ToUpper(w[0])] + w[1..]
    ensures CapWord(w, cap, text) == RecaseHits(AltWords([w]), text, true)
  {
    assert AllWords([w]);
    TemplateRecases(w, text, true);
    SubIsRecase([w], Template([Lit(cap)]), text, true);
  }

  /** With the gate open the four substitutions together do what `cap_all` of
      scripts/kjv_pronouns.py does. */
  lemma GatedIsCapAll(text: string)
    requires Gate(text)
    ensures EnforceReverentialPronouns(text) == CapAll(text)
  {
    CapWordsChain(text);
    LowWords();
    RecaseEachIsRecase(LowPronouns, text, true);
    CapAllIsRecase(text);
  }

  /** The four substitutions in turn re-case the four pronouns one after another. */
  lemma CapWordsChain(text: string)
    ensures var t1 := CapWord("he", "He", text);
      var t2 := CapWord("him", "Him", t1);
      var t3 := CapWord("his", "His", t2);
      CapWord("himself", "Himself", t3) == RecaseEach(LowPronouns, text, true)
  {
    var t1 := CapWord("he", "He", text);
    var t2 := CapWord("him", "Him", t1);
    var t3 := CapWord("his", "His", t2);
    CapWordIsRecase("he", "He", text);
    CapWordIsRecase("him", "Him", t1);
    CapWordIsRecase("his", "His", t2);
    CapWordIsRecase("himself", "Himself", t3);
    RecaseEachLow(text);
  }

  /** `RecaseEach` over the lower-case pronouns, written out. */
  lemma RecaseEachLow(text: string)
    ensures var r1 := RecaseHits(AltWords(["he"]), text, true);
      var r2 := RecaseHits(AltWords(["him"]), r1, true);
      var r3 := RecaseHits(AltWords(["his"]), r2, true);
      RecaseEach(LowPronouns, text, true) == RecaseHits(AltWords(["himself"]), r3, true)
  {
    var ws := LowPronouns;
    var r1 := RecaseHits(AltWords(["he"]), text, true);
    var r2 := RecaseHits(AltWords(["him"]), r1, true);
    var r3 := RecaseHits(AltWords(["his"]), r2, true);
    assert ws[1..][1..][1..][1..] == [];
    assert ws[0] == "he" && ws[1..][0] == "him" && ws[1..][1..][0] == "his" && ws[1..][1..][1..][0] == "himself";
    assert RecaseEach(ws, text, true) == RecaseEach(ws[1..], r1, true);
    assert RecaseEach(ws[1..], r1, true) == RecaseEach(ws[1..][1..], r2, true);
    assert RecaseEach(ws[1..][1..], r2, true) == RecaseEach(ws[1..][1..][1..], r3, true);
  }


  /** Re-casing leaves every whitespace character where it was and adds none. */
  lemma RecaseKeepsSpaces(m: Matcher, s: string, up: bool)
    ensures forall k :: 0 <= k < |s| ==> IsSpace(RecaseHits(m, s, up)[k]) == IsSpace(s[k])
    ensures forall k :: 0 <= k < |s| && IsSpace(s[k]) ==> RecaseHits(m, s, up)[k] == s[k]
  {
    forall k | 0 <= k < |s|
      ensures IsSpace(RecaseHits(m, s, up)[k]) == IsSpace(s[k])
      ensures IsSpace(s[k]) ==> RecaseHits(m, s, up)[k] == s[k]
    {
      CaseKeepsClass(s[k]);
    }
  }

  /** The rule is the identity when the gate is closed; with the gate open it capitalises
      exactly the whole-word lower-case pronouns: the result is `RecaseHits` for
      `\b(he|him|his|himself)\b`, has the input's length, lower-cases to the input, and
      holds no lower-case pronoun. */
  lemma EnforceReverentialPronounsProperties(text: string)
    ensures !Gate(text) ==> EnforceReverentialPronouns(text) == text
    ensures Gate(text) ==>
      && EnforceReverentialPronouns(text) == RecaseHits(HumLow(), text, true)
      && |EnforceReverentialPronouns(text)| == |text|
      && Lower(EnforceReverentialPronouns(text)) == Lower(text)
      && !HasWord(LowPronouns, EnforceReverentialPronouns(text))
  {
    if Gate(text) {
      GatedIsCapAll(text);
      CapAllIsRecase(text);
      CapAllProperties(text);
    }
  }

  /** Applying the rule twice gives what applying it once gives: either the gate is closed
      and nothing changes, or every pronoun is already capitalised. */
  lemma EnforceReverentialPronounsIdempotent(text: string)
    ensures EnforceReverentialPronouns(EnforceReverentialPronouns(text)) == EnforceReverentialPronouns(text)
  {
    if Gate(text) {
      var t := CapAll(text);
      GatedIsCapAll(text);
      if Gate(t) {
        GatedIsCapAll(t);
        CapAllIdempotent(text);
      }
    }
  }

  /** The rule keeps text in the shape `normalize_space` leaves it in. */
  lemma EnforceReverentialPronounsNormalized(text: string)
    requires Normalized(text)
    ensures Normalized(EnforceReverentialPronouns(text))
  {
    if Gate(text) {
      EnforceReverentialPronounsProperties(text);
      RecaseKeepsSpaces(HumLow(), text, true);
    }
  }
}
