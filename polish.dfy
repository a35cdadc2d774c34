/** scripts/polish.py: the drift guard that accepts or rejects a rewritten verse, the fixed
    chain of enforcement rules with its closing check, and the per-verse loop of the polish
    pass.  The rewriting service is a parameter: it is any function from a reference and an
    original text to a revised text. */
module Polish {
  import opened Wrappers
  import opened Chars
  import opened Scan
  import opened Whitespace
  import opened Regex
  import opened LordCaps
  import opened BetweenFrom
  import opened CompoundNumbers
  import opened Reverential

  // ---------------------------------------------------------------------------------------
  // The drift guard

  predicate StartsWith(s: string, p: string) {
    |p| <= |s| && s[..|p|] == p
  }

  const LeadIns: seq<string> := ["note:", "commentary:", "explanation:", "translator"]

  /** `r.startswith("#") or r.lower().startswith(("note:", ...))` */
  predicate HeadingLike(r: string) {
    StartsWith(r, "#") || exists j :: 0 <= j < |LeadIns| && StartsWith(Lower(r), LeadIns[j])
  }

  /** The index just past the run of decimal digits that starts at `i`. */
  function DigitRunEnd(s: string, i: nat): (e: nat)
    requires i <= |s|
    ensures i <= e <= |s| && AllDigits(s[i..e]) && (e < |s| ==> !IsDigit(s[e]))
    decreases |s| - i
  {
    if i < |s| && IsDigit(s[i]) then
      var e := DigitRunEnd(s, i + 1);
      assert s[i..e] == [s[i]] + s[i + 1..e];
      e
    else i
  }

  /** `re.match(r"^\d+\s", r)`: the greedy `\d+` takes the whole digit run and whitespace
      must follow it. */
  predicate LeadingNumber(r: string) {
    var e := DigitRunEnd(r, 0);
    0 < e < |r| && IsSpace(r[e])
  }

  /** The greedy run computed above agrees with the pattern read as "some non-empty digit
      prefix followed by whitespace": backing off inside the run never helps, since a digit
      is never whitespace. */
  lemma LeadingNumberIff(r: string)
    ensures LeadingNumber(r) <==> exists k :: 0 < k < |r| && AllDigits(r[..k]) && IsSpace(r[k])
  {
    var e := DigitRunEnd(r, 0);
    if LeadingNumber(r) {
      assert r[0..e] == r[..e];
    }
    assert r[0..e] == r[..e];
    assert forall x :: 0 <= x < e ==> IsDigit(r[..e][x]);
    forall k | 0 < k < |r| && AllDigits(r[..k]) && IsSpace(r[k])
      ensures LeadingNumber(r)
    {
      assert forall x :: 0 <= x < k ==> IsDigit(r[..k][x]);
    }
  }

  /** The guard's answer: accepted or not, and why. */
  datatype Verdict = Verdict(ok: bool, reason: string)

  /** `similarity_guard`: the checks run in a fixed order and the first that fails names the
      reason.  The length ratio `len(r) / len(o)` is compared with 0.60 and 1.60 by cross
      multiplication. */
  function SimilarityGuard(original: string, revised: string): Verdict {
    var o := NormalizeSpace(original);
    var r := NormalizeSpace(revised);
    if r == [] then Verdict(false, "empty_output")
    else if HeadingLike(r) then Verdict(false, "commentary_or_heading")
    else if LeadingNumber(r) then Verdict(false, "added_verse_number")
    else if |o| >= 20 && 5 * |r| < 3 * |o| then Verdict(false, "too_short")
    else if |o| >= 20 && 5 * |r| > 8 * |o| then Verdict(false, "too_long")
    else Verdict(true, "ok")
  }

  /** The guard only looks at the texts after whitespace normalisation; an accepted revision
      is non-empty, does not open like a heading, a note or a verse number, and, against an
      original of at least 20 characters, is between 3/5 and 8/5 of its length, both ends
      included.  A rejection always carries one of the five reasons, in the order checked. */
  lemma SimilarityGuardProperties(original: string, revised: string)
    ensures SimilarityGuard(original, revised) == SimilarityGuard(NormalizeSpace(original), NormalizeSpace(revised))
    ensures var o, r, v := NormalizeSpace(original), NormalizeSpace(revised), SimilarityGuard(original, revised);
      && (v.ok <==> v.reason == "ok")
      && (v.reason == "empty_output" <==> r == [])
      && (v.ok ==> r != [] && !HeadingLike(r) && !(exists k :: 0 < k < |r| && AllDigits(r[..k]) && IsSpace(r[k])))
      && (v.ok && |o| >= 20 ==> 3 * |o| <= 5 * |r| <= 8 * |o|)
      && (r != [] && !HeadingLike(r) && !LeadingNumber(r) && (|o| < 20 || 3 * |o| <= 5 * |r| <= 8 * |o|) ==> v.ok)
      && (!v.ok ==> v.reason in ["empty_output", "commentary_or_heading", "added_verse_number", "too_short", "too_long"])
  {
    NormalizeSpaceIdempotent(original);
    NormalizeSpaceIdempotent(revised);
    LeadingNumberIff(NormalizeSpace(revised));
  }

  // ---------------------------------------------------------------------------------------
  // The enforcement chain

  /** `s.replace(w, rep)`: the same left-to-right, non-overlapping scan as `re.sub`, with a
      literal pattern. */
  function Replace(s: string, w: string, rep: string): string {
    Sub(M(Text(w, false, Done)), Template([Lit(rep)]), s)
  }

  /** A substitution that replaces every match with text holding the same non-whitespace
      characters keeps the non-whitespace characters of the whole string. */
  lemma {:induction false} SubSqueeze(m: Matcher, r: Repl, s: string, i: nat)
    requires forall k: nat :: IsHit(m, s, k) ==> Squeeze(ReplAt(m, r, s, k)) == Squeeze(s[k..EndOf(m, s, k)])
    requires i <= |s|
    ensures Squeeze(SubFrom(m, r, s, i)) == Squeeze(s[i..])
    decreases |s| - i
  {
    if i < |s| {
      if IsHit(m, s, i) {
        SubSqueeze(m, r, s, EndOf(m, s, i));
        SubSqueezeHit(m, r, s, i);
      } else {
        SubSqueeze(m, r, s, i + 1);
        SubSqueezeMiss(m, r, s, i);
      }
    }
  }

  lemma SubSqueezeHit(m: Matcher, r: Repl, s: string, i: nat)
    requires IsHit(m, s, i) && Squeeze(ReplAt(m, r, s, i)) == Squeeze(s[i..EndOf(m, s, i)])
    requires Squeeze(SubFrom(m, r, s, EndOf(m, s, i))) == Squeeze(s[EndOf(m, s, i)..])
    ensures Squeeze(SubFrom(m, r, s, i)) == Squeeze(s[i..])
  {
    var e := EndOf(m, s, i);
    SqueezeConcat(ReplAt(m, r, s, i), SubFrom(m, r, s, e));
    assert s[i..] == s[i..e] + s[e..];
    SqueezeConcat(s[i..e], s[e..]);
  }

  lemma SubSqueezeMiss(m: Matcher, r: Repl, s: string, i: nat)
    requires i < |s| && !IsHit(m, s, i)
    requires Squeeze(SubFrom(m, r, s, i + 1)) == Squeeze(s[i + 1..])
    ensures Squeeze(SubFrom(m, r, s, i)) == Squeeze(s[i..])
  {
    SqueezeConcat([s[i]], SubFrom(m, r, s, i + 1));
    assert s[i..] == [s[i]] + s[i + 1..];
    SqueezeConcat([s[i]], s[i + 1..]);
  }

  /** A literal pattern matches exactly where its text occurs, and ends after it. */
  lemma LiteralHit(w: string, s: string, k: nat)
    requires M(Text(w, false, Done))(s, k).Some?
    ensures OccursAt(w, s, k) && M(Text(w, false, Done))(s, k).value.end == k + |w|
  {
    var r := Run(Text(w, false, Done), s, k);
    assert M(Text(w, false, Done))(s, k) == r;
    assert r == if OccursAt(w, s, k) then Run(Done, s, k + |w|) else None;
  }

  /** Replacing whitespace by a space loses and adds no non-whitespace character. */
  lemma ReplaceSpaceSqueeze(s: string, w: string)
    requires forall k :: 0 <= k < |w| ==> IsSpace(w[k])
    ensures Squeeze(Replace(s, w, " ")) == Squeeze(s)
  {
    var m := M(Text(w, false, Done));
    forall k: nat | IsHit(m, s, k)
      ensures Squeeze(ReplAt(m, Template([Lit(" ")]), s, k)) == Squeeze(s[k..EndOf(m, s, k)])
    {
      ExpandLiteral(" ", s, k, m(s, k).value);
      var e := EndOf(m, s, k);
      LiteralHit(w, s, k);
      assert s[k..e] == w;
      SqueezeAllSpace(" ");
      SqueezeAllSpace(s[k..e]);
    }
    SubSqueeze(m, Template([Lit(" ")]), s, 0);
    assert s[0..] == s;
  }

  /** Replacing whitespace by a space keeps the words. */
  lemma ReplaceSpaceWords(s: string, w: string)
    requires forall k :: 0 <= k < |w| ==> IsSpace(w[k])
    ensures SplitSpace(Replace(s, w, " ")) == SplitSpace(s)
  {
    var m := M(Text(w, false, Done));
    forall k: nat | IsHit(m, s, k)
      ensures ReplAt(m, Template([Lit(" ")]), s, k) == " " && AllSpace(s[k..EndOf(m, s, k)])
    {
      ExpandLiteral(" ", s, k, m(s, k).value);
      LiteralHit(w, s, k);
      assert s[k..EndOf(m, s, k)] == w;
    }
    SubKeepsWords(m, Template([Lit(" ")]), s, [], 0);
    assert [] + Replace(s, w, " ") == Replace(s, w, " ");
    assert [] + s[0..] == s;
  }

  /** `collapse_internal_newlines`: the verse becomes one line holding its words, line
      breaks counting as separators like any other whitespace, joined by single spaces. */
  function CollapseInternalNewlines(text: string): (r: string)
    ensures r == JoinSpace(SplitSpace(text))
    ensures Normalized(r) && Squeeze(r) == Squeeze(text)
    ensures forall k :: 0 <= k < |r| ==> r[k] != '\n' && r[k] != '\r'
  {
    ReplaceSpaceSqueeze(text, "\r\n");
    ReplaceSpaceSqueeze(Replace(text, "\r\n", " "), "\n");
    ReplaceSpaceWords(text, "\r\n");
    ReplaceSpaceWords(Replace(text, "\r\n", " "), "\n");
    NormalizeSpace(Replace(Replace(text, "\r\n", " "), "\n", " "))
  }

  const MixedAngel := "Mixed 'angel of the LORD' and 'angel of the Lord' after enforcement"

  /** `validate_enforcement`: the error it raises, if it raises. */
  function ValidateEnforcement(text: string): Option<string> {
    if Contains(text, "angel of the LORD") && Contains(text, "angel of the Lord") then Some(MixedAngel) else None
  }

  /** The five rules of `apply_enforcement`, in their order. */
  function EnforceRules(text: string): string {
    EnforceReverentialPronouns(EnforceCompoundNumbers(EnforceBetweenFrom(EnforceLordCaps(CollapseInternalNewlines(text)))))
  }

  /** `apply_enforcement`: the rules, then the closing check, which may raise. */
  function ApplyEnforcement(text: string): Result<string, string> {
    var t := EnforceRules(text);
    match ValidateEnforcement(t)
    case Some(e) => Failure(e)
    case None => Success(t)
  }

  /** Every rule keeps the single-line, single-spaced, trimmed shape the first one
      establishes, so the output of the chain has no newline and no run of whitespace. */
  lemma EnforceRulesNormalized(text: string)
    ensures Normalized(EnforceRules(text))
    ensures forall k :: 0 <= k < |EnforceRules(text)| ==> EnforceRules(text)[k] != '\n'
  {
    var t0 := CollapseInternalNewlines(text);
    EnforceLordCapsProperties(t0);
    var t1 := EnforceLordCaps(t0);
    EnforceBetweenFromNormalized(t1);
    var t2 := EnforceBetweenFrom(t1);
    EnforceCompoundNumbersNormalized(t2);
    var t3 := EnforceCompoundNumbers(t2);
    EnforceReverentialPronounsNormalized(t3);
  }

  /** `apply_enforcement` raises exactly when, after the rules, both "angel of the LORD"
      and "angel of the Lord" occur; otherwise it returns the rules' output, which is
      normalised and holds no newline. */
  lemma ApplyEnforcementProperties(text: string)
    ensures ApplyEnforcement(text).Failure? <==>
      Contains(EnforceRules(text), "angel of the LORD") && Contains(EnforceRules(text), "angel of the Lord")
    ensures ApplyEnforcement(text).Failure? ==> ApplyEnforcement(text).error == MixedAngel
    ensures ApplyEnforcement(text).Success? ==>
      && ApplyEnforcement(text).value == EnforceRules(text)
      && Normalized(ApplyEnforcement(text).value)
      && forall k :: 0 <= k < |ApplyEnforcement(text).value| ==> ApplyEnforcement(text).value[k] != '\n'
  {
    EnforceRulesNormalized(text);
  }

  // ---------------------------------------------------------------------------------------
  // The per-verse loop of `main`

  /** A Phase-1 row and an output record: a reference and a translation. */
  datatype Row = Row(ref: string, translation: string)

  /** The helpers the loop calls: the drift guard, the whitespace normaliser and the
      enforcement chain.  The loop is stated for any of them; `Script` holds the ones
      the script defines. */
  datatype Hooks = Hooks(guard: (string, string) -> Verdict, normalize: string -> string,
                         enforcement: string -> Result<string, string>)

  function Script(): Hooks {
    Hooks(SimilarityGuard, NormalizeSpace, ApplyEnforcement)
  }

  /** What the loop decides for one row before enforcement. */
  datatype Decision = Decision(text: string, changed: bool, blocked: bool)

  /** A target row takes the (stripped) revision when the guard accepts it, and counts as
      changed when it differs from the original after whitespace normalisation; a rejected
      revision leaves the original and counts as blocked; other rows keep their text. */
  function Decide(row: Row, targets: set<string>, revised: string, h: Hooks): Decision {
    if row.ref !in targets then Decision(row.translation, false, false)
    else if h.guard(row.translation, revised).ok then
      Decision(revised, h.normalize(revised) != h.normalize(row.translation), false)
    else Decision(row.translation, false, true)
  }

  /** What the rewriting service answers for a row. */
  function Revised(revise: (string, string) -> string, row: Row): string {
    Strip(revise(row.ref, row.translation))
  }

  function Finish(text: string, enforce: bool, h: Hooks): Result<string, string> {
    if enforce then h.enforcement(text) else Success(text)
  }

  /** The records written so far and the two counters. */
  datatype Polished = Polished(out: seq<Row>, changed: nat, blocked: nat)

  function PolishStep(p: Polished, row: Row, targets: set<string>, revise: (string, string) -> string, enforce: bool, h: Hooks): Result<Polished, string> {
    var d := Decide(row, targets, Revised(revise, row), h);
    match Finish(d.text, enforce, h)
    case Failure(e) => Failure(e)
    case Success(t) =>
      Success(Polished(p.out + [Row(row.ref, t)], if d.changed then p.changed + 1 else p.changed,
                       if d.blocked then p.blocked + 1 else p.blocked))
  }

  /** The loop over the rows, row by row; an enforcement error stops it. */
  function RunPolish(rows: seq<Row>, targets: set<string>, revise: (string, string) -> string, enforce: bool, h: Hooks): Result<Polished, string>
    decreases |rows|
  {
    if rows == [] then Success(Polished([], 0, 0))
    else
      var prev := RunPolish(rows[..|rows| - 1], targets, revise, enforce, h);
      if prev.Failure? then prev
      else PolishStep(prev.value, rows[|rows| - 1], targets, revise, enforce, h)
  }

  lemma {:induction false} PolishFailureSticks(rows: seq<Row>, targets: set<string>, revise: (string, string) -> string, enforce: bool, h: Hooks, n: nat)
    requires n <= |rows| && RunPolish(rows[..n], targets, revise, enforce, h).Failure?
    ensures RunPolish(rows, targets, revise, enforce, h) == RunPolish(rows[..n], targets, revise, enforce, h)
    decreases |rows| - n
  {
    if n < |rows| {
      assert rows[..n + 1][..n] == rows[..n];
      PolishFailureSticks(rows, targets, revise, enforce, h, n + 1);
    } else {
      assert rows[..n] == rows;
    }
  }

  lemma RunPolishStep(rows: seq<Row>, targets: set<string>, revise: (string, string) -> string, enforce: bool, h: Hooks, i: nat)
    requires i < |rows| && RunPolish(rows[..i], targets, revise, enforce, h).Success?
    ensures RunPolish(rows[..i + 1], targets, revise, enforce, h) == PolishStep(RunPolish(rows[..i], targets, revise, enforce, h).value, rows[i], targets, revise, enforce, h)
  {
    assert rows[..i + 1][..i] == rows[..i];
  }

  /** Off the target set the decision does not look at the revision. */
  lemma DecideOffTarget(row: Row, targets: set<string>, r1: string, r2: string, h: Hooks)
    requires row.ref !in targets || r1 == r2
    ensures Decide(row, targets, r1, h) == Decide(row, targets, r2, h)
  {
  }

  /** One row through `PolishVerse`, as the loop of `main` records it: an enforcement error
      ends the pass with that error, otherwise the record and the counters are those of
      the rows so far and this one. */
  lemma PolishPassStep(rows: seq<Row>, targets: set<string>, revise: (string, string) -> string, enforce: bool, h: Hooks, i: nat,
                       p: Polished, revised: string, outText: Result<string, string>, changed: bool, blocked: bool)
    requires i < |rows| && RunPolish(rows[..i], targets, revise, enforce, h) == Success(p)
    requires revised == if rows[i].ref in targets then Revised(revise, rows[i]) else ""
    requires var d := Decide(rows[i], targets, revised, h);
      outText == Finish(d.text, enforce, h) && changed == d.changed && blocked == d.blocked
    ensures outText.Failure? ==> RunPolish(rows, targets, revise, enforce, h) == Failure(outText.error)
    ensures outText.Success? ==>
      RunPolish(rows[..i + 1], targets, revise, enforce, h)
        == Success(Polished(p.out + [Row(rows[i].ref, outText.value)], if changed then p.changed + 1 else p.changed,
                            if blocked then p.blocked + 1 else p.blocked))
  {
    RunPolishStep(rows, targets, revise, enforce, h, i);
    var d := Decide(rows[i], targets, Revised(revise, rows[i]), h);
    DecideOffTarget(rows[i], targets, revised, Revised(revise, rows[i]), h);
    assert outText == Finish(d.text, enforce, h);
    if outText.Failure? {
      assert PolishStep(p, rows[i], targets, revise, enforce, h) == Failure(outText.error);
      PolishFailureSticks(rows, targets, revise, enforce, h, i + 1);
    } else {
      assert PolishStep(p, rows[i], targets, revise, enforce, h)
        == Success(Polished(p.out + [Row(rows[i].ref, outText.value)], if d.changed then p.changed + 1 else p.changed,
                            if d.blocked then p.blocked + 1 else p.blocked));
    }
  }

  /** The body of the loop of `main` for one row, given the text the rewriting service
      returned for it: the record's text, or the error enforcement raised, and whether the
      row counts as changed or as blocked. */
  method PolishVerse(row: Row, targets: set<string>, revised: string, enforce: bool, h: Hooks)
    returns (outText: Result<string, string>, changed: bool, blocked: bool)
    ensures var d := Decide(row, targets, revised, h);
      outText == Finish(d.text, enforce, h) && changed == d.changed && blocked == d.blocked
  {
    var text := row.translation;
    changed, blocked := false, false;
    if row.ref in targets {
      var verdict := h.guard(row.translation, revised);
      if verdict.ok {
        text := revised;
        if h.normalize(text) != h.normalize(row.translation) {
          changed := true;
        }
      } else {
        blocked := true;
        text := row.translation;
      }
    }
    if enforce {
      outText := h.enforcement(text);
    } else {
      outText := Success(text);
    }
  }

  /** One pass of the loop of `main`: the text the rewriting service returns for a target
      row, that row through `PolishVerse`, and the record and counters it adds; an
      enforcement error ends the whole pass with that error. */
  method PolishRow(rows: seq<Row>, targets: set<string>, revise: (string, string) -> string, enforce: bool, h: Hooks,
                   i: nat, p: Polished)
    returns (r: Result<Polished, string>)
    requires i < |rows| && RunPolish(rows[..i], targets, revise, enforce, h) == Success(p)
    ensures r.Failure? ==> RunPolish(rows, targets, revise, enforce, h) == r
    ensures r.Success? ==> RunPolish(rows[..i + 1], targets, revise, enforce, h) == r
  {
    var revised := if rows[i].ref in targets then Revised(revise, rows[i]) else "";
    var outText, isChanged, isBlocked := PolishVerse(rows[i], targets, revised, enforce, h);
    PolishPassStep(rows, targets, revise, enforce, h, i, p, revised, outText, isChanged, isBlocked);
    if outText.Failure? {
      return Failure(outText.error);
    }
    var changed := if isChanged then p.changed + 1 else p.changed;
    var blocked := if isBlocked then p.blocked + 1 else p.blocked;
    r := Success(Polished(p.out + [Row(rows[i].ref, outText.value)], changed, blocked));
  }

  /** The loop of `main` over the Phase-1 rows. */
  method PolishPass(rows: seq<Row>, targets: set<string>, revise: (string, string) -> string, enforce: bool, h: Hooks)
    returns (r: Result<Polished, string>)
    ensures r == RunPolish(rows, targets, revise, enforce, h)
  {
    var p := Polished([], 0, 0);
    for i := 0 to |rows|
      invariant RunPolish(rows[..i], targets, revise, enforce, h) == Success(p)
    {
      var step := PolishRow(rows, targets, revise, enforce, h, i, p);
      if step.Failure? {
        return step;
      }
      p := step.value;
    }
    assert rows[..|rows|] == rows;
    return Success(p);
  }

  /** How many rows are targets, how many of them the guard blocked, and how many changed. */
  function Targeted(rows: seq<Row>, targets: set<string>): nat {
    if rows == [] then 0 else Targeted(rows[..|rows| - 1], targets) + (if rows[|rows| - 1].ref in targets then 1 else 0)
  }

  function CountBlocked(rows: seq<Row>, targets: set<string>, revise: (string, string) -> string, h: Hooks): nat {
    if rows == [] then 0
    else
      var row := rows[|rows| - 1];
      CountBlocked(rows[..|rows| - 1], targets, revise, h) + (if Decide(row, targets, Revised(revise, row), h).blocked then 1 else 0)
  }

  function CountChanged(rows: seq<Row>, targets: set<string>, revise: (string, string) -> string, h: Hooks): nat {
    if rows == [] then 0
    else
      var row := rows[|rows| - 1];
      CountChanged(rows[..|rows| - 1], targets, revise, h) + (if Decide(row, targets, Revised(revise, row), h).changed then 1 else 0)
  }

  /** Only target rows are ever blocked or changed, and never both. */
  lemma {:induction false} CountsBounded(rows: seq<Row>, targets: set<string>, revise: (string, string) -> string, h: Hooks)
    ensures CountChanged(rows, targets, revise, h) + CountBlocked(rows, targets, revise, h) <= Targeted(rows, targets)
    decreases |rows|
  {
    if rows != [] {
      CountsBounded(rows[..|rows| - 1], targets, revise, h);
    }
  }

  /** One record per row, under the row's reference, holding the decided text after the
      optional enforcement chain; the counters count the blocked and changed decisions. */
  lemma {:induction false} PolishRecords(rows: seq<Row>, targets: set<string>, revise: (string, string) -> string, enforce: bool, h: Hooks)
    requires RunPolish(rows, targets, revise, enforce, h).Success?
    ensures var p := RunPolish(rows, targets, revise, enforce, h).value;
      && |p.out| == |rows|
      && p.blocked == CountBlocked(rows, targets, revise, h)
      && p.changed == CountChanged(rows, targets, revise, h)
      && forall i :: 0 <= i < |rows| ==>
        && p.out[i].ref == rows[i].ref
        && Finish(Decide(rows[i], targets, Revised(revise, rows[i]), h).text, enforce, h) == Success(p.out[i].translation)
    decreases |rows|
  {
    if rows != [] {
      var n := |rows| - 1;
      PolishRecords(rows[..n], targets, revise, enforce, h);
      var p := RunPolish(rows, targets, revise, enforce, h).value;
      forall i | 0 <= i < n
        ensures p.out[i].ref == rows[i].ref
        ensures Finish(Decide(rows[i], targets, Revised(revise, rows[i]), h).text, enforce, h) == Success(p.out[i].translation)
      {
        assert rows[..n][i] == rows[i];
      }
    }
  }

  /** When the pass completes it writes one record per row, in order and under the row's
      reference: a non-target row keeps its text, a blocked row keeps the original, and an
      accepted revision replaces it; with enforcement on, that text is put through the rule
      chain and every record is normalised.  `blocked` counts the rejected target rows,
      `changed` the accepted ones that differ after normalisation, and together they never
      exceed the number of target rows. */
  lemma PolishOutputs(rows: seq<Row>, targets: set<string>, revise: (string, string) -> string, enforce: bool)
    requires RunPolish(rows, targets, revise, enforce, Script()).Success?
    ensures var p := RunPolish(rows, targets, revise, enforce, Script()).value;
      && |p.out| == |rows|
      && p.changed + p.blocked <= Targeted(rows, targets)
      && forall i :: 0 <= i < |rows| ==>
        && p.out[i].ref == rows[i].ref
        && (var kept := if rows[i].ref in targets && SimilarityGuard(rows[i].translation, Revised(revise, rows[i])).ok
                        then Revised(revise, rows[i]) else rows[i].translation;
            p.out[i].translation == if enforce then EnforceRules(kept) else kept)
        && (enforce ==> Normalized(p.out[i].translation))
  {
    PolishRecords(rows, targets, revise, enforce, Script());
    CountsBounded(rows, targets, revise, Script());
    var p := RunPolish(rows, targets, revise, enforce, Script()).value;
    forall i | 0 <= i < |rows|
      ensures var kept := if rows[i].ref in targets && SimilarityGuard(rows[i].translation, Revised(revise, rows[i])).ok
                          then Revised(revise, rows[i]) else rows[i].translation;
        p.out[i].translation == if enforce then EnforceRules(kept) else kept
      ensures enforce ==> Normalized(p.out[i].translation)
    {
      ApplyEnforcementProperties(Decide(rows[i], targets, Revised(revise, rows[i]), Script()).text);
    }
  }

  /** The script's pass: the row loop with `similarity_guard`, `normalize_space` and
      `apply_enforcement` as its helpers. */
  method PolishMain(rows: seq<Row>, targets: set<string>, revise: (string, string) -> string, enforce: bool)
    returns (r: Result<Polished, string>)
    ensures r == RunPolish(rows, targets, revise, enforce, Script())
  {
    r := PolishPass(rows, targets, revise, enforce, Script());
  }
}
