/** The checks scripts/translate.py runs on every drafted verse before writing it: no
    archaic form may occur anywhere in the lower-cased draft, and a few references must
    contain a fixed phrase; the first draft that fails either check stops the run. */
module Translate {
  import opened Wrappers
  import opened Chars
  import opened Jsonl

  const ForbiddenArchaic: seq<string> := ["thee", "thou", "thy", "thine", "ye", "hath", "doth", "saith"]

  const LexicalLocks: map<string, string> := map[
    "GEN 1:2" := "without form",
    "GEN 1:1" := "In the beginning",
    "GEN 1:3" := "Let there be light",
    "PHI 3:8" := "excrement",
    "REV 3:16" := "spew",
    "GEN 3:15" := "Seed"
  ]

  /** The first of `words`, in list order, that is a substring of `s`. */
  function FirstContained(words: seq<string>, s: string): (r: Option<string>)
    ensures r.None? <==> forall j :: 0 <= j < |words| ==> !Contains(s, words[j])
    ensures r.Some? ==>
      exists j :: 0 <= j < |words| && words[j] == r.value && Contains(s, r.value) && forall k :: 0 <= k < j ==> !Contains(s, words[k])
  {
    if words == [] then None
    else if Contains(s, words[0]) then Some(words[0])
    else
      var r := FirstContained(words[1..], s);
      assert forall j :: 1 <= j < |words| ==> words[j] == words[1..][j - 1];
      r
  }

  /** `contains_forbidden_archaic`: plain substring search in the lower-cased text, so a
      form inside a longer word counts too. */
  function ContainsForbiddenArchaic(text: string): Option<string> {
    FirstContained(ForbiddenArchaic, Lower(text))
  }

  /** No form found means none of them occurs in the lower-cased text; a form found is the
      first in list order that occurs. */
  lemma ContainsForbiddenArchaicProperties(text: string)
    ensures ContainsForbiddenArchaic(text).None? <==> forall w :: w in ForbiddenArchaic ==> !Contains(Lower(text), w)
    ensures ContainsForbiddenArchaic(text).Some? ==>
      exists j :: 0 <= j < |ForbiddenArchaic| && ForbiddenArchaic[j] == ContainsForbiddenArchaic(text).value
        && Contains(Lower(text), ForbiddenArchaic[j])
        && forall k :: 0 <= k < j ==> !Contains(Lower(text), ForbiddenArchaic[k])
  {
  }

  /** The search ignores word boundaries: "eye" holds "ye". */
  lemma EyeHoldsYe()
    ensures ContainsForbiddenArchaic("eye") == Some("ye")
  {
    var s := Lower("eye");
    assert s == "eye";
    assert OccursAt("ye", s, 1);
    assert ForbiddenArchaic[4] == "ye";
    forall k | 0 <= k < 4
      ensures !Contains(s, ForbiddenArchaic[k])
    {
    }
  }

  /** `check_lexical_locks`: the phrase a locked reference must contain, when the text
      lacks it (case-sensitive). */
  function CheckLexicalLocks(ref: string, text: string): (r: Option<string>)
    ensures r.Some? <==> ref in LexicalLocks && !Contains(text, LexicalLocks[ref])
    ensures r.Some? ==> r.value == LexicalLocks[ref]
  {
    if ref in LexicalLocks && !Contains(text, LexicalLocks[ref]) then Some(LexicalLocks[ref]) else None
  }

  /** A written record. */
  datatype Drafted = Drafted(ref: string, translation: string)

  /** Why the run stops: a bad input line (including a blank one, which is not JSON, or one
      without "ref" or "source"), a forbidden form, or a missing locked phrase. */
  datatype TranslateError = BadInput(error: InputError) | ForbiddenTerm(word: string, ref: string) | MissingLock(phrase: string, ref: string)

  /** The gate of `main` for one draft. */
  function Vet(ref: string, text: string): (r: Result<Drafted, TranslateError>)
  {
    var bad := ContainsForbiddenArchaic(text);
    if bad.Some? then Failure(ForbiddenTerm(bad.value, ref))
    else
      var lock := CheckLexicalLocks(ref, text);
      if lock.Some? then Failure(MissingLock(lock.value, ref))
      else Success(Drafted(ref, text))
  }

  /** A draft is written exactly when no forbidden form occurs in it, in any case, and it
      holds its reference's locked phrase, if any; it is written as it is. A rejected draft
      reports the forbidden form when there is one, and otherwise the missing phrase. */
  lemma VetProperties(ref: string, text: string)
    ensures Vet(ref, text).Success? <==>
      && (forall w :: w in ForbiddenArchaic ==> !Contains(Lower(text), w))
      && (ref in LexicalLocks ==> Contains(text, LexicalLocks[ref]))
    ensures Vet(ref, text).Success? ==> Vet(ref, text).value == Drafted(ref, text)
    ensures Vet(ref, text).Failure? && ContainsForbiddenArchaic(text).None? ==>
      Vet(ref, text).error == MissingLock(LexicalLocks[ref], ref)
  {
    ContainsForbiddenArchaicProperties(text);
  }

  /** What the drafting service answers for a reference and its source text, stripped. */
  function DraftText(draft: (string, string) -> string, ref: string, source: string): string {
    Strip(draft(ref, source))
  }

  /** The record for line `n` (1-based), or why the run stops there. */
  function TranslateLine(line: Line, n: nat, draft: (string, string) -> string): Result<Drafted, TranslateError> {
    match line
    case Blank => Failure(BadInput(BadJson(n)))
    case Malformed => Failure(BadInput(BadJson(n)))
    case Record(obj) =>
      if "ref" !in obj then Failure(BadInput(MissingField(n, "ref")))
      else if "source" !in obj then Failure(BadInput(MissingField(n, "source")))
      else Vet(obj["ref"], DraftText(draft, obj["ref"], obj["source"]))
  }

  /** The loop of `main`, line by line. */
  function RunTranslate(lines: seq<Line>, draft: (string, string) -> string): Result<seq<Drafted>, TranslateError>
    decreases |lines|
  {
    if lines == [] then Success([])
    else
      var n := |lines|;
      var prev := RunTranslate(lines[..n - 1], draft);
      if prev.Failure? then prev
      else
        match TranslateLine(lines[n - 1], n, draft)
        case Failure(e) => Failure(e)
        case Success(d) => Success(prev.value + [d])
  }

  lemma {:induction false} TranslateFailureSticks(lines: seq<Line>, draft: (string, string) -> string, n: nat)
    requires n <= |lines| && RunTranslate(lines[..n], draft).Failure?
    ensures RunTranslate(lines, draft) == RunTranslate(lines[..n], draft)
    decreases |lines| - n
  {
    if n < |lines| {
      assert lines[..n + 1][..n] == lines[..n];
      TranslateFailureSticks(lines, draft, n + 1);
    } else {
      assert lines[..n] == lines;
    }
  }

  /** The loop of `main`, with the drafting service as a parameter. */
  method TranslateMain(lines: seq<Line>, draft: (string, string) -> string) returns (r: Result<seq<Drafted>, TranslateError>)
    ensures r == RunTranslate(lines, draft)
  {
    var out: seq<Drafted> := [];
    for i := 0 to |lines|
      invariant RunTranslate(lines[..i], draft) == Success(out)
    {
      assert lines[..i + 1][..i] == lines[..i];
      var line := lines[i];
      if !line.Record? {
        TranslateFailureSticks(lines, draft, i + 1);
        return Failure(BadInput(BadJson(i + 1)));
      }
      var verse := line.obj;
      if "ref" !in verse {
        TranslateFailureSticks(lines, draft, i + 1);
        return Failure(BadInput(MissingField(i + 1, "ref")));
      }
      if "source" !in verse {
        TranslateFailureSticks(lines, draft, i + 1);
        return Failure(BadInput(MissingField(i + 1, "source")));
      }
      var text := Strip(draft(verse["ref"], verse["source"]));
      var bad := ContainsForbiddenArchaic(text);
      if bad.Some? {
        TranslateFailureSticks(lines, draft, i + 1);
        return Failure(ForbiddenTerm(bad.value, verse["ref"]));
      }
      var lock := CheckLexicalLocks(verse["ref"], text);
      if lock.Some? {
        TranslateFailureSticks(lines, draft, i + 1);
        return Failure(MissingLock(lock.value, verse["ref"]));
      }
      out := out + [Drafted(verse["ref"], text)];
    }
    assert lines[..|lines|] == lines;
    return Success(out);
  }

  /** A line that is written is a verse object with a reference and a source, and its
      record is the stripped draft, which passed both checks. */
  lemma TranslateLineWritten(line: Line, n: nat, draft: (string, string) -> string)
    requires TranslateLine(line, n, draft).Success?
    ensures line.Record? && "ref" in line.obj && "source" in line.obj
    ensures var d := TranslateLine(line, n, draft).value;
      && d == Drafted(line.obj["ref"], DraftText(draft, line.obj["ref"], line.obj["source"]))
      && Vet(d.ref, d.translation).Success?
  {
    var obj := line.obj;
    VetProperties(obj["ref"], DraftText(draft, obj["ref"], obj["source"]));
  }

  /** A run that completes had a verse object with a reference and a source on every line,
      and wrote one record per line, in order, under the line's reference, holding the
      stripped draft, which passed both checks. */
  lemma {:induction false} TranslateOutputs(lines: seq<Line>, draft: (string, string) -> string)
    requires RunTranslate(lines, draft).Success?
    ensures var out := RunTranslate(lines, draft).value;
      && |out| == |lines|
      && forall j :: 0 <= j < |lines| ==> Written(lines[j], out[j], draft)
    decreases |lines|
  {
    if lines != [] {
      var n := |lines|;
      var pre := lines[..n - 1];
      TranslateOutputs(pre, draft);
      TranslateLineWritten(lines[n - 1], n, draft);
      WrittenSnoc(lines, RunTranslate(pre, draft).value, TranslateLine(lines[n - 1], n, draft).value, draft);
    }
  }

  /** The record `d` is what a completed run writes for `line`: the line is a verse object
      with a reference and a source, and `d` holds the stripped draft under that reference,
      which passed both checks. */
  ghost predicate Written(line: Line, d: Drafted, draft: (string, string) -> string) {
    && line.Record? && "ref" in line.obj && "source" in line.obj
    && d == Drafted(line.obj["ref"], DraftText(draft, line.obj["ref"], line.obj["source"]))
    && Vet(d.ref, d.translation).Success?
  }

  /** One more written line extends the records line for line. */
  lemma WrittenSnoc(lines: seq<Line>, out: seq<Drafted>, d: Drafted, draft: (string, string) -> string)
    requires lines != [] && |out| == |lines| - 1
    requires forall j :: 0 <= j < |out| ==> Written(lines[..|lines| - 1][j], out[j], draft)
    requires Written(lines[|lines| - 1], d, draft)
    ensures forall j :: 0 <= j < |lines| ==> Written(lines[j], (out + [d])[j], draft)
  {
    forall j | 0 <= j < |lines|
      ensures Written(lines[j], (out + [d])[j], draft)
    {
      if j < |out| {
        assert lines[..|lines| - 1][j] == lines[j];
      }
    }
  }

  /** Every record a completed run writes has no forbidden form in any case and holds its
      reference's locked phrase. */
  lemma TranslateRecordsClean(lines: seq<Line>, draft: (string, string) -> string)
    requires RunTranslate(lines, draft).Success?
    ensures var out := RunTranslate(lines, draft).value;
      forall j :: 0 <= j < |out| ==>
        && (forall w :: w in ForbiddenArchaic ==> !Contains(Lower(out[j].translation), w))
        && (out[j].ref in LexicalLocks ==> Contains(out[j].translation, LexicalLocks[out[j].ref]))
  {
    TranslateOutputs(lines, draft);
    var out := RunTranslate(lines, draft).value;
    forall j | 0 <= j < |out|
      ensures forall w :: w in ForbiddenArchaic ==> !Contains(Lower(out[j].translation), w)
      ensures out[j].ref in LexicalLocks ==> Contains(out[j].translation, LexicalLocks[out[j].ref])
    {
      VetProperties(out[j].ref, out[j].translation);
    }
  }
}
