/** The KJV-gated pronoun pass of scripts/kjv_pronouns.py: the KJV text of each verse is
    classified by which forms of he/him/his/himself it uses, and the verse of the book is
    capitalized, lower-cased or left alone accordingly. */
module KjvPronouns {
  import opened Wrappers
  import opened Chars
  import opened Scan
  import opened Words
  import opened Jsonl

  const LowPronouns: seq<string> := ["he", "him", "his", "himself"]
  const CapPronouns: seq<string> := ["He", "Him", "His", "Himself"]
  const LowToCap: map<string, string> := map["he" := "He", "him" := "Him", "his" := "His", "himself" := "Himself"]
  const CapToLow: map<string, string> := map["He" := "he", "Him" := "him", "His" := "his", "Himself" := "himself"]

  /** `HUM_LOW_RE`, `\b(he|him|his|himself)\b` */
  function HumLow(): Matcher { AltWords(LowPronouns) }

  /** `DIV_CAP_RE`, `\b(He|Him|His|Himself)\b` */
  function DivCap(): Matcher { AltWords(CapPronouns) }

  lemma PronounTables()
    ensures AllWords(LowPronouns) && AllWords(CapPronouns)
    ensures FirstLettersFlip(LowPronouns, true) && FirstLettersFlip(CapPronouns, false)
    ensures RecaseTable(LowPronouns, LowToCap, true) && RecaseTable(CapPronouns, CapToLow, false)
  {
    LowTable();
    CapTable();
  }

  lemma LowTable()
    ensures AllWords(LowPronouns) && FirstLettersFlip(LowPronouns, true)
    ensures RecaseTable(LowPronouns, LowToCap, true)
  {
    LowWords();
    LowRecase();
  }

  lemma LowWords()
    ensures AllWords(LowPronouns) && FirstLettersFlip(LowPronouns, true)
  {
    assert LowPronouns == ["he", "him", "his", "himself"];
  }

  lemma LowRecase()
    ensures RecaseTable(LowPronouns, LowToCap, true)
  {
    assert LowPronouns == ["he", "him", "his", "himself"];
    assert LowToCap["he"] == "He" && LowToCap["him"] == "Him";
    assert LowToCap["his"] == "His" && LowToCap["himself"] == "Himself";
  }

  lemma CapTable()
    ensures AllWords(CapPronouns) && FirstLettersFlip(CapPronouns, false)
    ensures RecaseTable(CapPronouns, CapToLow, false)
  {
    CapWords();
    CapRecase();
  }

  lemma CapWords()
    ensures AllWords(CapPronouns) && FirstLettersFlip(CapPronouns, false)
  {
    assert CapPronouns == ["He", "Him", "His", "Himself"];
  }

  lemma CapRecase()
    ensures RecaseTable(CapPronouns, CapToLow, false)
  {
    assert CapPronouns == ["He", "Him", "His", "Himself"];
    assert CapToLow["He"] == "he" && CapToLow["Him"] == "him";
    assert CapToLow["His"] == "his" && CapToLow["Himself"] == "himself";
  }

  /** What one line of a key/value file contributes to the map, or why it stops the load. */
  function MapEntry(line: Line, lineNo: nat, keyField: string, valField: string): Result<Option<(string, string)>, InputError> {
    match line
    case Blank => Success(None)
    case Malformed => Failure(BadJson(lineNo))
    case Record(obj) =>
      var key := Strip(Field(obj, keyField));
      if key == "" then Failure(MissingField(lineNo, keyField))
      else if valField !in obj then Failure(MissingField(lineNo, valField))
      else Success(Some((key, obj[valField])))
  }

  /** The entry of line `j` (0-based), if it has one. */
  function EntryAt(lines: seq<Line>, j: nat, keyField: string, valField: string): Option<(string, string)>
    requires j < |lines|
  {
    var e := MapEntry(lines[j], j + 1, keyField, valField);
    if e.Success? then e.value else None
  }

  /** `load_jsonl_map`, line by line. */
  function LoadMap(lines: seq<Line>, keyField: string, valField: string): Result<map<string, string>, InputError>
    decreases |lines|
  {
    if lines == [] then Success(map[])
    else
      var n := |lines|;
      var prev := LoadMap(lines[..n - 1], keyField, valField);
      if prev.Failure? then prev
      else
        match MapEntry(lines[n - 1], n, keyField, valField)
        case Failure(e) => Failure(e)
        case Success(None) => prev
        case Success(Some(kv)) => Success(prev.value[kv.0 := kv.1])
  }

  lemma {:induction false} LoadFailureSticks(lines: seq<Line>, keyField: string, valField: string, n: nat)
    requires n <= |lines| && LoadMap(lines[..n], keyField, valField).Failure?
    ensures LoadMap(lines, keyField, valField) == LoadMap(lines[..n], keyField, valField)
    decreases |lines| - n
  {
    if n < |lines| {
      assert lines[..n + 1][..n] == lines[..n];
      LoadFailureSticks(lines, keyField, valField, n + 1);
    } else {
      assert lines[..n] == lines;
    }
  }

  /** `load_jsonl_map` */
  method LoadJsonlMap(lines: seq<Line>, keyField: string, valField: string) returns (r: Result<map<string, string>, InputError>)
    ensures r == LoadMap(lines, keyField, valField)
  {
    var m: map<string, string> := map[];
    for i := 0 to |lines|
      invariant LoadMap(lines[..i], keyField, valField) == Success(m)
    {
      assert lines[..i + 1][..i] == lines[..i];
      var line := lines[i];
      if line.Blank? {
        continue;
      }
      if line.Malformed? {
        LoadFailureSticks(lines, keyField, valField, i + 1);
        return Failure(BadJson(i + 1));
      }
      var key := Strip(Field(line.obj, keyField));
      if key == "" {
        LoadFailureSticks(lines, keyField, valField, i + 1);
        return Failure(MissingField(i + 1, keyField));
      }
      if valField !in line.obj {
        LoadFailureSticks(lines, keyField, valField, i + 1);
        return Failure(MissingField(i + 1, valField));
      }
      m := m[key := line.obj[valField]];
    }
    assert lines[..|lines|] == lines;
    return Success(m);
  }

  /** The entries of all lines, in order. */
  function Entries(lines: seq<Line>, keyField: string, valField: string): (es: seq<Option<(string, string)>>)
    ensures |es| == |lines| && forall j :: 0 <= j < |lines| ==> es[j] == EntryAt(lines, j, keyField, valField)
  {
    seq(|lines|, j requires 0 <= j < |lines| => EntryAt(lines, j, keyField, valField))
  }

  /** A completed load is the map built by inserting the entries in order. */
  lemma {:induction false} LoadMapInserts(lines: seq<Line>, keyField: string, valField: string)
    requires LoadMap(lines, keyField, valField).Success?
    ensures LoadMap(lines, keyField, valField).value == InsertAll(Entries(lines, keyField, valField))
    decreases |lines|
  {
    if lines != [] {
      var n := |lines|;
      var pre := lines[..n - 1];
      LoadMapInserts(pre, keyField, valField);
      var es := Entries(lines, keyField, valField);
      assert es[..n - 1] == Entries(pre, keyField, valField);
    }
  }

  /** A completed load maps exactly the keys that occur, each to the value of the last line
      that has it. */
  lemma LoadMapLastWins(lines: seq<Line>, keyField: string, valField: string)
    requires LoadMap(lines, keyField, valField).Success?
    ensures var es := Entries(lines, keyField, valField);
      && (forall k :: k in LoadMap(lines, keyField, valField).value <==> exists j :: 0 <= j < |es| && KeyAt(es, j, k))
      && (forall j, k :: 0 <= j < |es| && LastKeyAt(es, j, k) ==> LoadMap(lines, keyField, valField).value[k] == es[j].value.1)
  {
    LoadMapInserts(lines, keyField, valField);
    InsertAllLastWins(Entries(lines, keyField, valField));
  }

  /** The load stops exactly when some line is malformed or lacks the key or the value, and
      it reports the first such line. */
  lemma {:induction false} LoadMapFailure(lines: seq<Line>, keyField: string, valField: string)
    ensures LoadMap(lines, keyField, valField).Failure? <==> exists j :: 0 <= j < |lines| && MapEntry(lines[j], j + 1, keyField, valField).Failure?
    ensures LoadMap(lines, keyField, valField).Failure? ==>
      exists j :: (0 <= j < |lines| &&
        MapEntry(lines[j], j + 1, keyField, valField) == Failure(LoadMap(lines, keyField, valField).error) &&
        forall j' :: 0 <= j' < j ==> MapEntry(lines[j'], j' + 1, keyField, valField).Success?)
    decreases |lines|
  {
    if lines != [] {
      var n := |lines|;
      var pre := lines[..n - 1];
      LoadMapFailure(pre, keyField, valField);
      assert forall j :: 0 <= j < n - 1 ==> lines[j] == pre[j];
    }
  }

  datatype Usage = Mixed | DivineOnly | HumanOnly | NoPronouns

  /** `classify_kjv` */
  function Classify(kjv: string): Usage {
    var hasDiv := Occurs(DivCap(), kjv);
    var hasHum := Occurs(HumLow(), kjv);
    if hasDiv && hasHum then Mixed
    else if hasDiv then DivineOnly
    else if hasHum then HumanOnly
    else NoPronouns
  }

  /** The class says which of the two forms occur as whole words. */
  lemma ClassifyMeaning(kjv: string)
    ensures Classify(kjv) == Mixed <==> HasWord(CapPronouns, kjv) && HasWord(LowPronouns, kjv)
    ensures Classify(kjv) == DivineOnly <==> HasWord(CapPronouns, kjv) && !HasWord(LowPronouns, kjv)
    ensures Classify(kjv) == HumanOnly <==> !HasWord(CapPronouns, kjv) && HasWord(LowPronouns, kjv)
    ensures Classify(kjv) == NoPronouns <==> !HasWord(CapPronouns, kjv) && !HasWord(LowPronouns, kjv)
  {
    LowWords();
    CapWords();
    OccursIffHasWord(CapPronouns, kjv);
    OccursIffHasWord(LowPronouns, kjv);
  }

  /** `cap_all` */
  function CapAll(text: string): string {
    Sub(HumLow(), Lookup(LowToCap), text)
  }

  /** `decap_all` */
  function DecapAll(text: string): string {
    Sub(DivCap(), Lookup(CapToLow), text)
  }

  /** `cap_all` gives every whole-word lower-case pronoun a capital first letter, and no
      other character changes. */
  lemma CapAllIsRecase(text: string)
    ensures CapAll(text) == RecaseHits(HumLow(), text, true)
  {
    LowTable();
    LookupRecases(LowPronouns, LowToCap, text, true);
    SubIsRecase(LowPronouns, Lookup(LowToCap), text, true);
  }

  /** `decap_all` gives every whole-word capitalized pronoun a lower-case first letter, and
      no other character changes. */
  lemma DecapAllIsRecase(text: string)
    ensures DecapAll(text) == RecaseHits(DivCap(), text, false)
  {
    CapTable();
    LookupRecases(CapPronouns, CapToLow, text, false);
    SubIsRecase(CapPronouns, Lookup(CapToLow), text, false);
  }

  /** `cap_all` only changes letter case and leaves no lower-case pronoun behind. */
  lemma CapAllProperties(text: string)
    ensures |CapAll(text)| == |text| && Lower(CapAll(text)) == Lower(text)
    ensures !HasWord(LowPronouns, CapAll(text))
  {
    LowWords();
    CapAllIsRecase(text);
    RecaseKeepsLower(HumLow(), text, true);
    RecaseClearsHits(LowPronouns, text, true);
    OccursIff(HumLow(), CapAll(text));
    OccursIffHasWord(LowPronouns, CapAll(text));
  }

  lemma DecapAllProperties(text: string)
    ensures |DecapAll(text)| == |text| && Lower(DecapAll(text)) == Lower(text)
    ensures !HasWord(CapPronouns, DecapAll(text))
  {
    CapWords();
    DecapAllIsRecase(text);
    RecaseKeepsLower(DivCap(), text, false);
    RecaseClearsHits(CapPronouns, text, false);
    OccursIff(DivCap(), DecapAll(text));
    OccursIffHasWord(CapPronouns, DecapAll(text));
  }

  /** Running `cap_all` on its own output changes nothing. */
  lemma CapAllIdempotent(text: string)
    ensures CapAll(CapAll(text)) == CapAll(text)
  {
    LowWords();
    CapAllIsRecase(text);
    var t := CapAll(text);
    RecaseClearsHits(LowPronouns, text, true);
    SubIdentity(HumLow(), Lookup(LowToCap), t, 0);
  }

  lemma DecapAllIdempotent(text: string)
    ensures DecapAll(DecapAll(text)) == DecapAll(text)
  {
    CapWords();
    DecapAllIsRecase(text);
    var t := DecapAll(text);
    RecaseClearsHits(CapPronouns, text, false);
    SubIdentity(DivCap(), Lookup(CapToLow), t, 0);
  }

  /** `cap_all` turns each lower-case pronoun into the capitalized one at the same index. */
  lemma CapAllIntroducesCap(text: string)
    requires HasWord(LowPronouns, text)
    ensures HasWord(CapPronouns, CapAll(text))
  {
    LowWords();
    CapAllIsRecase(text);
    var k: nat, w :| k < |text| && w in LowPronouns && WordAt(w, text, k);
    RecasedWordAt(LowPronouns, text, true, w, k);
    LowPair(w);
    var rw := [Recase(w[0], true)] + w[1..];
    assert k < |CapAll(text)| && rw in CapPronouns && WordAt(rw, CapAll(text), k);
  }

  /** Each lower-case pronoun re-cased is the capitalized pronoun. */
  lemma LowPair(w: string)
    requires w in LowPronouns
    ensures w != [] && [Recase(w[0], true)] + w[1..] in CapPronouns
  {
    LowRecase();
    var j :| 0 <= j < |LowPronouns| && LowPronouns[j] == w;
    assert LowToCap[LowPronouns[j]] == [Recase(w[0], true)] + w[1..];
    assert LowToCap[LowPronouns[j]] == CapPronouns[j];
  }

  lemma DecapAllIntroducesLow(text: string)
    requires HasWord(CapPronouns, text)
    ensures HasWord(LowPronouns, DecapAll(text))
  {
    CapWords();
    DecapAllIsRecase(text);
    var k: nat, w :| k < |text| && w in CapPronouns && WordAt(w, text, k);
    RecasedWordAt(CapPronouns, text, false, w, k);
    CapPair(w);
    var rw := [Recase(w[0], false)] + w[1..];
    assert k < |DecapAll(text)| && rw in LowPronouns && WordAt(rw, DecapAll(text), k);
  }

  /** Each capitalized pronoun re-cased is the lower-case pronoun. */
  lemma CapPair(w: string)
    requires w in CapPronouns
    ensures w != [] && [Recase(w[0], false)] + w[1..] in LowPronouns
  {
    CapRecase();
    var j :| 0 <= j < |CapPronouns| && CapPronouns[j] == w;
    assert CapToLow[CapPronouns[j]] == [Recase(w[0], false)] + w[1..];
    assert CapToLow[CapPronouns[j]] == LowPronouns[j];
  }

  /** A verse whose pronouns were lower-case reads as divine-only after `cap_all`,
      and one whose pronouns were capitalized reads as human-only after `decap_all`. */
  lemma CapAllReclassifies(text: string)
    ensures Classify(CapAll(text)) in {DivineOnly, NoPronouns}
    ensures HasWord(LowPronouns, text) ==> Classify(CapAll(text)) == DivineOnly
  {
    CapAllProperties(text);
    ClassifyMeaning(CapAll(text));
    if HasWord(LowPronouns, text) {
      CapAllIntroducesCap(text);
    }
  }

  lemma DecapAllReclassifies(text: string)
    ensures Classify(DecapAll(text)) in {HumanOnly, NoPronouns}
    ensures HasWord(CapPronouns, text) ==> Classify(DecapAll(text)) == HumanOnly
  {
    DecapAllProperties(text);
    ClassifyMeaning(DecapAll(text));
    if HasWord(CapPronouns, text) {
      DecapAllIntroducesLow(text);
    }
  }

  /** The KJV text for a reference, `None` when it is missing or empty (`if not kjv_text`). */
  function KjvText(kjv: map<string, string>, ref: string): (r: Option<string>)
    ensures r.Some? <==> ref in kjv && kjv[ref] != ""
    ensures r.Some? ==> r.value == kjv[ref]
  {
    if ref in kjv && kjv[ref] != "" then Some(kjv[ref]) else None
  }

  /** The new translation of one verse. */
  function Rewrite(text: string, kjv: Option<string>): string {
    if kjv.None? then text
    else
      match Classify(kjv.value)
      case DivineOnly => CapAll(text)
      case HumanOnly => DecapAll(text)
      case _ => text
  }

  /** The rewrite only changes letter case; it brings the verse in line with the KJV when
      the KJV is unambiguous, and leaves it alone otherwise. */
  lemma RewriteProperties(text: string, kjv: Option<string>)
    ensures |Rewrite(text, kjv)| == |text| && Lower(Rewrite(text, kjv)) == Lower(text)
    ensures kjv.None? || Classify(kjv.value) in {Mixed, NoPronouns} ==> Rewrite(text, kjv) == text
    ensures kjv.Some? && Classify(kjv.value) == DivineOnly ==> !HasWord(LowPronouns, Rewrite(text, kjv))
    ensures kjv.Some? && Classify(kjv.value) == HumanOnly ==> !HasWord(CapPronouns, Rewrite(text, kjv))
  {
    CapAllProperties(text);
    DecapAllProperties(text);
  }

  /** Rerunning the rewrite with the same KJV changes nothing. */
  lemma RewriteIdempotent(text: string, kjv: Option<string>)
    ensures Rewrite(Rewrite(text, kjv), kjv) == Rewrite(text, kjv)
  {
    CapAllIdempotent(text);
    DecapAllIdempotent(text);
  }

  datatype Verse = Verse(ref: string, translation: string)
  datatype ReviewItem = ReviewItem(ref: string, reason: string)

  const MixedReason: string := "mixed_pronouns_in_kjv"

  datatype Stats = Stats(total: nat, changed: nat, missingKjv: nat, divineOnly: nat, humanOnly: nat, mixed: nat, none: nat)

  /** The output lines, the review targets and the counters. */
  datatype Pass = Pass(out: seq<Verse>, review: seq<ReviewItem>, stats: Stats)

  function RefOf(obj: JsonObj): string { Strip(Field(obj, "ref")) }

  /** Why a line stops the pass, if it does. */
  function LineError(line: Line, lineNo: nat): Option<InputError> {
    match line
    case Blank => None
    case Malformed => Some(BadJson(lineNo))
    case Record(obj) => if RefOf(obj) == "" then Some(MissingField(lineNo, "ref")) else None
  }

  /** The effect of one verse object on the pass. */
  function Step(p: Pass, obj: JsonObj, kjv: map<string, string>): Pass {
    var ref := RefOf(obj);
    var text := Field(obj, "translation");
    var st := p.stats.(total := p.stats.total + 1);
    var k := KjvText(kjv, ref);
    if k.None? then
      Pass(p.out + [Verse(ref, text)], p.review, st.(missingKjv := st.missingKjv + 1))
    else
      var c := Classify(k.value);
      var nt := Rewrite(text, k);
      var st1 :=
        match c
        case DivineOnly => st.(divineOnly := st.divineOnly + 1)
        case HumanOnly => st.(humanOnly := st.humanOnly + 1)
        case Mixed => st.(mixed := st.mixed + 1)
        case NoPronouns => st.(none := st.none + 1);
      var st2 := if nt != text then st1.(changed := st1.changed + 1) else st1;
      Pass(p.out + [Verse(ref, nt)], if c == Mixed then p.review + [ReviewItem(ref, MixedReason)] else p.review, st2)
  }

  const EmptyPass := Pass([], [], Stats(0, 0, 0, 0, 0, 0, 0))

  /** The pass over the lines of the book, line by line; line numbers count every line. */
  function RunPass(lines: seq<Line>, kjv: map<string, string>): Result<Pass, InputError>
    decreases |lines|
  {
    if lines == [] then Success(EmptyPass)
    else
      var n := |lines|;
      var prev := RunPass(lines[..n - 1], kjv);
      if prev.Failure? then prev
      else if LineError(lines[n - 1], n).Some? then Failure(LineError(lines[n - 1], n).value)
      else if lines[n - 1].Blank? then prev
      else Success(Step(prev.value, lines[n - 1].obj, kjv))
  }

  /** Once the pass has stopped, later lines do not matter. */
  lemma {:induction false} FailureSticks(lines: seq<Line>, kjv: map<string, string>, n: nat)
    requires n <= |lines| && RunPass(lines[..n], kjv).Failure?
    ensures RunPass(lines, kjv) == RunPass(lines[..n], kjv)
    decreases |lines| - n
  {
    if n < |lines| {
      assert lines[..n + 1][..n] == lines[..n];
      FailureSticks(lines, kjv, n + 1);
    } else {
      assert lines[..n] == lines;
    }
  }

  lemma RunPassStep(lines: seq<Line>, kjv: map<string, string>, i: nat)
    requires i < |lines| && RunPass(lines[..i], kjv).Success? && LineError(lines[i], i + 1).None?
    ensures lines[i].Blank? ==> RunPass(lines[..i + 1], kjv) == RunPass(lines[..i], kjv)
    ensures lines[i].Record? ==> RunPass(lines[..i + 1], kjv) == Success(Step(RunPass(lines[..i], kjv).value, lines[i].obj, kjv))
  {
    assert lines[..i + 1][..i] == lines[..i];
  }

  lemma RunPassStop(lines: seq<Line>, kjv: map<string, string>, i: nat)
    requires i < |lines| && RunPass(lines[..i], kjv).Success? && LineError(lines[i], i + 1).Some?
    ensures RunPass(lines, kjv) == Failure(LineError(lines[i], i + 1).value)
  {
    assert lines[..i + 1][..i] == lines[..i];
    FailureSticks(lines, kjv, i + 1);
  }

  /** The main loop of the script. */
  method PronounPass(lines: seq<Line>, kjv: map<string, string>) returns (r: Result<Pass, InputError>)
    ensures r == RunPass(lines, kjv)
  {
    var out: seq<Verse> := [];
    var review: seq<ReviewItem> := [];
    var total, changed, mixed, none, missingKjv, divineOnly, humanOnly := 0, 0, 0, 0, 0, 0, 0;
    for i := 0 to |lines|
      invariant RunPass(lines[..i], kjv) == Success(Pass(out, review, Stats(total, changed, missingKjv, divineOnly, humanOnly, mixed, none)))
    {
      var line := lines[i];
      if line.Blank? {
        RunPassStep(lines, kjv, i);
        continue;
      }
      if line.Malformed? {
        RunPassStop(lines, kjv, i);
        return Failure(BadJson(i + 1));
      }
      ghost var before := Pass(out, review, Stats(total, changed, missingKjv, divineOnly, humanOnly, mixed, none));
      total := total + 1;
      var ref := Strip(Field(line.obj, "ref"));
      var text := Field(line.obj, "translation");
      if ref == "" {
        RunPassStop(lines, kjv, i);
        return Failure(MissingField(i + 1, "ref"));
      }
      RunPassStep(lines, kjv, i);
      if !(ref in kjv && kjv[ref] != "") {
        missingKjv := missingKjv + 1;
        out := out + [Verse(ref, text)];
        assert Step(before, line.obj, kjv) == Pass(out, review, Stats(total, changed, missingKjv, divineOnly, humanOnly, mixed, none));
        continue;
      }
      var kjvText := kjv[ref];
      var cls := Classify(kjvText);
      var newText := text;
      if cls == DivineOnly {
        divineOnly := divineOnly + 1;
        newText := CapAll(text);
      } else if cls == HumanOnly {
        humanOnly := humanOnly + 1;
        newText := DecapAll(text);
      } else if cls == Mixed {
        mixed := mixed + 1;
        review := review + [ReviewItem(ref, MixedReason)];
      } else {
        none := none + 1;
      }
      if newText != text {
        changed := changed + 1;
      }
      out := out + [Verse(ref, newText)];
      assert RefOf(line.obj) == ref && KjvText(kjv, ref) == Some(kjvText);
      assert newText == Rewrite(text, KjvText(kjv, ref));
      assert Step(before, line.obj, kjv) == Pass(out, review, Stats(total, changed, missingKjv, divineOnly, humanOnly, mixed, none));
    }
    assert lines[..|lines|] == lines;
    return Success(Pass(out, review, Stats(total, changed, missingKjv, divineOnly, humanOnly, mixed, none)));
  }

  /** The pass over verse objects alone, once no line stops it. */
  function StepAll(rs: seq<JsonObj>, kjv: map<string, string>): Pass
    decreases |rs|
  {
    if rs == [] then EmptyPass else Step(StepAll(rs[..|rs| - 1], kjv), rs[|rs| - 1], kjv)
  }

  predicate AllRefs(rs: seq<JsonObj>) {
    forall j :: 0 <= j < |rs| ==> RefOf(rs[j]) != ""
  }

  /** A pass that completes handled exactly the verse objects among the lines. */
  lemma {:induction false} RunPassIsStepAll(lines: seq<Line>, kjv: map<string, string>)
    requires RunPass(lines, kjv).Success?
    ensures RunPass(lines, kjv).value == StepAll(Records(lines), kjv)
    decreases |lines|
  {
    if lines != [] {
      RunPassIsStepAll(lines[..|lines| - 1], kjv);
      RunPassIsStepAllStep(lines, kjv);
    }
  }

  lemma RunPassIsStepAllStep(lines: seq<Line>, kjv: map<string, string>)
    requires lines != [] && RunPass(lines, kjv).Success?
    requires var pre := lines[..|lines| - 1];
      RunPass(pre, kjv).Success? && RunPass(pre, kjv).value == StepAll(Records(pre), kjv)
    ensures RunPass(lines, kjv).value == StepAll(Records(lines), kjv)
  {
    var pre := lines[..|lines| - 1];
    var last := lines[|lines| - 1];
    RunPassLast(lines, kjv);
    if last.Record? {
      StepAllAppend(Records(pre), last.obj, kjv);
    }
  }

  /** How the last line of a completed pass contributes to it. */
  lemma RunPassLast(lines: seq<Line>, kjv: map<string, string>)
    requires lines != [] && RunPass(lines, kjv).Success?
    ensures var pre := lines[..|lines| - 1];
      var last := lines[|lines| - 1];
      && RunPass(pre, kjv).Success?
      && (last.Record? ==> Records(lines) == Records(pre) + [last.obj] && RunPass(lines, kjv) == Success(Step(RunPass(pre, kjv).value, last.obj, kjv)))
      && (!last.Record? ==> Records(lines) == Records(pre) && RunPass(lines, kjv) == RunPass(pre, kjv))
  {
  }



  /** Every verse object of a completed pass had a reference. */
  lemma {:induction false} RunPassRefs(lines: seq<Line>, kjv: map<string, string>)
    requires RunPass(lines, kjv).Success?
    ensures AllRefs(Records(lines))
    decreases |lines|
  {
    if lines != [] {
      var n := |lines|;
      var pre := lines[..n - 1];
      RunPassRefs(pre, kjv);
      var rs := Records(lines);
      if lines[n - 1].Record? {
        assert LineError(lines[n - 1], n).None?;
        forall j | 0 <= j < |rs|
          ensures RefOf(rs[j]) != ""
        {
          if j < |rs| - 1 {
            assert rs[j] == Records(pre)[j];
          }
        }
      }
    }
  }

  /** The pass stops exactly when some line is malformed or lacks a reference, and it reports
      the first such line. */
  lemma {:induction false} RunPassFailure(lines: seq<Line>, kjv: map<string, string>)
    ensures RunPass(lines, kjv).Failure? <==> exists j :: 0 <= j < |lines| && LineError(lines[j], j + 1).Some?
    ensures RunPass(lines, kjv).Failure? ==> exists j :: 0 <= j < |lines| && LineError(lines[j], j + 1) == Some(RunPass(lines, kjv).error) && forall j' :: 0 <= j' < j ==> LineError(lines[j'], j' + 1).None?
    decreases |lines|
  {
    var j := FirstStop(lines, kjv);
    if RunPass(lines, kjv).Success? {
      forall j | 0 <= j < |lines|
        ensures LineError(lines[j], j + 1).None?
      {
      }
    }
  }

  /** Where the pass stops: the first line with an error, or none at all. */
  lemma {:induction false} FirstStop(lines: seq<Line>, kjv: map<string, string>) returns (j: nat)
    ensures RunPass(lines, kjv).Failure? ==>
      && j < |lines| && LineError(lines[j], j + 1) == Some(RunPass(lines, kjv).error)
      && forall k :: 0 <= k < j ==> LineError(lines[k], k + 1).None?
    ensures RunPass(lines, kjv).Success? ==> forall k :: 0 <= k < |lines| ==> LineError(lines[k], k + 1).None?
    decreases |lines|
  {
    if lines == [] {
      j := 0;
    } else {
      var j0 := FirstStop(lines[..|lines| - 1], kjv);
      var pre := lines[..|lines| - 1];
      j := if RunPass(pre, kjv).Failure? then j0 else |pre|;
      if RunPass(lines, kjv).Failure? {
        StopStep(lines, pre, kjv, j);
      } else {
        GoStep(lines, pre, kjv);
      }
    }
  }

  /** The pass stops at line `j + 1` of `lines`, given where it stops in `pre`. */
  lemma StopStep(lines: seq<Line>, pre: seq<Line>, kjv: map<string, string>, j: nat)
    requires lines != [] && pre == lines[..|lines| - 1] && RunPass(lines, kjv).Failure?
    requires RunPass(pre, kjv).Failure? ==>
      && j < |pre| && LineError(pre[j], j + 1) == Some(RunPass(pre, kjv).error)
      && forall k :: 0 <= k < j ==> LineError(pre[k], k + 1).None?
    requires RunPass(pre, kjv).Success? ==> j == |pre| && forall k :: 0 <= k < |pre| ==> LineError(pre[k], k + 1).None?
    ensures j < |lines| && LineError(lines[j], j + 1) == Some(RunPass(lines, kjv).error)
    ensures forall k :: 0 <= k < j ==> LineError(lines[k], k + 1).None?
  {
    assert forall k :: 0 <= k < |pre| ==> pre[k] == lines[k];
    if RunPass(pre, kjv).Failure? {
      assert RunPass(lines, kjv) == RunPass(pre, kjv);
    }
  }

  lemma GoStep(lines: seq<Line>, pre: seq<Line>, kjv: map<string, string>)
    requires lines != [] && pre == lines[..|lines| - 1] && RunPass(lines, kjv).Success?
    requires RunPass(pre, kjv).Success? ==> forall k :: 0 <= k < |pre| ==> LineError(pre[k], k + 1).None?
    ensures forall k :: 0 <= k < |lines| ==> LineError(lines[k], k + 1).None?
  {
    var n := |lines|;
    assert RunPass(pre, kjv).Success? && LineError(lines[n - 1], n).None?;
    forall k | 0 <= k < n
      ensures LineError(lines[k], k + 1).None?
    {
      if k < n - 1 {
        assert pre[k] == lines[k];
      }
    }
  }


  /** The counters agree with each other and with the output. */
  predicate Consistent(p: Pass) {
    var st := p.stats;
    && st.total == |p.out| == st.missingKjv + st.divineOnly + st.humanOnly + st.mixed + st.none
    && st.mixed == |p.review|
    && st.changed <= st.divineOnly + st.humanOnly
  }

  function ExpectedVerse(obj: JsonObj, kjv: map<string, string>): Verse {
    Verse(RefOf(obj), Rewrite(Field(obj, "translation"), KjvText(kjv, RefOf(obj))))
  }

  predicate IsMixed(obj: JsonObj, kjv: map<string, string>) {
    KjvText(kjv, RefOf(obj)).Some? && Classify(KjvText(kjv, RefOf(obj)).value) == Mixed
  }

  /** The review targets: one item per verse whose KJV text mixes both forms, in order. */
  function MixedReview(rs: seq<JsonObj>, kjv: map<string, string>): seq<ReviewItem>
    decreases |rs|
  {
    if rs == [] then []
    else MixedReview(rs[..|rs| - 1], kjv) + (if IsMixed(rs[|rs| - 1], kjv) then [ReviewItem(RefOf(rs[|rs| - 1]), MixedReason)] else [])
  }

  /** One verse object appends its expected output line, and a review item when it is
      mixed; the counters stay consistent. */
  lemma StepFacts(p: Pass, obj: JsonObj, kjv: map<string, string>)
    ensures Step(p, obj, kjv).out == p.out + [ExpectedVerse(obj, kjv)]
    ensures Step(p, obj, kjv).review == p.review + (if IsMixed(obj, kjv) then [ReviewItem(RefOf(obj), MixedReason)] else [])
    ensures Consistent(p) ==> Consistent(Step(p, obj, kjv))
  {
    var k := KjvText(kjv, RefOf(obj));
    if k.Some? {
      RewriteProperties(Field(obj, "translation"), k);
    }
  }

  /** One output line per verse object, in input order, holding its rewritten translation;
      one review item per mixed verse; counters that add up.  Verses whose KJV text is
      missing, mixed or pronoun-free are written unchanged, and `changed` counts only
      verses that were capitalized or lower-cased. */
  lemma {:induction false} StepAllOutputs(rs: seq<JsonObj>, kjv: map<string, string>)
    ensures |StepAll(rs, kjv).out| == |rs|
    ensures forall j :: 0 <= j < |rs| ==> StepAll(rs, kjv).out[j] == ExpectedVerse(rs[j], kjv)
    ensures StepAll(rs, kjv).review == MixedReview(rs, kjv)
    ensures Consistent(StepAll(rs, kjv))
    decreases |rs|
  {
    if rs != [] {
      StepAllOutputs(rs[..|rs| - 1], kjv);
      StepAllOutputsStep(rs, kjv);
    }
  }

  lemma StepAllOutputsStep(rs: seq<JsonObj>, kjv: map<string, string>)
    requires rs != []
    requires var pre := rs[..|rs| - 1];
      && |StepAll(pre, kjv).out| == |pre|
      && (forall j :: 0 <= j < |pre| ==> StepAll(pre, kjv).out[j] == ExpectedVerse(pre[j], kjv))
      && StepAll(pre, kjv).review == MixedReview(pre, kjv)
      && Consistent(StepAll(pre, kjv))
    ensures |StepAll(rs, kjv).out| == |rs|
    ensures forall j :: 0 <= j < |rs| ==> StepAll(rs, kjv).out[j] == ExpectedVerse(rs[j], kjv)
    ensures StepAll(rs, kjv).review == MixedReview(rs, kjv)
    ensures Consistent(StepAll(rs, kjv))
  {
    var n := |rs|;
    var pre := rs[..n - 1];
    var p := StepAll(pre, kjv);
    assert StepAll(rs, kjv) == Step(p, rs[n - 1], kjv);
    StepFacts(p, rs[n - 1], kjv);
    ExpectedSnoc(rs, p.out, StepAll(rs, kjv).out, kjv);
  }

  /** Output lines that match the verse objects before the last one, followed by the last
      one's, match all of them. */
  lemma ExpectedSnoc(rs: seq<JsonObj>, pre: seq<Verse>, out: seq<Verse>, kjv: map<string, string>)
    requires rs != [] && |pre| == |rs| - 1
    requires forall j :: 0 <= j < |pre| ==> pre[j] == ExpectedVerse(rs[..|rs| - 1][j], kjv)
    requires out == pre + [ExpectedVerse(rs[|rs| - 1], kjv)]
    ensures forall j :: 0 <= j < |rs| ==> out[j] == ExpectedVerse(rs[j], kjv)
  {
    forall j | 0 <= j < |rs|
      ensures out[j] == ExpectedVerse(rs[j], kjv)
    {
      if j < |pre| {
        assert rs[..|rs| - 1][j] == rs[j];
      }
    }
  }

  /** What a completed pass writes, given the lines it read. */
  lemma PassOutputs(lines: seq<Line>, kjv: map<string, string>)
    requires RunPass(lines, kjv).Success?
    ensures var p := RunPass(lines, kjv).value;
      && |p.out| == |Records(lines)|
      && (forall j :: 0 <= j < |p.out| ==> p.out[j] == ExpectedVerse(Records(lines)[j], kjv))
      && p.review == MixedReview(Records(lines), kjv)
      && Consistent(p)
  {
    RunPassIsStepAll(lines, kjv);
    StepAllOutputs(Records(lines), kjv);
  }

  /** The object the script writes for a verse. */
  function OutObj(v: Verse): JsonObj {
    map["ref" := v.ref, "translation" := v.translation]
  }

  function OutObjs(vs: seq<Verse>): (rs: seq<JsonObj>)
    ensures |rs| == |vs| && forall j :: 0 <= j < |vs| ==> rs[j] == OutObj(vs[j])
  {
    seq(|vs|, j requires 0 <= j < |vs| => OutObj(vs[j]))
  }

  /** A verse read back from the output is handled like the original verse, except that
      nothing changes. */
  lemma StepRerun(p: Pass, obj: JsonObj, kjv: map<string, string>)
    requires RefOf(obj) != ""
    ensures var q := Step(p, obj, kjv);
      Step(p.(stats := p.stats.(changed := 0)), OutObj(ExpectedVerse(obj, kjv)), kjv) == q.(stats := q.stats.(changed := 0))
  {
    var v := ExpectedVerse(obj, kjv);
    var o := OutObj(v);
    StripTrimmed(v.ref);
    assert RefOf(o) == v.ref == RefOf(obj) && Field(o, "translation") == v.translation;
    RewriteIdempotent(Field(obj, "translation"), KjvText(kjv, RefOf(obj)));
    StepSame(p, obj, o, kjv);
  }

  /** A verse object with the same reference whose translation the rewrite leaves alone
      steps like the original, except that it counts no change. */
  lemma StepSame(p: Pass, obj: JsonObj, o: JsonObj, kjv: map<string, string>)
    requires RefOf(o) == RefOf(obj)
    requires var k := KjvText(kjv, RefOf(obj));
      Field(o, "translation") == Rewrite(Field(obj, "translation"), k) && Rewrite(Field(o, "translation"), k) == Field(o, "translation")
    ensures var q := Step(p, obj, kjv);
      Step(p.(stats := p.stats.(changed := 0)), o, kjv) == q.(stats := q.stats.(changed := 0))
  {
    var k := KjvText(kjv, RefOf(obj));
    if k.Some? {
      var q := Step(p, obj, kjv);
      var q2 := Step(p.(stats := p.stats.(changed := 0)), o, kjv);
      assert q2.stats == q.stats.(changed := 0);
    }
  }

  lemma OutObjsAppend(vs: seq<Verse>, v: Verse)
    ensures OutObjs(vs + [v]) == OutObjs(vs) + [OutObj(v)]
  {
  }

  lemma StepAllAppend(rs: seq<JsonObj>, obj: JsonObj, kjv: map<string, string>)
    ensures StepAll(rs + [obj], kjv) == Step(StepAll(rs, kjv), obj, kjv)
  {
    assert (rs + [obj])[..|rs|] == rs;
  }

  /** Running the pass again on its own output with the same KJV text writes the same
      verses and review targets and changes nothing: the pass settles after one run. */
  lemma {:induction false} Rerun(rs: seq<JsonObj>, kjv: map<string, string>)
    requires AllRefs(rs)
    ensures var p := StepAll(rs, kjv);
      StepAll(OutObjs(p.out), kjv) == p.(stats := p.stats.(changed := 0))
    decreases |rs|
  {
    if rs != [] {
      var pre := rs[..|rs| - 1];
      var obj := rs[|rs| - 1];
      assert AllRefs(pre) by {
        assert forall j :: 0 <= j < |pre| ==> pre[j] == rs[j];
      }
      Rerun(pre, kjv);
      var p0 := StepAll(pre, kjv);
      assert StepAll(rs, kjv) == Step(p0, obj, kjv);
      StepFacts(p0, obj, kjv);
      var v := ExpectedVerse(obj, kjv);
      OutObjsAppend(p0.out, v);
      StepAllAppend(OutObjs(p0.out), OutObj(v), kjv);
      StepRerun(p0, obj, kjv);
    }
  }

  lemma {:induction false} RunRecords(rs: seq<JsonObj>, kjv: map<string, string>)
    requires AllRefs(rs)
    ensures RunPass(RecordLines(rs), kjv) == Success(StepAll(rs, kjv))
    decreases |rs|
  {
    if rs != [] {
      var pre := rs[..|rs| - 1];
      assert RecordLines(rs)[..|rs| - 1] == RecordLines(pre);
      RunRecords(pre, kjv);
    }
  }

  /** Feeding the written lines back to the script with the same KJV file reproduces them,
      with nothing counted as changed. */
  lemma PassRerun(lines: seq<Line>, kjv: map<string, string>)
    requires RunPass(lines, kjv).Success?
    ensures var p := RunPass(lines, kjv).value;
      RunPass(RecordLines(OutObjs(p.out)), kjv) == Success(p.(stats := p.stats.(changed := 0)))
  {
    RunPassIsStepAll(lines, kjv);
    RunPassRefs(lines, kjv);
    var rs := Records(lines);
    Rerun(rs, kjv);
    OutRefs(rs, kjv);
    RunRecords(OutObjs(StepAll(rs, kjv).out), kjv);
  }

  /** The verses a pass writes keep their references. */
  lemma OutRefs(rs: seq<JsonObj>, kjv: map<string, string>)
    requires AllRefs(rs)
    ensures AllRefs(OutObjs(StepAll(rs, kjv).out))
  {
    StepAllOutputs(rs, kjv);
    ExpectedRefs(rs, StepAll(rs, kjv).out, kjv);
  }

  /** The expected output lines of verses with references read back with those
      references. */
  lemma ExpectedRefs(rs: seq<JsonObj>, out: seq<Verse>, kjv: map<string, string>)
    requires AllRefs(rs) && |out| == |rs|
    requires forall j :: 0 <= j < |rs| ==> out[j] == ExpectedVerse(rs[j], kjv)
    ensures AllRefs(OutObjs(out))
  {
    var os := OutObjs(out);
    forall j | 0 <= j < |os|
      ensures RefOf(os[j]) != ""
    {
      StripTrimmed(out[j].ref);
    }
  }

  /** The whole script: load the KJV text by reference, then run the pass over the book. */
  method PronounScript(kjvLines: seq<Line>, bookLines: seq<Line>) returns (r: Result<Pass, InputError>)
    ensures LoadMap(kjvLines, "ref", "kjv").Failure? ==> r == Failure(LoadMap(kjvLines, "ref", "kjv").error)
    ensures LoadMap(kjvLines, "ref", "kjv").Success? ==> r == RunPass(bookLines, LoadMap(kjvLines, "ref", "kjv").value)
  {
    var kjv := LoadJsonlMap(kjvLines, "ref", "kjv");
    if kjv.Failure? {
      return Failure(kjv.error);
    }
    r := PronounPass(bookLines, kjv.value);
  }
}
