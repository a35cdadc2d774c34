/** scripts/oshb_to_jsonl.py: one `{ref, source}` record per OSIS verse element of a
    Hebrew Bible document, the ref rebuilt from the verse's id and the source being the
    verse's text with its whitespace normalised. */
module Oshb {
  import opened Wrappers
  import opened Chars
  import opened Whitespace
  import opened Xml
  import opened OsisRefs

  /** `normalize_hebrew`: the same substitution and strip as `normalize_space`, so the
      result is the words of `s` joined by single spaces; vowel points and cantillation
      marks are not whitespace and stay inside their words as they are. */
  function NormalizeHebrew(s: string): (r: string)
    ensures r == JoinSpace(SplitSpace(s))
    ensures SplitSpace(r) == SplitSpace(s)
    ensures Normalized(r)
    ensures Squeeze(r) == Squeeze(s)
  {
    NormalizeSpace(s)
  }

  /** Normalising Hebrew text twice is normalising it once. */
  lemma NormalizeHebrewIdempotent(s: string)
    ensures NormalizeHebrew(NormalizeHebrew(s)) == NormalizeHebrew(s)
  {
    NormalizeSpaceIdempotent(s);
  }

  /** `v.get("osisID") or v.get("osisRef") or ""` */
  function VerseId(v: Element): string {
    if Attr(v, "osisID") != "" then Attr(v, "osisID") else Attr(v, "osisRef")
  }

  /** The osisID wins whenever it is present and non-empty; otherwise the osisRef is
      taken, and the id is empty, so that the verse is skipped, exactly when neither
      attribute is present with a non-empty value. */
  lemma VerseIdChoice(v: Element)
    ensures "osisID" in v.attrs && v.attrs["osisID"] != "" ==> VerseId(v) == v.attrs["osisID"]
    ensures ("osisID" !in v.attrs || v.attrs["osisID"] == "") && "osisRef" in v.attrs ==> VerseId(v) == v.attrs["osisRef"]
    ensures VerseId(v) == "" <==>
      ("osisID" !in v.attrs || v.attrs["osisID"] == "") && ("osisRef" !in v.attrs || v.attrs["osisRef"] == "")
  {
  }

  /** The ref written for an id: with three or more dot-separated parts, the first part in
      upper case, a space, then the second and third parts read as integers and written
      back in decimal, joined by a colon; further parts are ignored.  With fewer parts the
      id itself.  `Failure(id)` where `int(chap)` or `int(verse)` raises. */
  function RefOfId(id: string): Result<string, string> {
    var parts := Split(id, '.');
    if |parts| >= 3 then
      if IsNumeral(parts[1]) && IsNumeral(parts[2]) then
        Success(Format(Upper(parts[0]), DigitsValue(parts[1]), DigitsValue(parts[2])))
      else Failure(id)
    else Success(id)
  }

  /** An id without two dots is the ref verbatim; an id with them fails exactly when its
      chapter or verse is not a numeral, and otherwise gives its book in upper case with
      the chapter and verse numbers. */
  lemma RefOfIdCases(id: string)
    ensures |Split(id, '.')| < 3 ==> RefOfId(id) == Success(id)
    ensures RefOfId(id).Failure? <==>
      var parts := Split(id, '.');
      |parts| >= 3 && (!IsNumeral(parts[1]) || !IsNumeral(parts[2]))
    ensures RefOfId(id).Failure? ==> RefOfId(id).error == id
    ensures RefOfId(id).Success? && |Split(id, '.')| >= 3 ==>
      var parts := Split(id, '.');
      RefOfId(id).value == Format(Upper(parts[0]), DigitsValue(parts[1]), DigitsValue(parts[2]))
  {
  }

  /** An id without any dot, as "Gen", is kept as the ref. */
  lemma DotlessIdVerbatim(id: string)
    requires '.' !in id
    ensures RefOfId(id) == Success(id)
  {
    assert Split(id, '.') == [id];
  }

  /** An id "Book.c.v", possibly followed by further dot-separated parts, with the chapter
      and verse written in decimal, becomes "BOOK c:v". */
  lemma RefOfIdNumbers(book: string, c: nat, v: nat, extra: seq<string>)
    requires '.' !in book
    requires forall k :: 0 <= k < |extra| ==> '.' !in extra[k]
    ensures RefOfId(Join([book, NatToString(c), NatToString(v)] + extra, '.')) == Success(Format(Upper(book), c, v))
  {
    var cs, vs := NatToString(c), NatToString(v);
    assert '.' !in cs by {
      assert forall k :: 0 <= k < |cs| ==> IsDigit(cs[k]);
    }
    assert '.' !in vs by {
      assert forall k :: 0 <= k < |vs| ==> IsDigit(vs[k]);
    }
    SplitDots(book, cs, vs, extra);
  }

  /** Upper-casing keeps a book code a code: it stays non-empty and gains no space. */
  lemma UpperCode(b: string)
    requires IsCode(b)
    ensures IsCode(Upper(b))
  {
    var u := Upper(b);
    forall k | 0 <= k < |u|
      ensures u[k] != ' '
    {
      assert b[k] != ' ';
    }
  }

  /** A converted ref whose book part is non-empty and has no space reads back, by the
      `sort_key` of scripts/osis_to_kjv_jsonl.py, as the upper-cased book with the chapter
      and verse numbers. */
  lemma RefOfIdKey(id: string)
    requires |Split(id, '.')| >= 3 && IsCode(Split(id, '.')[0])
    requires RefOfId(id).Success?
    ensures var parts := Split(id, '.');
      SortKey(RefOfId(id).value) == Some(RefKey(Upper(parts[0]), DigitsValue(parts[1]), DigitsValue(parts[2])))
  {
    var parts := Split(id, '.');
    UpperCode(parts[0]);
    SortKeyFormat(Upper(parts[0]), DigitsValue(parts[1]), DigitsValue(parts[2]));
  }

  /** The two converters disagree on book codes: for every chapter and verse, "Exod.c.v"
      becomes "EXOD c:v" here but "EXO c:v" in scripts/osis_to_kjv_jsonl.py. */
  lemma RefFormatsDiverge(c: nat, v: nat)
    ensures var id := Join(["Exod", NatToString(c), NatToString(v)], '.');
      && RefOfId(id) == Success(Format("EXOD", c, v))
      && OsisIdToRef(id) == Some(Format("EXO", c, v))
      && Format("EXOD", c, v) != Format("EXO", c, v)
  {
    ExodHere(c, v);
    ExodThere(c, v);
    ExodDiffers(c, v);
  }

  lemma ExodHere(c: nat, v: nat)
    ensures RefOfId(Join(["Exod", NatToString(c), NatToString(v)], '.')) == Success(Format("EXOD", c, v))
  {
    RefOfIdNumbers("Exod", c, v, []);
    assert ["Exod", NatToString(c), NatToString(v)] + [] == ["Exod", NatToString(c), NatToString(v)];
    UpperExod();
  }

  lemma ExodThere(c: nat, v: nat)
    ensures OsisIdToRef(Join(["Exod", NatToString(c), NatToString(v)], '.')) == Some(Format("EXO", c, v))
  {
    ExodCode();
    OsisIdToRefNumbers("Exod", c, v);
  }

  lemma ExodDiffers(c: nat, v: nat)
    ensures Format("EXOD", c, v) != Format("EXO", c, v)
  {
    FormatHead("EXOD", c, v);
    FormatHead("EXO", c, v);
    var a, b := Format("EXOD", c, v), Format("EXO", c, v);
    assert a[..4][3] == 'D' && b[..4][3] == ' ';
  }

  lemma UpperExod()
    ensures Upper("Exod") == "EXOD"
  {
  }

  /** The table of scripts/osis_to_kjv_jsonl.py gives "Exod" the code "EXO". */
  lemma ExodCode()
    ensures "Exod" in OsisToRef && OsisToRef["Exod"] == "EXO"
  {
    ExodOld();
    ExodNotNew();
  }

  lemma ExodOld()
    ensures "Exod" in OldTestamentBooks && OldTestamentBooks["Exod"] == "EXO"
  {
  }

  lemma ExodNotNew()
    ensures "Exod" !in NewTestamentBooks
  {
  }

  datatype OshbRecord = OshbRecord(ref: string, source: string)

  /** Why `main` stops: no verse element at all, or an id whose chapter or verse is not a
      number. */
  datatype OshbError = NoVerses | BadNumber(id: string)

  /** What `main` reads from a verse element: its id and `"".join(v.itertext())`. */
  datatype Verse = Verse(id: string, text: string)

  function VerseOf(e: Element): Verse {
    Verse(VerseId(e), Itertext(e))
  }

  /** The record for a verse whose id converts to `ref`. */
  function RecordOf(w: Verse, ref: string): (rec: OshbRecord)
    ensures rec.ref == ref && Normalized(rec.source)
  {
    OshbRecord(ref, NormalizeHebrew(w.text))
  }

  /** One turn of the loop of `main`: after a failure nothing changes; a verse without an
      id is skipped; otherwise its id converts and its record is written, or the loop
      stops at it. */
  function Next(acc: Result<seq<OshbRecord>, OshbError>, w: Verse): Result<seq<OshbRecord>, OshbError> {
    if acc.Failure? then acc
    else
      var id := w.id;
      if id == "" then acc
      else
        match RefOfId(id)
        case Failure(bad) => Failure(BadNumber(bad))
        case Success(ref) => Success(acc.value + [RecordOf(w, ref)])
  }

  /** The loop of `main` over the first verses: the records written so far, or the error
      that ends it. */
  function Convert(vs: seq<Verse>): Result<seq<OshbRecord>, OshbError>
    decreases |vs|
  {
    if vs == [] then Success([]) else Next(Convert(vs[..|vs| - 1]), vs[|vs| - 1])
  }

  /** Every verse with an id has a convertible one. */
  predicate AllConvert(vs: seq<Verse>) {
    forall j :: 0 <= j < |vs| && vs[j].id != "" ==> RefOfId(vs[j].id).Success?
  }

  /** The record a single verse is meant to give: none without an id or with an id that
      does not convert, otherwise one. */
  function Own(w: Verse): (rs: seq<OshbRecord>)
    ensures |rs| <= 1
  {
    var id := w.id;
    if id == "" then []
    else
      match RefOfId(id)
      case Failure(_) => []
      case Success(ref) => [RecordOf(w, ref)]
  }

  /** The records `main` is meant to write: one per verse with a convertible id, in
      document order. */
  function Emitted(vs: seq<Verse>): (rs: seq<OshbRecord>)
    ensures |rs| <= |vs|
    decreases |vs|
  {
    if vs == [] then [] else Emitted(vs[..|vs| - 1]) + Own(vs[|vs| - 1])
  }

  lemma AllConvertPrefix(vs: seq<Verse>, n: nat)
    requires n <= |vs| && AllConvert(vs)
    ensures AllConvert(vs[..n])
  {
    forall j | 0 <= j < n && vs[..n][j].id != ""
      ensures RefOfId(vs[..n][j].id).Success?
    {
      assert vs[..n][j] == vs[j];
    }
  }

  /** A turn over a verse whose id, if any, converts adds that verse's record. */
  lemma NextOwn(acc: Result<seq<OshbRecord>, OshbError>, w: Verse)
    requires acc.Success? && (w.id == "" || RefOfId(w.id).Success?)
    ensures Next(acc, w) == Success(acc.value + Own(w))
  {
    if w.id == "" {
      assert Own(w) == [];
      assert acc.value + Own(w) == acc.value;
    }
  }

  /** Where every id converts, the loop writes exactly the intended records. */
  lemma {:induction false} ConvertEmitted(vs: seq<Verse>)
    requires AllConvert(vs)
    ensures Convert(vs) == Success(Emitted(vs))
    decreases |vs|
  {
    if vs != [] {
      var init, w := vs[..|vs| - 1], vs[|vs| - 1];
      AllConvertPrefix(vs, |vs| - 1);
      ConvertEmitted(init);
      NextOwn(Convert(init), w);
    }
  }

  /** Once the loop has failed on a prefix, it fails with the same error on the whole. */
  lemma {:induction false} FailureSticks(vs: seq<Verse>, n: nat)
    requires n <= |vs| && Convert(vs[..n]).Failure?
    ensures Convert(vs) == Convert(vs[..n])
    decreases |vs| - n
  {
    if n < |vs| {
      assert vs[..n + 1][..n] == vs[..n];
      FailureSticks(vs, n + 1);
    } else {
      assert vs[..n] == vs;
    }
  }

  /** The loop fails only at a verse whose id does not convert, and then with that id:
      the first such verse's. */
  lemma {:induction false} ConvertFailure(vs: seq<Verse>) returns (j: nat)
    requires Convert(vs).Failure?
    ensures j < |vs| && vs[j].id != "" && RefOfId(vs[j].id).Failure?
    ensures AllConvert(vs[..j])
    ensures Convert(vs) == Failure(BadNumber(vs[j].id))
    decreases |vs|
  {
    var init := vs[..|vs| - 1];
    if Convert(init).Failure? {
      j := ConvertFailure(init);
      assert init[..j] == vs[..j] && init[j] == vs[j];
    } else {
      j := |vs| - 1;
      assert vs[..j] == init;
      AllConvertOfSuccess(init);
    }
  }

  /** A turn that ends in success started from one and met a verse that converts. */
  lemma NextSuccess(acc: Result<seq<OshbRecord>, OshbError>, w: Verse)
    requires Next(acc, w).Success?
    ensures acc.Success? && (w.id == "" || RefOfId(w.id).Success?)
  {
  }

  /** A loop that got through the verses has converted every id among them. */
  lemma {:induction false} AllConvertOfSuccess(vs: seq<Verse>)
    requires Convert(vs).Success?
    ensures AllConvert(vs)
    decreases |vs|
  {
    if vs != [] {
      var init := vs[..|vs| - 1];
      NextSuccess(Convert(init), vs[|vs| - 1]);
      AllConvertOfSuccess(init);
      forall j | 0 <= j < |vs| && vs[j].id != ""
        ensures RefOfId(vs[j].id).Success?
      {
        if j < |vs| - 1 {
          assert vs[j] == init[j];
        }
      }
    }
  }

  /** The loop succeeds exactly when every verse with an id has a convertible one, and
      then writes exactly the intended records. */
  lemma ConvertSucceeds(vs: seq<Verse>)
    ensures Convert(vs).Success? <==> AllConvert(vs)
    ensures Convert(vs).Success? ==> Convert(vs).value == Emitted(vs)
  {
    if Convert(vs).Success? {
      AllConvertOfSuccess(vs);
      ConvertEmitted(vs);
    } else if AllConvert(vs) {
      ConvertEmitted(vs);
    }
  }

  /** `main` over the document's verse elements, in document order: stop when there are
      none; otherwise skip each verse without an id, stop at the first whose chapter or
      verse is not a number, and write one record for each of the others. */
  method OshbMain(verses: seq<Element>) returns (r: Result<seq<OshbRecord>, OshbError>)
    ensures verses == [] ==> r == Failure(NoVerses)
    ensures verses != [] ==> r == Convert(Verses(verses))
    ensures r.Success? ==> forall j :: 0 <= j < |r.value| ==> Normalized(r.value[j].source)
  {
    if verses == [] {
      return Failure(NoVerses);
    }
    ghost var ws := Verses(verses);
    var out: seq<OshbRecord> := [];
    for i := 0 to |verses|
      invariant Convert(ws[..i]) == Success(out)
      invariant forall j :: 0 <= j < |out| ==> Normalized(out[j].source)
    {
      var w := VerseOf(verses[i]);
      ConvertPrefixStep(ws, i);
      if w.id == "" {
        continue;
      }
      var ref := RefOfId(w.id);
      if ref.Failure? {
        FailureSticks(ws, i + 1);
        return Failure(BadNumber(ref.error));
      }
      out := out + [RecordOf(w, ref.value)];
    }
    assert ws[..|verses|] == ws;
    return Success(out);
  }

  /** The verses `main` reads, one per element. */
  function Verses(es: seq<Element>): (ws: seq<Verse>)
    ensures |ws| == |es| && forall j :: 0 <= j < |es| ==> ws[j] == VerseOf(es[j])
  {
    seq(|es|, j requires 0 <= j < |es| => VerseOf(es[j]))
  }

  lemma ConvertPrefixStep(ws: seq<Verse>, i: nat)
    requires i < |ws|
    ensures Convert(ws[..i + 1]) == Next(Convert(ws[..i]), ws[i])
  {
    assert ws[..i + 1][..i] == ws[..i];
  }
}
