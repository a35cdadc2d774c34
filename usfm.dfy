/** scripts/jsonl_to_usfm.py: turns Genesis verse objects into USFM, with a `\c` line
    whenever the chapter changes and a `\v` line per verse, in input order. */
module Usfm {
  import opened Wrappers
  import opened Chars
  import opened Jsonl
  import opened ChapterRuns
  import Render

  /** A verse whose reference matched. */
  datatype Verse = Verse(chapter: nat, verse: nat, text: string)

  /** `ref` without the one newline Python's `$` lets a match end before. */
  function DropFinalNewline(ref: string): string {
    if ref != [] && ref[|ref| - 1] == '\n' then ref[..|ref| - 1] else ref
  }

  /** `REF_RE.match(ref)` for `^GEN\s+(\d+):(\d+)$`: the chapter and verse numbers. After
      `GEN` the pattern needs whitespace, so the book is exactly the run of `[A-Z0-9]` at the
      start, and the pattern matches where the one of scripts/render_readable.py matches with
      book `GEN`. */
  function MatchGen(ref: string): Option<(nat, nat)> {
    var m := Render.MatchRef(DropFinalNewline(ref));
    if m.Some? && m.value.book == "GEN" then Some((m.value.chapter, m.value.verse)) else None
  }

  /** Every reference of the shape `GEN c:v` matches, also with one newline after it,
      with the numbers it spells. */
  lemma MatchGenComplete(s: string, sp: string, x: string, y: string)
    requires Render.RefShape(s, "GEN", sp, x, y)
    ensures MatchGen(s) == Some((DigitsValue(x), DigitsValue(y)))
    ensures MatchGen(s + "\n") == Some((DigitsValue(x), DigitsValue(y)))
  {
    assert s[|s| - 1] == y[|y| - 1];
    assert IsDigit(y[|y| - 1]);
    assert DropFinalNewline(s) == s;
    assert (s + "\n")[..|s|] == s;
    assert DropFinalNewline(s + "\n") == s;
    Render.MatchRefComplete(s, "GEN", sp, x, y);
  }

  /** Every match is a reference of the shape `GEN c:v`, possibly with one newline after
      it, and gives the numbers it spells. */
  lemma MatchGenSound(ref: string)
    requires MatchGen(ref).Some?
    ensures var s := DropFinalNewline(ref);
      && (ref == s || ref == s + "\n")
      && exists sp, x, y :: Render.RefShape(s, "GEN", sp, x, y) && MatchGen(ref).value == (DigitsValue(x), DigitsValue(y))
  {
    var s := DropFinalNewline(ref);
    if s != ref {
      assert ref == s + "\n";
    }
    Render.MatchRefSound(s);
  }

  /** Only `GEN` references match: other books, and references with leading spaces or
      other trailing text, are skipped. */
  lemma OtherBooksSkipped(book: string, c: nat, v: nat)
    requires book != [] && Render.AllBook(book) && book != "GEN"
    ensures MatchGen(book + " " + NatToString(c) + ":" + NatToString(v)).None?
  {
    var s := book + " " + NatToString(c) + ":" + NatToString(v);
    var y := NatToString(v);
    assert s[|s| - 1] == y[|y| - 1];
    assert IsDigit(y[|y| - 1]);
    assert DropFinalNewline(s) == s;
    assert s[0] == book[0] && Render.IsBookChar(s[0]);
    StripTrimmed(s);
    Render.ParseRefFormat(book, c, v);
  }

  /** The verse a line that does not stop the script gives: the one of a matching reference,
      with the text as it is. */
  function MatchedVerse(obj: JsonObj): seq<Verse> {
    var m := MatchGen(Field(obj, "ref"));
    if m.None? then [] else [Verse(m.value.0, m.value.1, Field(obj, "translation"))]
  }

  /** What the loop does with line `n` (1-based): stop, or emit no verse or one. */
  function VerseAt(line: Line, n: nat): Result<seq<Verse>, InputError> {
    match line
    case Blank => Failure(BadJson(n))
    case Malformed => Failure(BadJson(n))
    case Record(obj) =>
      if "ref" !in obj then Failure(MissingField(n, "ref"))
      else if "translation" !in obj then Failure(MissingField(n, "translation"))
      else Success(MatchedVerse(obj))
  }

  /** The verses of the input, in order, or why the script stops. */
  function VersesOf(lines: seq<Line>): Result<seq<Verse>, InputError>
    decreases |lines|
  {
    if lines == [] then Success([])
    else
      var n := |lines|;
      var prev := VersesOf(lines[..n - 1]);
      if prev.Failure? then prev
      else
        match VerseAt(lines[n - 1], n)
        case Failure(e) => Failure(e)
        case Success(v) => Success(prev.value + v)
  }

  lemma {:induction false} VersesFailureSticks(lines: seq<Line>, n: nat)
    requires n <= |lines| && VersesOf(lines[..n]).Failure?
    ensures VersesOf(lines) == VersesOf(lines[..n])
    decreases |lines| - n
  {
    if n < |lines| {
      assert lines[..n + 1][..n] == lines[..n];
      VersesFailureSticks(lines, n + 1);
    } else {
      assert lines[..n] == lines;
    }
  }

  /** One more line read. */
  lemma VersesNext(lines: seq<Line>, i: nat)
    requires i < |lines| && VersesOf(lines[..i]).Success?
    ensures VerseAt(lines[i], i + 1).Failure? ==> VersesOf(lines[..i + 1]) == Failure(VerseAt(lines[i], i + 1).error)
    ensures VerseAt(lines[i], i + 1).Success? ==>
      VersesOf(lines[..i + 1]) == Success(VersesOf(lines[..i]).value + VerseAt(lines[i], i + 1).value)
  {
    assert lines[..i + 1][..i] == lines[..i];
  }

  /** The script stops exactly when some line is blank, not JSON, or lacks "ref" or
      "translation", and then at the first such line. */
  lemma {:induction false} VersesOfFailure(lines: seq<Line>)
    ensures VersesOf(lines).Failure? <==> exists j :: 0 <= j < |lines| && VerseAt(lines[j], j + 1).Failure?
    ensures VersesOf(lines).Failure? ==>
      exists j :: 0 <= j < |lines| && VerseAt(lines[j], j + 1).Failure? && VersesOf(lines).error == VerseAt(lines[j], j + 1).error
        && forall k :: 0 <= k < j ==> VerseAt(lines[k], k + 1).Success?
    decreases |lines|
  {
    var j := FirstFailure(lines);
    if VersesOf(lines).Success? {
      forall j | 0 <= j < |lines|
        ensures VerseAt(lines[j], j + 1).Success?
      {
      }
    }
  }

  /** The line the script stops at, if it stops. */
  lemma {:induction false} FirstFailure(lines: seq<Line>) returns (j: nat)
    ensures VersesOf(lines).Failure? ==>
      && j < |lines| && VerseAt(lines[j], j + 1).Failure? && VersesOf(lines).error == VerseAt(lines[j], j + 1).error
      && forall k :: 0 <= k < j ==> VerseAt(lines[k], k + 1).Success?
    ensures VersesOf(lines).Success? ==> forall k :: 0 <= k < |lines| ==> VerseAt(lines[k], k + 1).Success?
    decreases |lines|
  {
    if lines == [] {
      j := 0;
    } else {
      var j0 := FirstFailure(lines[..|lines| - 1]);
      j := FirstFailureStep(lines, j0);
    }
  }

  lemma FirstFailureStep(lines: seq<Line>, j0: nat) returns (j: nat)
    requires lines != []
    requires var pre := lines[..|lines| - 1];
      && (VersesOf(pre).Failure? ==>
        && j0 < |pre| && VerseAt(pre[j0], j0 + 1).Failure? && VersesOf(pre).error == VerseAt(pre[j0], j0 + 1).error
        && forall k :: 0 <= k < j0 ==> VerseAt(pre[k], k + 1).Success?)
      && (VersesOf(pre).Success? ==> forall k :: 0 <= k < |pre| ==> VerseAt(pre[k], k + 1).Success?)
    ensures VersesOf(lines).Failure? ==>
      && j < |lines| && VerseAt(lines[j], j + 1).Failure? && VersesOf(lines).error == VerseAt(lines[j], j + 1).error
      && forall k :: 0 <= k < j ==> VerseAt(lines[k], k + 1).Success?
    ensures VersesOf(lines).Success? ==> forall k :: 0 <= k < |lines| ==> VerseAt(lines[k], k + 1).Success?
  {
    var n := |lines|;
    var pre := lines[..n - 1];
    j := if VersesOf(pre).Failure? then j0 else n - 1;
    if VersesOf(lines).Failure? {
      FailureStep(lines, pre, j);
    } else {
      SuccessStep(lines, pre);
    }
  }

  /** The script stops at line `j + 1` of `lines`, given where it stops in `pre`. */
  lemma FailureStep(lines: seq<Line>, pre: seq<Line>, j: nat)
    requires lines != [] && pre == lines[..|lines| - 1] && VersesOf(lines).Failure?
    requires VersesOf(pre).Failure? ==>
      && j < |pre| && VerseAt(pre[j], j + 1).Failure? && VersesOf(pre).error == VerseAt(pre[j], j + 1).error
      && forall k :: 0 <= k < j ==> VerseAt(pre[k], k + 1).Success?
    requires VersesOf(pre).Success? ==> j == |pre| && forall k :: 0 <= k < |pre| ==> VerseAt(pre[k], k + 1).Success?
    ensures j < |lines| && VerseAt(lines[j], j + 1).Failure? && VersesOf(lines).error == VerseAt(lines[j], j + 1).error
    ensures forall k :: 0 <= k < j ==> VerseAt(lines[k], k + 1).Success?
  {
    assert forall k :: 0 <= k < |pre| ==> pre[k] == lines[k];
    if VersesOf(pre).Failure? {
      assert VersesOf(lines) == VersesOf(pre);
    }
  }

  lemma SuccessStep(lines: seq<Line>, pre: seq<Line>)
    requires lines != [] && pre == lines[..|lines| - 1] && VersesOf(lines).Success?
    requires VersesOf(pre).Success? ==> forall k :: 0 <= k < |pre| ==> VerseAt(pre[k], k + 1).Success?
    ensures forall k :: 0 <= k < |lines| ==> VerseAt(lines[k], k + 1).Success?
  {
    var n := |lines|;
    assert VersesOf(pre).Success? && VerseAt(lines[n - 1], n).Success?;
    forall k | 0 <= k < n
      ensures VerseAt(lines[k], k + 1).Success?
    {
      if k < n - 1 {
        assert pre[k] == lines[k];
      }
    }
  }

  /** The verses of a sequence of verse objects, in order. */
  function Matched(objs: seq<JsonObj>): seq<Verse>
    decreases |objs|
  {
    if objs == [] then [] else Matched(objs[..|objs| - 1]) + MatchedVerse(objs[|objs| - 1])
  }

  /** When the script completes, every line is a verse object with "ref" and
      "translation". */
  lemma {:induction false} VersesOfRecords(lines: seq<Line>)
    requires VersesOf(lines).Success?
    ensures forall j :: 0 <= j < |lines| ==> lines[j].Record? && "ref" in lines[j].obj && "translation" in lines[j].obj
    decreases |lines|
  {
    if lines != [] {
      var n := |lines|;
      var pre := lines[..n - 1];
      assert VersesOf(pre).Success? && VerseAt(lines[n - 1], n).Success?;
      VersesOfRecords(pre);
      forall j | 0 <= j < n
        ensures lines[j].Record? && "ref" in lines[j].obj && "translation" in lines[j].obj
      {
        if j < n - 1 {
          assert lines[j] == pre[j];
        }
      }
    }
  }

  /** When the script completes, its verses are those of the objects whose reference
      matches, in input order. */
  lemma {:induction false} VersesOfMatched(lines: seq<Line>)
    requires VersesOf(lines).Success?
    ensures VersesOf(lines).value == Matched(Records(lines))
    decreases |lines|
  {
    if lines != [] {
      var n := |lines|;
      var pre := lines[..n - 1];
      var last := lines[n - 1];
      var prev := VersesOf(pre);
      assert prev.Success? && VerseAt(last, n).Success?;
      assert last.Record?;
      var obj := last.obj;
      assert VerseAt(last, n).value == MatchedVerse(obj);
      assert VersesOf(lines).value == prev.value + MatchedVerse(obj);
      VersesOfMatched(pre);
      var rs := Records(pre);
      assert Records(lines) == rs + [obj];
      assert (rs + [obj])[..|rs|] == rs;
      assert Matched(rs + [obj]) == Matched(rs) + MatchedVerse(obj);
    }
  }

  function ChapterLine(ch: nat): string {
    "\\c " + NatToString(ch)
  }

  function VerseLine(v: Verse): string {
    "\\v " + NatToString(v.verse) + " " + v.text
  }

  /** The chapter of a verse. */
  const VerseChapter := (x: Verse) => x.chapter

  /** The lines for `vs`: a `\c` line whenever the chapter differs from the previous
      verse's (and before the first), then the `\v` line. */
  function UsfmLines(vs: seq<Verse>): seq<string>
    decreases |vs|
  {
    if vs == [] then []
    else
      var n := |vs|;
      UsfmLines(vs[..n - 1]) + Block(vs[n - 1], StartsRun(Chapters(vs, VerseChapter), n - 1))
  }

  /** A line the loop stops at stops the script. */
  lemma VersesStop(lines: seq<Line>, i: nat, e: InputError)
    requires i < |lines| && VersesOf(lines[..i]).Success? && VerseAt(lines[i], i + 1) == Failure(e)
    ensures VersesOf(lines) == Failure(e)
  {
    VersesNext(lines, i);
    VersesFailureSticks(lines, i + 1);
  }

  /** One more verse object read, by what its reference gives. */
  lemma VersesStep(lines: seq<Line>, i: nat, vs: seq<Verse>)
    requires i < |lines| && VersesOf(lines[..i]) == Success(vs)
    requires lines[i].Record? && "ref" in lines[i].obj && "translation" in lines[i].obj
    ensures var m := MatchGen(lines[i].obj["ref"]);
      VersesOf(lines[..i + 1])
        == Success(if m.None? then vs else vs + [Verse(m.value.0, m.value.1, lines[i].obj["translation"])])
  {
    VersesNext(lines, i);
    var obj := lines[i].obj;
    assert Field(obj, "ref") == obj["ref"] && Field(obj, "translation") == obj["translation"];
    assert VerseAt(lines[i], i + 1) == Success(MatchedVerse(obj));
    if MatchGen(obj["ref"]).None? {
      assert MatchedVerse(obj) == [];
      assert vs + [] == vs;
    }
  }

  /** One verse more: its `\c` line comes exactly when its chapter differs from the
      previous verse's. */
  lemma UsfmLinesStep(vs: seq<Verse>, v: Verse)
    ensures UsfmLines(vs + [v]) == UsfmLines(vs) + Block(v, vs == [] || vs[|vs| - 1].chapter != v.chapter)
  {
    var vs' := vs + [v];
    assert vs'[..|vs|] == vs;
    assert StartsRun(Chapters(vs', VerseChapter), |vs|) <==> (vs == [] || vs[|vs| - 1].chapter != v.chapter);
  }

  /** The lines for one verse: its `\c` line when `head` holds, then its `\v` line. */
  function Block(v: Verse, head: bool): seq<string> {
    (if head then [ChapterLine(v.chapter)] else []) + [VerseLine(v)]
  }

  predicate IsChapterLine(l: string) {
    |l| >= 2 && l[..2] == "\\c"
  }

  /** The `\c` lines among `ls`. */
  function ChapterMarks(ls: seq<string>): seq<string>
    decreases |ls|
  {
    if ls == [] then []
    else ChapterMarks(ls[..|ls| - 1]) + (if IsChapterLine(ls[|ls| - 1]) then [ls[|ls| - 1]] else [])
  }

  /** The other lines among `ls`. */
  function VerseMarks(ls: seq<string>): seq<string>
    decreases |ls|
  {
    if ls == [] then []
    else VerseMarks(ls[..|ls| - 1]) + (if IsChapterLine(ls[|ls| - 1]) then [] else [ls[|ls| - 1]])
  }

  lemma {:induction false} MarksConcat(a: seq<string>, b: seq<string>)
    ensures ChapterMarks(a + b) == ChapterMarks(a) + ChapterMarks(b)
    ensures VerseMarks(a + b) == VerseMarks(a) + VerseMarks(b)
    decreases |b|
  {
    if b != [] {
      assert (a + b)[..|a + b| - 1] == a + b[..|b| - 1];
      MarksConcat(a, b[..|b| - 1]);
    } else {
      assert a + b == a;
    }
  }

  /** The `\c` line of each chapter of `chs`, in order. */
  function ChapterLines(chs: seq<nat>): (ls: seq<string>)
    ensures |ls| == |chs|
    decreases |chs|
  {
    if chs == [] then [] else ChapterLines(chs[..|chs| - 1]) + [ChapterLine(chs[|chs| - 1])]
  }

  /** The `\v` line of each verse of `vs`, in order. */
  function VerseLines(vs: seq<Verse>): (ls: seq<string>)
    ensures |ls| == |vs|
    decreases |vs|
  {
    if vs == [] then [] else VerseLines(vs[..|vs| - 1]) + [VerseLine(vs[|vs| - 1])]
  }

  lemma BlockMarks(v: Verse, head: bool)
    ensures ChapterMarks(Block(v, head)) == if head then [ChapterLine(v.chapter)] else []
    ensures VerseMarks(Block(v, head)) == [VerseLine(v)]
  {
    var vl := VerseLine(v);
    assert vl[..2] == "\\v";
    var one: seq<string> := [vl];
    assert one[..0] == [];
    if head {
      var cl := ChapterLine(v.chapter);
      assert cl[..2] == "\\c";
      var first: seq<string> := [cl];
      assert first[..0] == [];
      MarksConcat(first, one);
    } else {
      assert Block(v, head) == one;
    }
  }

  lemma UsfmLinesNext(vs: seq<Verse>)
    requires vs != []
    ensures var n := |vs|;
      && ChapterMarks(UsfmLines(vs)) == ChapterMarks(UsfmLines(vs[..n - 1])) + (if StartsRun(Chapters(vs, VerseChapter), n - 1) then [ChapterLine(vs[n - 1].chapter)] else [])
      && VerseMarks(UsfmLines(vs)) == VerseMarks(UsfmLines(vs[..n - 1])) + [VerseLine(vs[n - 1])]
  {
    var n := |vs|;
    MarksSnoc(UsfmLines(vs), UsfmLines(vs[..n - 1]), vs[n - 1], StartsRun(Chapters(vs, VerseChapter), n - 1));
  }

  /** The marks of lines that end with one more block. */
  lemma MarksSnoc(ls: seq<string>, pre: seq<string>, v: Verse, head: bool)
    requires ls == pre + Block(v, head)
    ensures ChapterMarks(ls) == ChapterMarks(pre) + (if head then [ChapterLine(v.chapter)] else [])
    ensures VerseMarks(ls) == VerseMarks(pre) + [VerseLine(v)]
  {
    MarksConcat(pre, Block(v, head));
    BlockMarks(v, head);
  }

  lemma ChapterLinesNext(chs: seq<nat>, tail: seq<nat>)
    requires |tail| <= 1
    ensures ChapterLines(chs + tail) == ChapterLines(chs) + (if tail == [] then [] else [ChapterLine(tail[0])])
  {
    if tail == [] {
      assert chs + tail == chs;
    } else {
      assert (chs + tail)[..|chs|] == chs;
    }
  }

  /** The input is not sorted: there is one `\c` line per maximal run of verses with the
      same chapter, in input order, so a chapter that comes back gets a second one. */
  lemma {:induction false} UsfmChapterMarks(vs: seq<Verse>)
    ensures ChapterMarks(UsfmLines(vs)) == ChapterLines(Runs(Chapters(vs, VerseChapter)))
    decreases |vs|
  {
    if vs != [] {
      UsfmChapterMarks(vs[..|vs| - 1]);
      ChapterMarksStep(vs);
    }
  }

  lemma ChapterMarksStep(vs: seq<Verse>)
    requires vs != []
    requires var pre := vs[..|vs| - 1];
      ChapterMarks(UsfmLines(pre)) == ChapterLines(Runs(Chapters(pre, VerseChapter)))
    ensures ChapterMarks(UsfmLines(vs)) == ChapterLines(Runs(Chapters(vs, VerseChapter)))
  {
    var n := |vs|;
    var pre := vs[..n - 1];
    UsfmLinesNext(vs);
    ChaptersNext(vs, VerseChapter);
    var runsPre := Runs(Chapters(pre, VerseChapter));
    var c := vs[n - 1].chapter;
    if StartsRun(Chapters(vs, VerseChapter), n - 1) {
      assert ChapterMarks(UsfmLines(vs)) == ChapterLines(runsPre) + [ChapterLine(c)];
      assert Runs(Chapters(vs, VerseChapter)) == runsPre + [c];
      ChapterLinesNext(runsPre, [c]);
    } else {
      assert ChapterMarks(UsfmLines(vs)) == ChapterLines(runsPre);
      assert Runs(Chapters(vs, VerseChapter)) == runsPre;
    }
  }

  /** Every matching verse yields exactly one `\v` line, in input order. */
  lemma {:induction false} UsfmVerseMarks(vs: seq<Verse>)
    ensures VerseMarks(UsfmLines(vs)) == VerseLines(vs)
    decreases |vs|
  {
    if vs != [] {
      UsfmVerseMarks(vs[..|vs| - 1]);
      UsfmLinesNext(vs);
    }
  }

  lemma {:induction false} VerseLinesAt(vs: seq<Verse>, j: nat)
    requires j < |vs|
    ensures VerseLines(vs)[j] == VerseLine(vs[j])
    decreases |vs|
  {
    var n := |vs|;
    if j < n - 1 {
      VerseLinesAt(vs[..n - 1], j);
      assert vs[..n - 1][j] == vs[j];
    }
  }

  /** A chapter that comes back after another one gets a second `\c` line. */
  lemma ChapterComesBack(a: Verse, b: Verse, c: Verse)
    requires a.chapter == c.chapter != b.chapter
    ensures |ChapterMarks(UsfmLines([a, b, c]))| == 3
  {
    var vs := [a, b, c];
    UsfmChapterMarks(vs);
    assert Chapters(vs, VerseChapter) == [a.chapter, b.chapter, a.chapter];
    RunsComeBack(a.chapter, b.chapter);
  }

  /** The file written: the lines joined by newlines, and one more newline. */
  function UsfmText(ls: seq<string>): string {
    Render.JoinLines(ls) + "\n"
  }

  /** The lines for a matched verse: a `\c` line first when the chapter is not the current
      one, which it then becomes. */
  method EmitVerse(out: seq<string>, current: Option<nat>, chapter: nat, verse: nat, text: string)
    returns (out': seq<string>, current': Option<nat>)
    ensures out' == out + Block(Verse(chapter, verse, text), current != Some(chapter))
    ensures current' == Some(chapter)
  {
    out', current' := out, current;
    if current != Some(chapter) {
      out' := out' + [ChapterLine(chapter)];
      current' := Some(chapter);
    }
    out' := out' + ["\\v " + NatToString(verse) + " " + text];
  }

  /** One turn of the loop of `main`: the checks on line `i + 1`, then the verse it
      holds, if its reference matches, written out. */
  method UsfmLine(lines: seq<Line>, i: nat, ghost vs: seq<Verse>, out: seq<string>, currentChapter: Option<nat>)
    returns (stop: Option<InputError>, out': seq<string>, currentChapter': Option<nat>, ghost vs': seq<Verse>)
    requires i < |lines| && VersesOf(lines[..i]) == Success(vs) && out == UsfmLines(vs)
    requires currentChapter == if vs == [] then None else Some(vs[|vs| - 1].chapter)
    ensures stop.Some? ==> VersesOf(lines) == Failure(stop.value)
    ensures stop.None? ==> VersesOf(lines[..i + 1]) == Success(vs') && out' == UsfmLines(vs')
    ensures stop.None? ==> currentChapter' == if vs' == [] then None else Some(vs'[|vs'| - 1].chapter)
  {
    out', currentChapter', vs' := out, currentChapter, vs;
    if !lines[i].Record? {
      VersesStop(lines, i, BadJson(i + 1));
      return Some(BadJson(i + 1)), out', currentChapter', vs';
    }
    var obj := lines[i].obj;
    if "ref" !in obj {
      VersesStop(lines, i, MissingField(i + 1, "ref"));
      return Some(MissingField(i + 1, "ref")), out', currentChapter', vs';
    }
    if "translation" !in obj {
      VersesStop(lines, i, MissingField(i + 1, "translation"));
      return Some(MissingField(i + 1, "translation")), out', currentChapter', vs';
    }
    stop := None;
    var ref := obj["ref"];
    var text := obj["translation"];
    var m := MatchGen(ref);
    VersesStep(lines, i, vs);
    if m.Some? {
      var chapter := m.value.0;
      var verse := m.value.1;
      ghost var v := Verse(chapter, verse, text);
      UsfmLinesStep(vs, v);
      assert (vs == [] || vs[|vs| - 1].chapter != chapter) <==> currentChapter != Some(chapter);
      out', currentChapter' := EmitVerse(out, currentChapter, chapter, verse, text);
      vs' := vs + [v];
      assert out' == UsfmLines(vs');
    } else {
      assert vs' == vs;
    }
  }

  /** `main`: the loop over the input lines, tracking the current chapter, then the text
      written. Nothing is written when the loop stops with an exception. */
  method UsfmMain(lines: seq<Line>) returns (r: Result<string, InputError>)
    ensures VersesOf(lines).Failure? ==> r == Failure(VersesOf(lines).error)
    ensures VersesOf(lines).Success? ==> r == Success(UsfmText(UsfmLines(VersesOf(lines).value)))
  {
    var out: seq<string> := [];
    var currentChapter: Option<nat> := None;
    ghost var vs: seq<Verse> := [];
    for i := 0 to |lines|
      invariant VersesOf(lines[..i]) == Success(vs)
      invariant out == UsfmLines(vs)
      invariant currentChapter == if vs == [] then None else Some(vs[|vs| - 1].chapter)
    {
      var stop;
      stop, out, currentChapter, vs := UsfmLine(lines, i, vs, out, currentChapter);
      if stop.Some? {
        return Failure(stop.value);
      }
    }
    assert lines[..|lines|] == lines;
    return Success(UsfmText(out));
  }
}
