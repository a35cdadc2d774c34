/** scripts/render_readable.py: reads `{ref, translation}` verse objects, keeps those whose
    reference parses and whose text is not blank, sorts them by chapter and verse, and
    writes a plain-text and a Markdown rendering with one heading per chapter change. */
module Render {
  import opened Wrappers
  import opened Chars
  import opened Jsonl
  import opened ChapterRuns

  // ---------------------------------------------------------------------------------
  // parse_ref

  /** `[A-Z0-9]` */
  predicate IsBookChar(c: char) { IsUpper(c) || IsDigit(c) }

  predicate AllBook(b: string) {
    forall k :: 0 <= k < |b| ==> IsBookChar(b[k])
  }

  predicate AllSpace(w: string) {
    forall k :: 0 <= k < |w| ==> IsSpace(w[k])
  }

  /** The index just past the run of book characters starting at `i`. */
  function BookEnd(s: string, i: nat): (e: nat)
    requires i <= |s|
    ensures i <= e <= |s|
    ensures forall k :: i <= k < e ==> IsBookChar(s[k])
    ensures e < |s| ==> !IsBookChar(s[e])
    decreases |s| - i
  {
    if i < |s| && IsBookChar(s[i]) then BookEnd(s, i + 1) else i
  }

  datatype VerseRef = VerseRef(book: string, chapter: nat, verse: nat)

  /** `REF_RE.match(s)` on a stripped reference: `s` must be a whole match of
      `([A-Z0-9]+)\s+(\d+):(\d+)`. The classes of the pattern do not overlap, so the book
      is the longest run of book characters at the start, and the spaces the run after it. */
  function MatchRef(s: string): Option<VerseRef> {
    var b := BookEnd(s, 0);
    var w := SpaceRunEnd(s, b);
    if b == 0 || w == b then None
    else
      var n := MatchNumbers(s[w..]);
      if n.None? then None else Some(VerseRef(s[..b], n.value.0, n.value.1))
  }

  /** `(\d+):(\d+)` matching all of `rest`: digits up to the first colon, and digits after it. */
  function MatchNumbers(rest: string): Option<(nat, nat)> {
    if ':' !in rest then None
    else
      var i := FirstIndex(rest, ':');
      if IsNumeral(rest[..i]) && IsNumeral(rest[i + 1..]) then Some((DigitsValue(rest[..i]), DigitsValue(rest[i + 1..])))
      else None
  }

  /** `parse_ref` */
  function ParseRef(ref: string): Option<VerseRef> {
    MatchRef(Strip(ref))
  }

  /** `s` is `book`, whitespace `sp`, chapter digits `x`, a colon and verse digits `y`. */
  predicate RefShape(s: string, book: string, sp: string, x: string, y: string) {
    && s == book + sp + x + ":" + y
    && book != [] && AllBook(book) && sp != [] && AllSpace(sp) && IsNumeral(x) && IsNumeral(y)
  }

  /** A match is a whole match of the pattern, with the numbers it read. */
  lemma MatchRefSound(s: string)
    requires MatchRef(s).Some?
    ensures var r := MatchRef(s).value;
      exists sp, x, y :: RefShape(s, r.book, sp, x, y) && r.chapter == DigitsValue(x) && r.verse == DigitsValue(y)
  {
    var b := BookEnd(s, 0);
    var w := SpaceRunEnd(s, b);
    var rest := s[w..];
    var i := NumbersSound(rest);
    var book, sp, x, y := s[..b], s[b..w], rest[..i], rest[i + 1..];
    assert MatchRef(s).value == VerseRef(book, DigitsValue(x), DigitsValue(y));
    HeadParts(s, b, w);
    JoinParts(s, book, sp, rest, x, y);
    assert RefShape(s, book, sp, x, y);
  }

  /** A match of the numbers: digits, the first colon, digits. */
  lemma NumbersSound(rest: string) returns (i: nat)
    requires MatchNumbers(rest).Some?
    ensures i < |rest| && rest == rest[..i] + ":" + rest[i + 1..]
    ensures IsNumeral(rest[..i]) && IsNumeral(rest[i + 1..])
    ensures MatchNumbers(rest).value == (DigitsValue(rest[..i]), DigitsValue(rest[i + 1..]))
  {
    i := FirstIndex(rest, ':');
    assert rest == rest[..i] + [rest[i]] + rest[i + 1..];
  }

  /** The book run and the space run of a match, and what follows them. */
  lemma HeadParts(s: string, b: nat, w: nat)
    requires b == BookEnd(s, 0) && w == SpaceRunEnd(s, b) && b != 0 && w != b
    ensures s[..b] != [] && AllBook(s[..b]) && s[b..w] != [] && AllSpace(s[b..w])
    ensures s == s[..b] + s[b..w] + s[w..]
  {
    assert s[..b] + s[b..w] == s[..w];
  }

  lemma JoinParts(s: string, book: string, sp: string, rest: string, x: string, y: string)
    requires s == book + sp + rest && rest == x + ":" + y
    ensures s == book + sp + x + ":" + y
  {
  }

  lemma BookEndAt(s: string, n: nat)
    requires n < |s| && !IsBookChar(s[n])
    requires forall k :: 0 <= k < n ==> IsBookChar(s[k])
    ensures BookEnd(s, 0) == n
  {
  }

  lemma SpaceEndAt(s: string, b: nat, n: nat)
    requires b <= n < |s| && !IsSpace(s[n])
    requires forall k :: b <= k < n ==> IsSpace(s[k])
    ensures SpaceRunEnd(s, b) == n
  {
  }

  /** Where the parts of a whole match sit. */
  lemma ShapeParts(s: string, book: string, sp: string, x: string, y: string)
    requires RefShape(s, book, sp, x, y)
    ensures |book| + |sp| < |s| && s[..|book|] == book && s[|book| + |sp|..] == x + [':'] + y
    ensures forall k :: 0 <= k < |book| ==> IsBookChar(s[k])
    ensures forall k :: |book| <= k < |book| + |sp| ==> IsSpace(s[k])
    ensures !IsBookChar(s[|book|]) && !IsSpace(s[|book| + |sp|])
  {
    var u := x + [':'] + y;
    assert s == book + (sp + u);
    assert s[..|book|] == book;
    assert s[|book|..] == sp + u;
    assert s[|book| + |sp|..] == u;
    assert s[|book|] == sp[0];
    assert s[|book| + |sp|] == x[0];
    forall k | |book| <= k < |book| + |sp|
      ensures IsSpace(s[k])
    {
      assert s[k] == sp[k - |book|];
    }
  }

  lemma MatchNumbersOf(x: string, y: string)
    requires IsNumeral(x) && IsNumeral(y)
    ensures MatchNumbers(x + [':'] + y) == Some((DigitsValue(x), DigitsValue(y)))
  {
    var u := x + [':'] + y;
    NumeralNoColon(x);
    FirstIndexConcat(x, ':', y);
    assert u[..|x|] == x && u[|x| + 1..] == y;
  }

  lemma NumeralNoColon(x: string)
    requires IsNumeral(x)
    ensures ':' !in x
  {
    forall k | 0 <= k < |x|
      ensures x[k] != ':'
    {
      assert IsDigit(x[k]);
    }
  }

  /** Every whole match of the pattern is matched, to its book and numbers. */
  lemma MatchRefComplete(s: string, book: string, sp: string, x: string, y: string)
    requires RefShape(s, book, sp, x, y)
    ensures MatchRef(s) == Some(VerseRef(book, DigitsValue(x), DigitsValue(y)))
  {
    ShapeParts(s, book, sp, x, y);
    BookEndAt(s, |book|);
    SpaceEndAt(s, |book|, |book| + |sp|);
    MatchNumbersOf(x, y);
    var b := BookEnd(s, 0);
    var w := SpaceRunEnd(s, b);
    assert b == |book| && w == |book| + |sp|;
    assert b != 0 && w != b;
    assert s[w..] == x + [':'] + y;
    assert MatchNumbers(s[w..]) == Some((DigitsValue(x), DigitsValue(y)));
  }

  /** A parsed reference is a whole match of the pattern after stripping, and every such
      match parses, to its book and numbers. */
  lemma ParseRefProperties(ref: string)
    ensures ParseRef(ref).Some? ==>
      var r := ParseRef(ref).value;
      exists sp, x, y :: RefShape(Strip(ref), r.book, sp, x, y) && r.chapter == DigitsValue(x) && r.verse == DigitsValue(y)
    ensures forall book, sp, x, y :: RefShape(Strip(ref), book, sp, x, y) ==>
      ParseRef(ref) == Some(VerseRef(book, DigitsValue(x), DigitsValue(y)))
  {
    if ParseRef(ref).Some? {
      MatchRefSound(Strip(ref));
    }
    forall book, sp, x, y | RefShape(Strip(ref), book, sp, x, y)
      ensures ParseRef(ref) == Some(VerseRef(book, DigitsValue(x), DigitsValue(y)))
    {
      MatchRefComplete(Strip(ref), book, sp, x, y);
    }
  }

  /** A reference written as `book c:v` parses back to its parts. */
  lemma ParseRefFormat(book: string, c: nat, v: nat)
    requires book != [] && AllBook(book)
    ensures ParseRef(book + " " + NatToString(c) + ":" + NatToString(v)) == Some(VerseRef(book, c, v))
  {
    var x, y := NatToString(c), NatToString(v);
    var s := book + " " + x + ":" + y;
    assert s[0] == book[0] && s[|s| - 1] == y[|y| - 1];
    assert IsBookChar(s[0]) && IsDigit(s[|s| - 1]);
    StripTrimmed(s);
    assert RefShape(s, book, " ", x, y);
    MatchRefComplete(s, book, " ", x, y);
  }

  // ---------------------------------------------------------------------------------
  // Reading the rows

  datatype Row = Row(book: string, chapter: nat, verse: nat, text: string)

  /** The row a verse object gives: none when its stripped reference does not parse or its
      stripped translation is empty. */
  function RowOf(obj: JsonObj): Option<Row> {
    var ref := Strip(Field(obj, "ref"));
    var txt := Strip(Field(obj, "translation"));
    var k := ParseRef(ref);
    if k.None? || txt == "" then None else Some(Row(k.value.book, k.value.chapter, k.value.verse, txt))
  }

  /** A verse object is kept exactly when its reference parses and its translation is not
      blank; the row holds the parsed reference and the stripped translation. */
  lemma RowOfProperties(obj: JsonObj)
    ensures RowOf(obj).Some? <==> ParseRef(Field(obj, "ref")).Some? && Strip(Field(obj, "translation")) != ""
    ensures RowOf(obj).Some? ==>
      var r := RowOf(obj).value;
      && VerseRef(r.book, r.chapter, r.verse) == ParseRef(Field(obj, "ref")).value
      && r.text == Strip(Field(obj, "translation")) && r.text != "" && Trimmed(r.text)
  {
    StripTrimmed(Strip(Field(obj, "ref")));
    assert ParseRef(Strip(Field(obj, "ref"))) == ParseRef(Field(obj, "ref"));
  }

  /** The row of a verse object, if it is kept. */
  function KeptRow(obj: JsonObj): seq<Row> {
    var o := RowOf(obj);
    if o.Some? then [o.value] else []
  }

  /** The rows kept from a sequence of verse objects, in order. */
  function Kept(objs: seq<JsonObj>): seq<Row>
    decreases |objs|
  {
    if objs == [] then []
    else
      Kept(objs[..|objs| - 1]) + KeptRow(objs[|objs| - 1])
  }

  /** The reading loop of `main`: blank lines are skipped, a line that is not JSON stops
      the script. */
  function RowsOf(lines: seq<Line>): Result<seq<Row>, InputError>
    decreases |lines|
  {
    if lines == [] then Success([])
    else
      var n := |lines|;
      var prev := RowsOf(lines[..n - 1]);
      if prev.Failure? then prev
      else
        match lines[n - 1]
        case Blank => prev
        case Malformed => Failure(BadJson(n))
        case Record(obj) => Success(prev.value + KeptRow(obj))
  }

  lemma {:induction false} RowsFailureSticks(lines: seq<Line>, n: nat)
    requires n <= |lines| && RowsOf(lines[..n]).Failure?
    ensures RowsOf(lines) == RowsOf(lines[..n])
    decreases |lines| - n
  {
    if n < |lines| {
      assert lines[..n + 1][..n] == lines[..n];
      RowsFailureSticks(lines, n + 1);
    } else {
      assert lines[..n] == lines;
    }
  }

  /** One more line read. */
  lemma RowsOfNext(lines: seq<Line>, i: nat)
    requires i < |lines| && RowsOf(lines[..i]).Success?
    ensures lines[i].Blank? ==> RowsOf(lines[..i + 1]) == RowsOf(lines[..i])
    ensures lines[i].Malformed? ==> RowsOf(lines[..i + 1]) == Failure(BadJson(i + 1))
    ensures lines[i].Record? ==> RowsOf(lines[..i + 1]) == Success(RowsOf(lines[..i]).value + KeptRow(lines[i].obj))
  {
    assert lines[..i + 1][..i] == lines[..i];
  }

  /** Reading stops exactly when some line is not JSON, at the first such line. */
  lemma {:induction false} RowsOfFailure(lines: seq<Line>)
    ensures RowsOf(lines).Failure? <==> exists j :: 0 <= j < |lines| && lines[j].Malformed?
    ensures RowsOf(lines).Failure? ==>
      var n := RowsOf(lines).error.line;
      RowsOf(lines).error == BadJson(n) && 1 <= n <= |lines| && lines[n - 1].Malformed?
      && forall j :: 0 <= j < n - 1 ==> !lines[j].Malformed?
    decreases |lines|
  {
    RowsOfStops(lines);
    if RowsOf(lines).Failure? {
      var n := RowsOf(lines).error.line;
      assert lines[n - 1].Malformed?;
    }
  }

  /** Where reading stops, if it does; a completed read met no malformed line. */
  lemma {:induction false} RowsOfStops(lines: seq<Line>)
    ensures RowsOf(lines).Failure? ==>
      var n := RowsOf(lines).error.line;
      RowsOf(lines).error == BadJson(n) && 1 <= n <= |lines| && lines[n - 1].Malformed?
      && forall j :: 0 <= j < n - 1 ==> !lines[j].Malformed?
    ensures RowsOf(lines).Success? ==> forall j :: 0 <= j < |lines| ==> !lines[j].Malformed?
    decreases |lines|
  {
    if lines != [] {
      var pre := lines[..|lines| - 1];
      RowsOfStops(pre);
      if RowsOf(lines).Failure? {
        RowsFailureStep(lines, pre);
      } else {
        RowsSuccessStep(lines, pre);
      }
    }
  }

  lemma RowsFailureStep(lines: seq<Line>, pre: seq<Line>)
    requires lines != [] && pre == lines[..|lines| - 1] && RowsOf(lines).Failure?
    requires RowsOf(pre).Failure? ==>
      var n := RowsOf(pre).error.line;
      RowsOf(pre).error == BadJson(n) && 1 <= n <= |pre| && pre[n - 1].Malformed?
      && forall j :: 0 <= j < n - 1 ==> !pre[j].Malformed?
    requires RowsOf(pre).Success? ==> forall j :: 0 <= j < |pre| ==> !pre[j].Malformed?
    ensures var n := RowsOf(lines).error.line;
      RowsOf(lines).error == BadJson(n) && 1 <= n <= |lines| && lines[n - 1].Malformed?
      && forall j :: 0 <= j < n - 1 ==> !lines[j].Malformed?
  {
    assert forall j :: 0 <= j < |pre| ==> pre[j] == lines[j];
    if RowsOf(pre).Failure? {
      assert RowsOf(lines) == RowsOf(pre);
    } else {
      assert lines[|lines| - 1].Malformed? && RowsOf(lines) == Failure(BadJson(|lines|));
    }
  }

  lemma RowsSuccessStep(lines: seq<Line>, pre: seq<Line>)
    requires lines != [] && pre == lines[..|lines| - 1] && RowsOf(lines).Success?
    requires RowsOf(pre).Success? ==> forall j :: 0 <= j < |pre| ==> !pre[j].Malformed?
    ensures forall j :: 0 <= j < |lines| ==> !lines[j].Malformed?
  {
    var n := |lines|;
    assert RowsOf(pre).Success? && !lines[n - 1].Malformed?;
    forall j | 0 <= j < n
      ensures !lines[j].Malformed?
    {
      if j < n - 1 {
        assert pre[j] == lines[j];
      }
    }
  }

  /** A completed read holds the rows kept from the verse objects, in order. */
  lemma {:induction false} RowsOfKept(lines: seq<Line>)
    requires RowsOf(lines).Success?
    ensures RowsOf(lines).value == Kept(Records(lines))
    decreases |lines|
  {
    if lines != [] {
      var n := |lines|;
      var pre := lines[..n - 1];
      RowsOfKept(pre);
      var rs := Records(pre);
      match lines[n - 1]
      case Record(obj) =>
        assert Records(lines) == rs + [obj];
        assert (rs + [obj])[..|rs|] == rs;
      case Blank =>
        assert Records(lines) == rs;
      case Malformed =>
    }
  }

  /** The reading loop of `main`. */
  method ReadRows(lines: seq<Line>) returns (r: Result<seq<Row>, InputError>)
    ensures r == RowsOf(lines)
  {
    var rows: seq<Row> := [];
    for i := 0 to |lines|
      invariant RowsOf(lines[..i]) == Success(rows)
    {
      RowsOfNext(lines, i);
      if lines[i].Malformed? {
        RowsFailureSticks(lines, i + 1);
        return Failure(BadJson(i + 1));
      }
      if lines[i].Record? {
        var row := RowOf(lines[i].obj);
        assert KeptRow(lines[i].obj) == if row.Some? then [row.value] else [];
        if row.Some? {
          rows := rows + [row.value];
        } else {
          assert rows + KeptRow(lines[i].obj) == rows;
        }
      }
    }
    assert lines[..|lines|] == lines;
    return Success(rows);
  }

  // ---------------------------------------------------------------------------------
  // Sorting: `rows.sort(key=lambda x: (x[1], x[2]))`, a stable sort on chapter and verse

  predicate RowLe(a: Row, b: Row) {
    a.chapter < b.chapter || (a.chapter == b.chapter && a.verse <= b.verse)
  }

  predicate RowsSorted(rows: seq<Row>) {
    forall i, j :: 0 <= i < j < |rows| ==> RowLe(rows[i], rows[j])
  }

  /** The rows with chapter `c` and verse `v`, in order. */
  function WithKey(rows: seq<Row>, c: nat, v: nat): seq<Row>
    decreases |rows|
  {
    if rows == [] then []
    else
      var last := rows[|rows| - 1];
      WithKey(rows[..|rows| - 1], c, v) + (if last.chapter == c && last.verse == v then [last] else [])
  }

  /** Places `r` after every row of `sorted` whose key is not greater. */
  function InsertRow(sorted: seq<Row>, r: Row): seq<Row>
    decreases |sorted|
  {
    if sorted == [] || RowLe(sorted[|sorted| - 1], r) then sorted + [r]
    else InsertRow(sorted[..|sorted| - 1], r) + [sorted[|sorted| - 1]]
  }

  /** Python's sort as an insertion sort, which is stable. */
  function SortRows(rows: seq<Row>): seq<Row>
    decreases |rows|
  {
    if rows == [] then [] else InsertRow(SortRows(rows[..|rows| - 1]), rows[|rows| - 1])
  }

  lemma {:induction false} WithKeyConcat(a: seq<Row>, b: seq<Row>, c: nat, v: nat)
    ensures WithKey(a + b, c, v) == WithKey(a, c, v) + WithKey(b, c, v)
    decreases |b|
  {
    if b != [] {
      var n := |b|;
      assert (a + b)[..|a + b| - 1] == a + b[..n - 1];
      WithKeyConcat(a, b[..n - 1], c, v);
    } else {
      assert a + b == a;
    }
  }

  lemma {:induction false} InsertRowMultiset(sorted: seq<Row>, r: Row)
    ensures multiset(InsertRow(sorted, r)) == multiset(sorted) + multiset{r}
    decreases |sorted|
  {
    if sorted != [] && !RowLe(sorted[|sorted| - 1], r) {
      var pre := sorted[..|sorted| - 1];
      InsertRowMultiset(pre, r);
      assert sorted == pre + [sorted[|sorted| - 1]];
    }
  }

  lemma {:induction false} InsertRowSorted(sorted: seq<Row>, r: Row)
    requires RowsSorted(sorted)
    ensures RowsSorted(InsertRow(sorted, r))
    decreases |sorted|
  {
    if sorted != [] && !RowLe(sorted[|sorted| - 1], r) {
      var n := |sorted|;
      var pre := sorted[..n - 1];
      var last := sorted[n - 1];
      InsertRowSorted(pre, r);
      InsertRowMultiset(pre, r);
      var ins := InsertRow(pre, r);
      var out := ins + [last];
      forall i, j | 0 <= i < j < |out|
        ensures RowLe(out[i], out[j])
      {
        if j == |out| - 1 {
          assert out[i] in multiset(pre) + multiset{r} by {
            assert out[i] in multiset(ins);
          }
          if out[i] != r {
            assert out[i] in pre;
          }
        }
      }
    }
  }

  lemma WithKeyOne(r: Row, c: nat, v: nat)
    ensures WithKey([r], c, v) == if r.chapter == c && r.verse == v then [r] else []
  {
    assert [r][..0] == [];
  }

  /** Rows with the same chapter and verse keep their order through an insertion. */
  lemma {:induction false} InsertRowStable(sorted: seq<Row>, r: Row, c: nat, v: nat)
    ensures WithKey(InsertRow(sorted, r), c, v) == WithKey(sorted, c, v) + WithKey([r], c, v)
    decreases |sorted|
  {
    if sorted == [] || RowLe(sorted[|sorted| - 1], r) {
      WithKeyConcat(sorted, [r], c, v);
    } else {
      var n := |sorted|;
      var pre := sorted[..n - 1];
      var last := sorted[n - 1];
      assert sorted == pre + [last];
      InsertRowStable(pre, r, c, v);
      WithKeyConcat(InsertRow(pre, r), [last], c, v);
      WithKeyConcat(pre, [last], c, v);
      WithKeyOne(r, c, v);
      WithKeyOne(last, c, v);
    }
  }

  /** The sort puts the rows in chapter and verse order, keeps every row, and keeps rows
      with the same chapter and verse in their input order (the sort is stable; the book
      plays no part). */
  lemma {:induction false} SortRowsProperties(rows: seq<Row>)
    ensures RowsSorted(SortRows(rows))
    ensures multiset(SortRows(rows)) == multiset(rows)
    ensures forall c, v :: WithKey(SortRows(rows), c, v) == WithKey(rows, c, v)
    decreases |rows|
  {
    if rows != [] {
      var n := |rows|;
      var pre := rows[..n - 1];
      SortRowsProperties(pre);
      InsertRowSorted(SortRows(pre), rows[n - 1]);
      InsertRowMultiset(SortRows(pre), rows[n - 1]);
      assert rows == pre + [rows[n - 1]];
      forall c, v
        ensures WithKey(SortRows(rows), c, v) == WithKey(rows, c, v)
      {
        InsertRowStable(SortRows(pre), rows[n - 1], c, v);
        WithKeyConcat(pre, [rows[n - 1]], c, v);
      }
    }
  }

  // ---------------------------------------------------------------------------------
  // Writing the lines

  datatype Style = Txt | Md

  /** The chapter heading line of each rendering. */
  function HeadingLine(style: Style, ch: nat): (l: string)
    ensures l != [] && l[0] == '\n'
  {
    match style
    case Txt => "\nCHAPTER " + NatToString(ch) + "\n"
    case Md => "\n## Chapter " + NatToString(ch) + "\n"
  }

  /** The verse line of each rendering. */
  function VerseLine(style: Style, vs: nat, txt: string): (l: string)
    ensures l != [] && l[0] != '\n'
  {
    match style
    case Txt => NatToString(vs) + " " + txt
    case Md => "**" + NatToString(vs) + "** " + txt
  }

  /** The chapter of a row. */
  const RowChapter := (x: Row) => x.chapter

  /** The lines the loop of `main` appends for `rows`: a heading whenever the chapter
      differs from the previous row's, then the verse line. */
  function Lines(rows: seq<Row>, style: Style): seq<string>
    decreases |rows|
  {
    if rows == [] then []
    else
      var n := |rows|;
      Lines(rows[..n - 1], style) + Block(style, rows[n - 1], StartsRun(Chapters(rows, RowChapter), n - 1))
  }

  /** The lines for one row: its chapter heading when `head` holds, then its verse line. */
  function Block(style: Style, r: Row, head: bool): seq<string> {
    (if head then [HeadingLine(style, r.chapter)] else []) + [VerseLine(style, r.verse, r.text)]
  }

  /** `# {title}`, only for a non-empty title. */
  function TitleLines(title: string): seq<string> {
    if title == "" then [] else ["# " + title + "\n"]
  }

  /** The heading lines among `ls`. */
  function Headings(ls: seq<string>): seq<string>
    decreases |ls|
  {
    if ls == [] then []
    else
      var l := ls[|ls| - 1];
      Headings(ls[..|ls| - 1]) + (if l != [] && l[0] == '\n' then [l] else [])
  }

  /** The other lines among `ls`. */
  function Verses(ls: seq<string>): seq<string>
    decreases |ls|
  {
    if ls == [] then []
    else
      var l := ls[|ls| - 1];
      Verses(ls[..|ls| - 1]) + (if l != [] && l[0] == '\n' then [] else [l])
  }

  lemma {:induction false} FiltersConcat(a: seq<string>, b: seq<string>)
    ensures Headings(a + b) == Headings(a) + Headings(b)
    ensures Verses(a + b) == Verses(a) + Verses(b)
    decreases |b|
  {
    if b != [] {
      assert (a + b)[..|a + b| - 1] == a + b[..|b| - 1];
      FiltersConcat(a, b[..|b| - 1]);
    } else {
      assert a + b == a;
    }
  }

  lemma BlockFilters(style: Style, r: Row, head: bool)
    ensures Headings(Block(style, r, head)) == if head then [HeadingLine(style, r.chapter)] else []
    ensures Verses(Block(style, r, head)) == [VerseLine(style, r.verse, r.text)]
  {
    var vl := VerseLine(style, r.verse, r.text);
    assert [vl][..0] == [];
    if head {
      var h := HeadingLine(style, r.chapter);
      assert [h][..0] == [];
      FiltersConcat([h], [vl]);
    } else {
      assert Block(style, r, head) == [vl];
    }
  }

  /** One more row rendered. */
  lemma LinesNext(rows: seq<Row>, style: Style)
    requires rows != []
    ensures var n := |rows|;
      && Headings(Lines(rows, style)) == Headings(Lines(rows[..n - 1], style)) + (if StartsRun(Chapters(rows, RowChapter), n - 1) then [HeadingLine(style, rows[n - 1].chapter)] else [])
      && Verses(Lines(rows, style)) == Verses(Lines(rows[..n - 1], style)) + [VerseLine(style, rows[n - 1].verse, rows[n - 1].text)]
  {
    var n := |rows|;
    FiltersSnoc(style, Lines(rows, style), Lines(rows[..n - 1], style), rows[n - 1], StartsRun(Chapters(rows, RowChapter), n - 1));
  }

  /** The headings and verse lines of lines that end with one more block. */
  lemma FiltersSnoc(style: Style, ls: seq<string>, pre: seq<string>, r: Row, head: bool)
    requires ls == pre + Block(style, r, head)
    ensures Headings(ls) == Headings(pre) + (if head then [HeadingLine(style, r.chapter)] else [])
    ensures Verses(ls) == Verses(pre) + [VerseLine(style, r.verse, r.text)]
  {
    FiltersConcat(pre, Block(style, r, head));
    BlockFilters(style, r, head);
  }

  /** The heading line of each chapter of `chs`, in order. */
  function HeadingLines(chs: seq<nat>, style: Style): (ls: seq<string>)
    ensures |ls| == |chs|
    decreases |chs|
  {
    if chs == [] then []
    else HeadingLines(chs[..|chs| - 1], style) + [HeadingLine(style, chs[|chs| - 1])]
  }

  lemma {:induction false} HeadingLinesAt(chs: seq<nat>, style: Style, k: nat)
    requires k < |chs|
    ensures HeadingLines(chs, style)[k] == HeadingLine(style, chs[k])
    decreases |chs|
  {
    var n := |chs|;
    var pre := HeadingLines(chs[..n - 1], style);
    assert HeadingLines(chs, style) == pre + [HeadingLine(style, chs[n - 1])];
    if k < n - 1 {
      HeadingLinesAt(chs[..n - 1], style, k);
      assert chs[..n - 1][k] == chs[k];
    }
    SnocAt(pre, HeadingLine(style, chs[n - 1]), k);
  }

  lemma SnocAt<T>(xs: seq<T>, x: T, k: nat)
    requires k <= |xs|
    ensures (xs + [x])[k] == if k < |xs| then xs[k] else x
  {
  }

  lemma HeadingLinesNext(chs: seq<nat>, style: Style, tail: seq<nat>)
    requires |tail| <= 1
    ensures HeadingLines(chs + tail, style) == HeadingLines(chs, style) + (if tail == [] then [] else [HeadingLine(style, tail[0])])
  {
    if tail == [] {
      assert chs + tail == chs;
    } else {
      assert (chs + tail)[..|chs|] == chs;
    }
  }

  /** The headings of a rendering are one per run of equal chapters, in order: one per
      chapter change, and the first row always gets one. */
  lemma {:induction false} LinesHeadings(rows: seq<Row>, style: Style)
    ensures Headings(Lines(rows, style)) == HeadingLines(Runs(Chapters(rows, RowChapter)), style)
    decreases |rows|
  {
    if rows != [] {
      LinesHeadings(rows[..|rows| - 1], style);
      LinesHeadingsStep(rows, style);
    }
  }

  lemma LinesHeadingsStep(rows: seq<Row>, style: Style)
    requires rows != []
    requires var pre := rows[..|rows| - 1];
      Headings(Lines(pre, style)) == HeadingLines(Runs(Chapters(pre, RowChapter)), style)
    ensures Headings(Lines(rows, style)) == HeadingLines(Runs(Chapters(rows, RowChapter)), style)
  {
    var n := |rows|;
    var pre := rows[..n - 1];
    LinesNext(rows, style);
    ChaptersNext(rows, RowChapter);
    var runsPre := Runs(Chapters(pre, RowChapter));
    var c := rows[n - 1].chapter;
    if StartsRun(Chapters(rows, RowChapter), n - 1) {
      assert Headings(Lines(rows, style)) == HeadingLines(runsPre, style) + [HeadingLine(style, c)];
      assert Runs(Chapters(rows, RowChapter)) == runsPre + [c];
      HeadingLinesNext(runsPre, style, [c]);
    } else {
      assert Headings(Lines(rows, style)) == HeadingLines(runsPre, style);
      assert Runs(Chapters(rows, RowChapter)) == runsPre;
    }
  }

  /** The verse line of each row, in row order. */
  function VerseLines(rows: seq<Row>, style: Style): (ls: seq<string>)
    ensures |ls| == |rows|
    decreases |rows|
  {
    if rows == [] then []
    else VerseLines(rows[..|rows| - 1], style) + [VerseLine(style, rows[|rows| - 1].verse, rows[|rows| - 1].text)]
  }

  lemma {:induction false} VerseLinesAt(rows: seq<Row>, style: Style, j: nat)
    requires j < |rows|
    ensures VerseLines(rows, style)[j] == VerseLine(style, rows[j].verse, rows[j].text)
    decreases |rows|
  {
    var n := |rows|;
    var pre := VerseLines(rows[..n - 1], style);
    var last := VerseLine(style, rows[n - 1].verse, rows[n - 1].text);
    assert VerseLines(rows, style) == pre + [last];
    if j < n - 1 {
      VerseLinesAt(rows[..n - 1], style, j);
      assert rows[..n - 1][j] == rows[j];
      assert (pre + [last])[j] == pre[j];
    }
  }

  /** Every row yields exactly one verse line, in row order. */
  lemma {:induction false} LinesVerses(rows: seq<Row>, style: Style)
    ensures Verses(Lines(rows, style)) == VerseLines(rows, style)
    decreases |rows|
  {
    if rows != [] {
      LinesVerses(rows[..|rows| - 1], style);
      LinesVersesStep(rows, style);
    }
  }

  lemma LinesVersesStep(rows: seq<Row>, style: Style)
    requires rows != []
    requires var pre := rows[..|rows| - 1];
      Verses(Lines(pre, style)) == VerseLines(pre, style)
    ensures Verses(Lines(rows, style)) == VerseLines(rows, style)
  {
    var n := |rows|;
    var pre := rows[..n - 1];
    LinesNext(rows, style);
    var vl := VerseLine(style, rows[n - 1].verse, rows[n - 1].text);
    assert Verses(Lines(rows, style)) == Verses(Lines(pre, style)) + [vl];
    assert VerseLines(rows, style) == VerseLines(pre, style) + [vl];
  }

  /** After the sort, every chapter of the rows gets exactly one heading, and the headings
      come in increasing chapter order. */
  lemma OneHeadingPerChapter(rows: seq<Row>)
    requires RowsSorted(rows)
    ensures Increasing(Runs(Chapters(rows, RowChapter)))
    ensures forall c :: c in Runs(Chapters(rows, RowChapter)) <==> exists j :: 0 <= j < |rows| && rows[j].chapter == c
  {
    RunsOfNonDecreasing(Chapters(rows, RowChapter));
    RunsProperties(Chapters(rows, RowChapter));
    forall c
      ensures c in Chapters(rows, RowChapter) <==> exists j :: 0 <= j < |rows| && rows[j].chapter == c
    {
      if c in Chapters(rows, RowChapter) {
        var j :| 0 <= j < |rows| && Chapters(rows, RowChapter)[j] == c;
      }
    }
  }

  /** `"\n".join(lines)` */
  function JoinLines(ls: seq<string>): string {
    if ls == [] then "" else Join(ls, '\n')
  }

  /** What is written: the joined lines, stripped, and one newline. */
  function Document(ls: seq<string>): (d: string)
    ensures |d| >= 1 && d[|d| - 1] == '\n' && Trimmed(d[..|d| - 1])
    ensures |d| >= 2 ==> !IsSpace(d[|d| - 2])
  {
    var body := Strip(JoinLines(ls));
    assert (body + "\n")[..|body|] == body;
    body + "\n"
  }

  /** The loop of `main` that builds both renderings, tracking the current chapter. */
  method RenderLines(rows: seq<Row>, title: string) returns (outTxt: seq<string>, outMd: seq<string>)
    ensures outTxt == Lines(rows, Txt)
    ensures outMd == TitleLines(title) + Lines(rows, Md)
  {
    outTxt := [];
    outMd := [];
    if title != "" {
      outMd := outMd + ["# " + title + "\n"];
    }
    var curCh: Option<nat> := None;
    for i := 0 to |rows|
      invariant outTxt == Lines(rows[..i], Txt)
      invariant outMd == TitleLines(title) + Lines(rows[..i], Md)
      invariant curCh == if i == 0 then None else Some(rows[i - 1].chapter)
    {
      ghost var head := curCh != Some(rows[i].chapter);
      LinesSnoc(rows, i, Txt, head);
      LinesSnoc(rows, i, Md, head);
      AppendAssoc(TitleLines(title), Lines(rows[..i], Md), Block(Md, rows[i], head));
      outTxt, outMd, curCh := RenderRow(outTxt, outMd, curCh, rows[i]);
    }
    assert rows[..|rows|] == rows;
  }

  /** One turn of the loop of `main`: a heading when the chapter changes, then the verse. */
  method RenderRow(outTxt: seq<string>, outMd: seq<string>, curCh: Option<nat>, row: Row)
    returns (outTxt': seq<string>, outMd': seq<string>, curCh': Option<nat>)
    ensures outTxt' == outTxt + Block(Txt, row, curCh != Some(row.chapter))
    ensures outMd' == outMd + Block(Md, row, curCh != Some(row.chapter))
    ensures curCh' == Some(row.chapter)
  {
    outTxt', outMd', curCh' := outTxt, outMd, curCh;
    if curCh != Some(row.chapter) {
      curCh' := Some(row.chapter);
      outTxt' := outTxt' + [HeadingLine(Txt, row.chapter)];
      outMd' := outMd' + [HeadingLine(Md, row.chapter)];
    }
    outTxt' := outTxt' + [VerseLine(Txt, row.verse, row.text)];
    outMd' := outMd' + [VerseLine(Md, row.verse, row.text)];
    curCh' := Some(row.chapter);
  }

  lemma AppendAssoc(a: seq<string>, b: seq<string>, c: seq<string>)
    ensures a + b + c == a + (b + c)
  {
  }

  /** The lines for one more row. */
  lemma LinesSnoc(rows: seq<Row>, i: nat, style: Style, head: bool)
    requires i < |rows| && head == (i == 0 || rows[i - 1].chapter != rows[i].chapter)
    ensures Lines(rows[..i + 1], style) == Lines(rows[..i], style) + Block(style, rows[i], head)
  {
    assert rows[..i + 1][..i] == rows[..i];
    assert StartsRun(Chapters(rows[..i + 1], RowChapter), i) == head;
  }

  /** `main`: read the rows, sort them, and render both documents. */
  method RenderMain(lines: seq<Line>, title: string) returns (r: Result<(string, string), InputError>)
    ensures r.Failure? <==> RowsOf(lines).Failure?
    ensures r.Failure? ==> r.error == RowsOf(lines).error
    ensures r.Success? ==>
      var rows := SortRows(RowsOf(lines).value);
      r.value == (Document(Lines(rows, Txt)), Document(TitleLines(title) + Lines(rows, Md)))
  {
    var read := ReadRows(lines);
    if read.Failure? {
      return Failure(read.error);
    }
    var rows := SortRows(read.value);
    var outTxt, outMd := RenderLines(rows, title);
    return Success((Document(outTxt), Document(outMd)));
  }
}
