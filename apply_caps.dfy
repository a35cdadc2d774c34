/** scripts/apply_caps.py: read the reviewed worksheet, keep the approved rewrites (the last
    approval of a reference wins), then write every verse of the book with its approved
    text, counting the verses and the verses whose text changed. */
module ApplyCaps {
  import opened Wrappers
  import opened Chars
  import opened Jsonl

  /** A CSV file as `csv.DictReader` sees it: the header row, then one map per data row
      from column name to cell (a short row simply lacks the trailing columns). */
  datatype Csv = Csv(header: seq<string>, rows: seq<map<string, string>>)

  const Required: seq<string> := ["decision", "ref", "original", "suggested"]

  /** The message of the `ValueError` raised for a worksheet without the four columns
      (Python prints the sorted list). */
  const MissingColumns: string := "CSV must contain columns: ['decision', 'original', 'ref', 'suggested']"

  predicate HasColumns(header: seq<string>) {
    forall c :: c in Required ==> c in header
  }

  /** `row.get(key) or ""` */
  function Cell(row: map<string, string>, key: string): string {
    if key in row then row[key] else ""
  }

  /** What one worksheet row adds to the approved map: its stripped reference and its
      suggested text, when its decision is APPROVE (in any case, once stripped) and the
      reference is not blank. */
  function Approval(row: map<string, string>): (e: Option<(string, string)>)
    ensures e.Some? <==> Upper(Strip(Cell(row, "decision"))) == "APPROVE" && Strip(Cell(row, "ref")) != ""
    ensures e.Some? ==> e.value == (Strip(Cell(row, "ref")), Cell(row, "suggested"))
  {
    if Upper(Strip(Cell(row, "decision"))) != "APPROVE" then None
    else
      var ref := Strip(Cell(row, "ref"));
      if ref == "" then None else Some((ref, Cell(row, "suggested")))
  }

  function Approvals(rows: seq<map<string, string>>): (es: seq<Option<(string, string)>>)
    ensures |es| == |rows| && forall j :: 0 <= j < |rows| ==> es[j] == Approval(rows[j])
  {
    seq(|rows|, j requires 0 <= j < |rows| => Approval(rows[j]))
  }

  /** What `read_approved` returns. */
  function ApprovedMap(csv: Csv): Result<map<string, string>, string> {
    if !HasColumns(csv.header) then Failure(MissingColumns)
    else Success(InsertAll(Approvals(csv.rows)))
  }

  lemma InsertAllSnoc(es: seq<Option<(string, string)>>, i: nat)
    requires i < |es|
    ensures es[i].None? ==> InsertAll(es[..i + 1]) == InsertAll(es[..i])
    ensures es[i].Some? ==> InsertAll(es[..i + 1]) == InsertAll(es[..i])[es[i].value.0 := es[i].value.1]
  {
    assert es[..i + 1][..i] == es[..i];
  }

  /** `read_approved` */
  method ReadApproved(csv: Csv) returns (r: Result<map<string, string>, string>)
    ensures r == ApprovedMap(csv)
  {
    if !(forall c :: c in Required ==> c in csv.header) {
      return Failure(MissingColumns);
    }
    var approved: map<string, string> := map[];
    for i := 0 to |csv.rows|
      invariant approved == InsertAll(Approvals(csv.rows[..i]))
    {
      ghost var es := Approvals(csv.rows);
      assert es[..i + 1] == Approvals(csv.rows[..i + 1]) && es[..i] == Approvals(csv.rows[..i]);
      InsertAllSnoc(es, i);
      var row := csv.rows[i];
      var decision := Upper(Strip(Cell(row, "decision")));
      if decision != "APPROVE" {
        continue;
      }
      var ref := Strip(Cell(row, "ref"));
      var suggested := Cell(row, "suggested");
      if ref == "" {
        continue;
      }
      approved := approved[ref := suggested];
    }
    assert csv.rows[..|csv.rows|] == csv.rows;
    return Success(approved);
  }

  /** Row `j` approves `ref`. */
  predicate ApprovesAt(rows: seq<map<string, string>>, j: nat, ref: string)
    requires j < |rows|
  {
    Upper(Strip(Cell(rows[j], "decision"))) == "APPROVE" && Strip(Cell(rows[j], "ref")) == ref && ref != ""
  }

  /** The worksheet is refused exactly when a required column is missing; otherwise the
      map holds exactly the references some row approves, each with the suggested text of
      the last row approving it. */
  lemma ApprovedMapProperties(csv: Csv)
    ensures ApprovedMap(csv).Failure? <==> exists c :: c in Required && c !in csv.header
    ensures ApprovedMap(csv).Success? ==>
      && (forall ref :: ref in ApprovedMap(csv).value <==> exists j :: 0 <= j < |csv.rows| && ApprovesAt(csv.rows, j, ref))
      && (forall j, ref :: 0 <= j < |csv.rows| && ApprovesAt(csv.rows, j, ref)
            && (forall j' :: j < j' < |csv.rows| ==> !ApprovesAt(csv.rows, j', ref))
            ==> ApprovedMap(csv).value[ref] == Cell(csv.rows[j], "suggested"))
  {
    if HasColumns(csv.header) {
      var rows := csv.rows;
      var es := Approvals(rows);
      var m := InsertAll(es);
      assert ApprovedMap(csv) == Success(m);
      InsertAllLastWins(es);
      forall ref
        ensures ref in m <==> exists j :: 0 <= j < |rows| && ApprovesAt(rows, j, ref)
      {
        if ref in m {
          var j :| 0 <= j < |es| && KeyAt(es, j, ref);
          ApprovesKey(rows, j, ref);
        } else {
          forall j | 0 <= j < |rows|
            ensures !ApprovesAt(rows, j, ref)
          {
            ApprovesKey(rows, j, ref);
          }
        }
      }
      forall j, ref | 0 <= j < |rows| && ApprovesAt(rows, j, ref) && (forall j' :: j < j' < |rows| ==> !ApprovesAt(rows, j', ref))
        ensures m[ref] == Cell(rows[j], "suggested")
      {
        ApprovesKey(rows, j, ref);
        forall j' | j < j' < |es|
          ensures !KeyAt(es, j', ref)
        {
          ApprovesKey(rows, j', ref);
        }
        assert LastKeyAt(es, j, ref);
      }
    }
  }

  lemma ApprovesKey(rows: seq<map<string, string>>, j: nat, ref: string)
    requires j < |rows|
    ensures ApprovesAt(rows, j, ref) <==> KeyAt(Approvals(rows), j, ref)
    ensures KeyAt(Approvals(rows), j, ref) ==> Approvals(rows)[j].value.1 == Cell(rows[j], "suggested")
  {
  }

  /** The book after the pass, with its two counters. */
  datatype Applied = Applied(out: seq<JsonObj>, total: nat, changed: nat)

  /** One verse object after the pass: an approved reference (taken as written, not
      stripped) gets the approved text, everything else stays as it was. */
  function ApplyObj(obj: JsonObj, approved: map<string, string>): (o: JsonObj)
    ensures Field(obj, "ref") !in approved ==> o == obj
    ensures Field(obj, "ref") in approved ==> Field(o, "translation") == approved[Field(obj, "ref")]
    ensures forall k :: k != "translation" ==> (k in o <==> k in obj) && (k in obj ==> o[k] == obj[k])
    ensures o != obj <==> Field(o, "translation") != Field(obj, "translation")
  {
    var ref := Field(obj, "ref");
    if ref in approved && Field(obj, "translation") != approved[ref] then obj["translation" := approved[ref]]
    else obj
  }

  function ApplyStep(a: Applied, obj: JsonObj, approved: map<string, string>): Applied {
    var o := ApplyObj(obj, approved);
    Applied(a.out + [o], a.total + 1, if o != obj then a.changed + 1 else a.changed)
  }

  /** `apply`, line by line: blank lines are skipped, a line that is not JSON stops the
      pass. */
  function RunApply(lines: seq<Line>, approved: map<string, string>): Result<Applied, InputError>
    decreases |lines|
  {
    if lines == [] then Success(Applied([], 0, 0))
    else
      var n := |lines|;
      var prev := RunApply(lines[..n - 1], approved);
      if prev.Failure? then prev
      else
        match lines[n - 1]
        case Blank => prev
        case Malformed => Failure(BadJson(n))
        case Record(obj) => Success(ApplyStep(prev.value, obj, approved))
  }

  lemma {:induction false} ApplyFailureSticks(lines: seq<Line>, approved: map<string, string>, n: nat)
    requires n <= |lines| && RunApply(lines[..n], approved).Failure?
    ensures RunApply(lines, approved) == RunApply(lines[..n], approved)
    decreases |lines| - n
  {
    if n < |lines| {
      assert lines[..n + 1][..n] == lines[..n];
      ApplyFailureSticks(lines, approved, n + 1);
    } else {
      assert lines[..n] == lines;
    }
  }

  /** `apply` */
  method Apply(lines: seq<Line>, approved: map<string, string>) returns (r: Result<Applied, InputError>)
    ensures r == RunApply(lines, approved)
  {
    var out: seq<JsonObj> := [];
    var total, changed := 0, 0;
    for i := 0 to |lines|
      invariant RunApply(lines[..i], approved) == Success(Applied(out, total, changed))
    {
      assert lines[..i + 1][..i] == lines[..i];
      var line := lines[i];
      if line.Blank? {
        continue;
      }
      if line.Malformed? {
        ApplyFailureSticks(lines, approved, i + 1);
        return Failure(BadJson(i + 1));
      }
      var obj := line.obj;
      total := total + 1;
      var ref := Field(obj, "ref");
      if ref in approved {
        var before := Field(obj, "translation");
        var after := approved[ref];
        if before != after {
          obj := obj["translation" := after];
          changed := changed + 1;
        }
      }
      out := out + [obj];
    }
    assert lines[..|lines|] == lines;
    return Success(Applied(out, total, changed));
  }

  /** The pass over the verse objects alone. */
  function ApplyAll(rs: seq<JsonObj>, approved: map<string, string>): Applied
    decreases |rs|
  {
    if rs == [] then Applied([], 0, 0) else ApplyStep(ApplyAll(rs[..|rs| - 1], approved), rs[|rs| - 1], approved)
  }

  /** The indices of the objects the pass changes. */
  function ChangedAt(rs: seq<JsonObj>, approved: map<string, string>): set<nat> {
    set j: nat | j < |rs| && ApplyObj(rs[j], approved) != rs[j]
  }

  lemma {:induction false} RunApplyIsApplyAll(lines: seq<Line>, approved: map<string, string>)
    requires RunApply(lines, approved).Success?
    ensures RunApply(lines, approved).value == ApplyAll(Records(lines), approved)
    decreases |lines|
  {
    if lines != [] {
      var n := |lines|;
      var pre := lines[..n - 1];
      RunApplyIsApplyAll(pre, approved);
      if lines[n - 1].Record? {
        var rs := Records(lines);
        assert rs == Records(pre) + [lines[n - 1].obj];
        assert rs[..|rs| - 1] == Records(pre);
        assert ApplyAll(rs, approved) == ApplyStep(ApplyAll(Records(pre), approved), lines[n - 1].obj, approved);
      } else {
        assert Records(lines) == Records(pre);
      }
    }
  }

  lemma {:induction false} ApplySucceeding(lines: seq<Line>, approved: map<string, string>)
    requires RunApply(lines, approved).Success?
    ensures forall j :: 0 <= j < |lines| ==> !lines[j].Malformed?
    decreases |lines|
  {
    if lines != [] {
      var n := |lines|;
      var pre := lines[..n - 1];
      ApplySucceeding(pre, approved);
      assert forall j :: 0 <= j < n - 1 ==> lines[j] == pre[j];
    }
  }

  lemma ChangedAtSnoc(rs: seq<JsonObj>, approved: map<string, string>)
    requires rs != []
    ensures var n := |rs|;
      ChangedAt(rs, approved) == ChangedAt(rs[..n - 1], approved) + (if ApplyObj(rs[n - 1], approved) != rs[n - 1] then {n - 1} else {})
  {
    var n := |rs|;
    var pre := rs[..n - 1];
    assert forall j :: 0 <= j < n - 1 ==> rs[j] == pre[j];
  }

  /** A pass that completes writes one object per verse object of the input, in order,
      each with its approved text or unchanged; it counts them all, and counts as changed
      exactly those whose text differs, so never more than it counts. */
  lemma {:induction false} ApplyAllOutputs(rs: seq<JsonObj>, approved: map<string, string>)
    ensures var a := ApplyAll(rs, approved);
      && |a.out| == a.total == |rs|
      && (forall j :: 0 <= j < |rs| ==> a.out[j] == ApplyObj(rs[j], approved))
      && a.changed == |ChangedAt(rs, approved)| <= a.total
    decreases |rs|
  {
    if rs != [] {
      ApplyAllOutputs(rs[..|rs| - 1], approved);
      ApplyAllOutStep(rs, approved);
      ApplyAllCountStep(rs, approved);
    }
  }

  lemma ApplyAllOutStep(rs: seq<JsonObj>, approved: map<string, string>)
    requires rs != []
    requires var pre := rs[..|rs| - 1];
      |ApplyAll(pre, approved).out| == |pre| && forall j :: 0 <= j < |pre| ==> ApplyAll(pre, approved).out[j] == ApplyObj(pre[j], approved)
    ensures |ApplyAll(rs, approved).out| == |rs|
    ensures forall j :: 0 <= j < |rs| ==> ApplyAll(rs, approved).out[j] == ApplyObj(rs[j], approved)
  {
    var n := |rs|;
    var pre := rs[..n - 1];
    var a0 := ApplyAll(pre, approved);
    var a := ApplyAll(rs, approved);
    assert a.out == a0.out + [ApplyObj(rs[n - 1], approved)];
    forall j | 0 <= j < n
      ensures a.out[j] == ApplyObj(rs[j], approved)
    {
      if j < n - 1 {
        assert a.out[j] == a0.out[j] && rs[j] == pre[j];
      }
    }
  }

  lemma ApplyAllCountStep(rs: seq<JsonObj>, approved: map<string, string>)
    requires rs != []
    requires var pre := rs[..|rs| - 1];
      ApplyAll(pre, approved).total == |pre| && ApplyAll(pre, approved).changed == |ChangedAt(pre, approved)| <= |pre|
    ensures ApplyAll(rs, approved).total == |rs|
    ensures ApplyAll(rs, approved).changed == |ChangedAt(rs, approved)| <= |rs|
  {
    var n := |rs|;
    var pre := rs[..n - 1];
    ChangedAtSnoc(rs, approved);
    var last: nat := n - 1;
    assert last !in ChangedAt(pre, approved);
  }

  /** The pass stops exactly when a line is not JSON; when it completes, the book holds one
      object per verse object, each with its approved text or as it was. */
  lemma ApplyProperties(lines: seq<Line>, approved: map<string, string>)
    ensures RunApply(lines, approved).Failure? <==> exists j :: 0 <= j < |lines| && lines[j].Malformed?
    ensures RunApply(lines, approved).Success? ==>
      var a := RunApply(lines, approved).value;
      && |a.out| == a.total == |Records(lines)|
      && (forall j :: 0 <= j < a.total ==> a.out[j] == ApplyObj(Records(lines)[j], approved))
      && a.changed == |ChangedAt(Records(lines), approved)| <= a.total
  {
    if RunApply(lines, approved).Success? {
      RunApplyIsApplyAll(lines, approved);
      ApplyAllOutputs(Records(lines), approved);
      ApplySucceeding(lines, approved);
    } else {
      ApplyFailing(lines, approved);
    }
  }

  lemma {:induction false} ApplyFailing(lines: seq<Line>, approved: map<string, string>)
    requires RunApply(lines, approved).Failure?
    ensures exists j :: 0 <= j < |lines| && lines[j].Malformed?
    decreases |lines|
  {
    var n := |lines|;
    var pre := lines[..n - 1];
    if RunApply(pre, approved).Failure? {
      ApplyFailing(pre, approved);
      var j :| 0 <= j < |pre| && pre[j].Malformed?;
      assert lines[j] == pre[j];
    } else {
      assert lines[n - 1].Malformed?;
    }
  }

  /** An object the pass has already been through comes out of it again unchanged. */
  lemma ApplyObjIdempotent(obj: JsonObj, approved: map<string, string>)
    ensures ApplyObj(ApplyObj(obj, approved), approved) == ApplyObj(obj, approved)
  {
    assert Field(ApplyObj(obj, approved), "ref") == Field(obj, "ref");
  }

  lemma {:induction false} ApplyAllAgain(rs: seq<JsonObj>, approved: map<string, string>)
    ensures ApplyAll(ApplyAll(rs, approved).out, approved) == Applied(ApplyAll(rs, approved).out, |rs|, 0)
    decreases |rs|
  {
    if rs != [] {
      var n := |rs|;
      var pre := rs[..n - 1];
      ApplyAllAgain(pre, approved);
      ApplyAllOutputs(rs, approved);
      ApplyAllOutputs(pre, approved);
      var out := ApplyAll(rs, approved).out;
      assert out[..n - 1] == ApplyAll(pre, approved).out;
      ApplyObjIdempotent(rs[n - 1], approved);
    }
  }

  lemma {:induction false} RecordsOfRecordLines(rs: seq<JsonObj>)
    ensures Records(RecordLines(rs)) == rs
    decreases |rs|
  {
    if rs != [] {
      var pre := rs[..|rs| - 1];
      assert RecordLines(rs)[..|rs| - 1] == RecordLines(pre);
      RecordsOfRecordLines(pre);
    }
  }

  lemma {:induction false} RunRecordLines(rs: seq<JsonObj>, approved: map<string, string>)
    ensures RunApply(RecordLines(rs), approved) == Success(ApplyAll(rs, approved))
    decreases |rs|
  {
    if rs != [] {
      var pre := rs[..|rs| - 1];
      assert RecordLines(rs)[..|rs| - 1] == RecordLines(pre);
      RunRecordLines(pre, approved);
    }
  }

  /** Running the pass again on the book it wrote, with the same approvals, writes the same
      book and changes nothing. */
  lemma ApplyIdempotent(lines: seq<Line>, approved: map<string, string>)
    requires RunApply(lines, approved).Success?
    ensures var a := RunApply(lines, approved).value;
      RunApply(RecordLines(a.out), approved) == Success(Applied(a.out, a.total, 0))
  {
    RunApplyIsApplyAll(lines, approved);
    ApplyAllOutputs(Records(lines), approved);
    ApplyAllAgain(Records(lines), approved);
    RunRecordLines(RunApply(lines, approved).value.out, approved);
  }

  /** What `main` reports: the verses, the approved edits and the verses changed. */
  datatype Report = Report(total: nat, approvedCount: nat, changed: nat, out: seq<JsonObj>)

  /** Why `main` stops: the worksheet's `ValueError`, or a book line that is not JSON. */
  datatype CapsError = BadWorksheet(message: string) | BadBook(error: InputError)

  /** `main`: read the worksheet, then apply it to the book. */
  method ApplyCapsMain(csv: Csv, lines: seq<Line>) returns (r: Result<Report, CapsError>)
    ensures ApprovedMap(csv).Failure? ==> r == Failure(BadWorksheet(MissingColumns))
    ensures ApprovedMap(csv).Success? && RunApply(lines, ApprovedMap(csv).value).Failure? ==>
      r == Failure(BadBook(RunApply(lines, ApprovedMap(csv).value).error))
    ensures ApprovedMap(csv).Success? && RunApply(lines, ApprovedMap(csv).value).Success? ==>
      var a := RunApply(lines, ApprovedMap(csv).value).value;
      r == Success(Report(a.total, |ApprovedMap(csv).value|, a.changed, a.out))
  {
    var approved := ReadApproved(csv);
    if approved.Failure? {
      return Failure(BadWorksheet(approved.error));
    }
    var applied := Apply(lines, approved.value);
    if applied.Failure? {
      return Failure(BadBook(applied.error));
    }
    var a := applied.value;
    return Success(Report(a.total, |approved.value|, a.changed, a.out));
  }
}
