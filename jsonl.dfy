/** JSON Lines input as the scripts read it: each physical line, once stripped, is blank,
    not valid JSON, or one JSON object.  Objects are modelled as maps from keys to string
    values (the scripts only ever read string fields). */
module Jsonl {
  import opened Wrappers
  import opened Chars

  type JsonObj = map<string, string>

  datatype Line = Blank | Malformed | Record(obj: JsonObj)

  /** Why a script stops with an exception; `line` is the 1-based physical line number. */
  datatype InputError = BadJson(line: nat) | MissingField(line: nat, field: string)

  /** `obj.get(key) or ""` and `obj.get(key, "")`, which agree on string values. */
  function Field(obj: JsonObj, key: string): (v: string)
    ensures key !in obj ==> v == ""
    ensures key in obj ==> v == obj[key]
  {
    if key in obj then obj[key] else ""
  }

  /** The JSON objects among the lines, in order. */
  function Records(lines: seq<Line>): (rs: seq<JsonObj>)
    ensures |rs| <= |lines|
  {
    if lines == [] then []
    else Records(lines[..|lines| - 1]) + (if lines[|lines| - 1].Record? then [lines[|lines| - 1].obj] else [])
  }

  /** The lines a script writes for the objects `rs`, one object per line. */
  function RecordLines(rs: seq<JsonObj>): (lines: seq<Line>)
    ensures |lines| == |rs| && forall j :: 0 <= j < |rs| ==> lines[j] == Record(rs[j])
  {
    seq(|rs|, j requires 0 <= j < |rs| => Record(rs[j]))
  }

  /** The dictionary built by assigning each present key/value pair in order. */
  function InsertAll(es: seq<Option<(string, string)>>): map<string, string>
    decreases |es|
  {
    if es == [] then map[]
    else
      var m := InsertAll(es[..|es| - 1]);
      var e := es[|es| - 1];
      if e.Some? then m[e.value.0 := e.value.1] else m
  }

  /** Entry `j` has key `k`. */
  predicate KeyAt(es: seq<Option<(string, string)>>, j: nat, k: string)
    requires j < |es|
  {
    es[j].Some? && es[j].value.0 == k
  }

  /** Entry `j` is the last one with key `k`. */
  predicate LastKeyAt(es: seq<Option<(string, string)>>, j: nat, k: string)
    requires j < |es|
  {
    KeyAt(es, j, k) && forall j' :: j < j' < |es| ==> !KeyAt(es, j', k)
  }

  /** The dictionary holds exactly the keys that occur, each with the value of the last
      entry that has it. */
  lemma {:induction false} InsertAllLastWins(es: seq<Option<(string, string)>>)
    ensures forall k :: k in InsertAll(es) <==> exists j :: 0 <= j < |es| && KeyAt(es, j, k)
    ensures forall j, k :: 0 <= j < |es| && LastKeyAt(es, j, k) ==> InsertAll(es)[k] == es[j].value.1
    decreases |es|
  {
    if es != [] {
      var n := |es|;
      var pre := es[..n - 1];
      InsertAllLastWins(pre);
      var m := InsertAll(es);
      var m0 := InsertAll(pre);
      var e := es[n - 1];
      forall k
        ensures k in m <==> exists j :: 0 <= j < n && KeyAt(es, j, k)
      {
        if e.Some? && k == e.value.0 {
          assert KeyAt(es, n - 1, k);
        } else if k in m0 {
          var j :| 0 <= j < n - 1 && KeyAt(pre, j, k);
          assert KeyAt(es, j, k);
        }
        if exists j :: 0 <= j < n && KeyAt(es, j, k) {
          var j :| 0 <= j < n && KeyAt(es, j, k);
          if j < n - 1 {
            assert KeyAt(pre, j, k);
          }
        }
      }
      forall j, k | 0 <= j < n && LastKeyAt(es, j, k)
        ensures m[k] == es[j].value.1
      {
        if j < n - 1 {
          forall j' | j < j' < n - 1
            ensures !KeyAt(pre, j', k)
          {
            assert !KeyAt(es, j', k);
          }
          assert LastKeyAt(pre, j, k);
          assert !KeyAt(es, n - 1, k);
        }
      }
    }
  }
}
