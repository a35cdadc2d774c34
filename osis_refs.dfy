/** References in scripts/osis_to_kjv_jsonl.py: the OSIS book table, `osis_id_to_ref`,
    which turns "Ps.23.1" into "PSA 23:1", and `sort_key`, by which `main` orders the
    references it writes. */
module OsisRefs {
  import opened Wrappers
  import opened Chars

  /** The books of `OSIS_TO_REF` from Genesis to Malachi. */
  const OldTestamentBooks: map<string, string> := map[
    "Gen" := "GEN", "Exod" := "EXO", "Lev" := "LEV", "Num" := "NUM", "Deut" := "DEU",
    "Josh" := "JOS", "Judg" := "JDG", "Ruth" := "RUT", "1Sam" := "1SA", "2Sam" := "2SA",
    "1Kgs" := "1KI", "2Kgs" := "2KI", "1Chr" := "1CH", "2Chr" := "2CH", "Ezra" := "EZR",
    "Neh" := "NEH", "Esth" := "EST", "Job" := "JOB", "Ps" := "PSA", "Prov" := "PRO",
    "Eccl" := "ECC", "Song" := "SNG", "Isa" := "ISA", "Jer" := "JER", "Lam" := "LAM",
    "Ezek" := "EZK", "Dan" := "DAN", "Hos" := "HOS", "Joel" := "JOL", "Amos" := "AMO",
    "Obad" := "OBA", "Jonah" := "JON", "Mic" := "MIC", "Nah" := "NAM", "Hab" := "HAB",
    "Zeph" := "ZEP", "Hag" := "HAG", "Zech" := "ZEC", "Mal" := "MAL"
  ]

  /** The books of `OSIS_TO_REF` from Matthew to Revelation. */
  const NewTestamentBooks: map<string, string> := map[
    "Matt" := "MAT", "Mark" := "MRK", "Luke" := "LUK", "John" := "JHN", "Acts" := "ACT",
    "Rom" := "ROM", "1Cor" := "1CO", "2Cor" := "2CO", "Gal" := "GAL", "Eph" := "EPH",
    "Phil" := "PHP", "Col" := "COL", "1Thess" := "1TH", "2Thess" := "2TH", "1Tim" := "1TI",
    "2Tim" := "2TI", "Titus" := "TIT", "Phlm" := "PHM", "Heb" := "HEB", "Jas" := "JAS",
    "1Pet" := "1PE", "2Pet" := "2PE", "1John" := "1JN", "2John" := "2JN", "3John" := "3JN",
    "Jude" := "JUD", "Rev" := "REV"
  ]

  /** `OSIS_TO_REF`: OSIS book names to the three-character codes of the references. */
  const OsisToRef: map<string, string> := OldTestamentBooks + NewTestamentBooks

  /** A book code: non-empty and without a space, so that `sort_key` can split it off. */
  predicate IsCode(b: string) {
    b != [] && ' ' !in b
  }

  lemma OldTestamentCodes()
    ensures forall b :: b in OldTestamentBooks ==> IsCode(OldTestamentBooks[b])
  {
  }

  lemma NewTestamentCodes()
    ensures forall b :: b in NewTestamentBooks ==> IsCode(NewTestamentBooks[b])
  {
  }

  /** Every code in the table is non-empty and has no space. */
  lemma CodesAreCodes()
    ensures forall b :: b in OsisToRef ==> IsCode(OsisToRef[b])
  {
    OldTestamentCodes();
    NewTestamentCodes();
  }

  /** The reference for book code `b`, chapter `c` and verse `v`: `f"{b} {c}:{v}"`. */
  function Format(b: string, c: nat, v: nat): string {
    b + " " + NatToString(c) + ":" + NatToString(v)
  }

  /** A reference starts with its book code and a space. */
  lemma FormatHead(b: string, c: nat, v: nat)
    ensures |Format(b, c, v)| > |b| && Format(b, c, v)[..|b| + 1] == b + " "
  {
    var rest := NatToString(c) + ":" + NatToString(v);
    assert Format(b, c, v) == (b + " ") + rest;
  }

  /** The reference for the first three dot-separated parts of an id. */
  function RefOfParts(book: string, chap: string, verse: string): Option<string> {
    if book !in OsisToRef || OsisToRef[book] == "" then None
    else if !IsNumeral(chap) || !IsNumeral(verse) then None
    else Some(Format(OsisToRef[book], DigitsValue(chap), DigitsValue(verse)))
  }

  /** `osis_id_to_ref` */
  function OsisIdToRef(osisId: string): Option<string> {
    var parts := Split(osisId, '.');
    if |parts| < 3 then None else RefOfParts(parts[0], parts[1], parts[2])
  }

  /** `osis_id_to_ref` fails exactly for an id with fewer than three dot-separated parts,
      an unknown book, or a chapter or verse that is not a numeral; otherwise it is the
      book's code with the chapter and verse numbers written afresh in decimal. */
  lemma OsisIdToRefProperties(osisId: string)
    ensures var parts := Split(osisId, '.');
      OsisIdToRef(osisId).None? <==>
        |parts| < 3 || parts[0] !in OsisToRef || !IsNumeral(parts[1]) || !IsNumeral(parts[2])
    ensures var parts := Split(osisId, '.');
      OsisIdToRef(osisId).Some? ==>
        && IsCode(OsisToRef[parts[0]])
        && OsisIdToRef(osisId).value == Format(OsisToRef[parts[0]], DigitsValue(parts[1]), DigitsValue(parts[2]))
  {
    CodesAreCodes();
  }

  /** Splitting three pieces and any further ones joined by dots gives the three pieces
      first. */
  lemma SplitDots(book: string, chap: string, verse: string, extra: seq<string>)
    requires '.' !in book && '.' !in chap && '.' !in verse
    requires forall k :: 0 <= k < |extra| ==> '.' !in extra[k]
    ensures var parts := Split(Join([book, chap, verse] + extra, '.'), '.');
      |parts| >= 3 && parts[0] == book && parts[1] == chap && parts[2] == verse
  {
    var ps := [book, chap, verse] + extra;
    forall k | 0 <= k < |ps|
      ensures '.' !in ps[k]
    {
      if k >= 3 {
        assert ps[k] == extra[k - 3];
      }
    }
    SplitJoin(ps, '.');
  }

  /** Parts after the third are ignored. */
  lemma OsisIdToRefExtra(book: string, chap: string, verse: string, extra: seq<string>)
    requires '.' !in book && '.' !in chap && '.' !in verse
    requires forall k :: 0 <= k < |extra| ==> '.' !in extra[k]
    ensures OsisIdToRef(Join([book, chap, verse] + extra, '.')) == OsisIdToRef(Join([book, chap, verse], '.'))
  {
    SplitDots(book, chap, verse, extra);
    SplitDots(book, chap, verse, []);
    assert [book, chap, verse] + [] == [book, chap, verse];
  }

  /** A known book with a chapter and verse written in decimal, as "Ps.23.1", becomes the
      book's code with the same chapter and verse, as "PSA 23:1". */
  lemma OsisIdToRefNumbers(book: string, c: nat, v: nat)
    requires book in OsisToRef && '.' !in book
    ensures OsisIdToRef(Join([book, NatToString(c), NatToString(v)], '.')) == Some(Format(OsisToRef[book], c, v))
  {
    var cs, vs := NatToString(c), NatToString(v);
    assert '.' !in cs by {
      assert forall k :: 0 <= k < |cs| ==> IsDigit(cs[k]);
    }
    assert '.' !in vs by {
      assert forall k :: 0 <= k < |vs| ==> IsDigit(vs[k]);
    }
    SplitJoin([book, cs, vs], '.');
    CodesAreCodes();
  }

  /** The key a reference sorts by: its book, chapter and verse. */
  datatype RefKey = RefKey(book: string, chapter: nat, verse: nat)

  /** `sort_key`: the text before the first space, then the two numbers either side of the
      colon after it; `None` where Python raises `ValueError`. */
  function SortKey(ref: string): Option<RefKey> {
    if ' ' !in ref then None
    else
      var i := FirstIndex(ref, ' ');
      var cv := Split(ref[i + 1..], ':');
      if |cv| != 2 || !IsNumeral(cv[0]) || !IsNumeral(cv[1]) then None
      else Some(RefKey(ref[..i], DigitsValue(cv[0]), DigitsValue(cv[1])))
  }

  /** `sort_key` reads back what `Format` writes. */
  lemma SortKeyFormat(b: string, c: nat, v: nat)
    requires IsCode(b)
    ensures SortKey(Format(b, c, v)) == Some(RefKey(b, c, v))
  {
    var ref, cs, vs := Format(b, c, v), NatToString(c), NatToString(v);
    FormatSplitsAtSpace(b, c, v);
    NumbersSplit(c, v);
    var i := FirstIndex(ref, ' ');
    var cv := Split(ref[i + 1..], ':');
    assert cv == [cs, vs];
    assert IsNumeral(cv[0]) && IsNumeral(cv[1]);
    assert DigitsValue(cv[0]) == c && DigitsValue(cv[1]) == v;
    SortKeyOf(ref, i, cv);
  }

  /** `sort_key` on a reference whose first space is at `i` and whose rest splits at the
      colon into the two numerals `cv`. */
  lemma SortKeyOf(ref: string, i: nat, cv: seq<string>)
    requires ' ' in ref && i == FirstIndex(ref, ' ') && cv == Split(ref[i + 1..], ':')
    requires |cv| == 2 && IsNumeral(cv[0]) && IsNumeral(cv[1])
    ensures SortKey(ref) == Some(RefKey(ref[..i], DigitsValue(cv[0]), DigitsValue(cv[1])))
  {
  }

  /** The first space of a reference is the one after its book code. */
  lemma FormatSplitsAtSpace(b: string, c: nat, v: nat)
    requires IsCode(b)
    ensures var ref := Format(b, c, v);
      && ' ' in ref && FirstIndex(ref, ' ') == |b|
      && ref[..|b|] == b && ref[|b| + 1..] == NatToString(c) + ":" + NatToString(v)
  {
    var rest := NatToString(c) + ":" + NatToString(v);
    var ref := Format(b, c, v);
    assert ref == b + [' '] + rest;
    FirstIndexConcat(b, ' ', rest);
    assert ref[..|b|] == b && ref[|b| + 1..] == rest;
  }

  /** The chapter and verse part of a reference splits at its colon into the two numerals. */
  lemma NumbersSplit(c: nat, v: nat)
    ensures Split(NatToString(c) + ":" + NatToString(v), ':') == [NatToString(c), NatToString(v)]
  {
    var cs, vs := NatToString(c), NatToString(v);
    assert ':' !in cs by {
      assert forall k :: 0 <= k < |cs| ==> IsDigit(cs[k]);
    }
    assert ':' !in vs by {
      assert forall k :: 0 <= k < |vs| ==> IsDigit(vs[k]);
    }
    assert Join([cs, vs], ':') == cs + ":" + vs;
    SplitJoin([cs, vs], ':');
  }

  /** A reference as `osis_id_to_ref` writes them: it has a sort key, and the key gives it
      back. */
  predicate IsRef(ref: string) {
    SortKey(ref).Some? && Format(SortKey(ref).value.book, SortKey(ref).value.chapter, SortKey(ref).value.verse) == ref
  }

  /** Every reference `osis_id_to_ref` makes has a sort key, and its key gives it back. */
  lemma OsisRefKey(osisId: string)
    requires OsisIdToRef(osisId).Some?
    ensures IsRef(OsisIdToRef(osisId).value)
  {
    var parts := Split(osisId, '.');
    CodesAreCodes();
    SortKeyFormat(OsisToRef[parts[0]], DigitsValue(parts[1]), DigitsValue(parts[2]));
  }

  /** Python's `<` on strings: code point by code point, a proper prefix first. */
  predicate StrLess(a: string, b: string)
    decreases |a|
  {
    if a == [] then b != []
    else if b == [] then false
    else if a[0] != b[0] then a[0] < b[0]
    else StrLess(a[1..], b[1..])
  }

  lemma {:induction false} StrLessIrreflexive(a: string)
    ensures !StrLess(a, a)
    decreases |a|
  {
    if a != [] {
      StrLessIrreflexive(a[1..]);
    }
  }

  lemma {:induction false} StrLessTrans(a: string, b: string, c: string)
    requires StrLess(a, b) && StrLess(b, c)
    ensures StrLess(a, c)
    decreases |a|
  {
    if a != [] && a[0] == b[0] && b[0] == c[0] {
      StrLessTrans(a[1..], b[1..], c[1..]);
    }
  }

  lemma {:induction false} StrLessTotal(a: string, b: string)
    requires a != b
    ensures StrLess(a, b) || StrLess(b, a)
    decreases |a|
  {
    if a != [] && b != [] && a[0] == b[0] {
      assert a == [a[0]] + a[1..] && b == [b[0]] + b[1..];
      StrLessTotal(a[1..], b[1..]);
    }
  }

  lemma {:induction false} StrLessAsym(a: string, b: string)
    requires StrLess(a, b)
    ensures !StrLess(b, a)
    decreases |a|
  {
    if a != [] && b != [] && a[0] == b[0] {
      StrLessAsym(a[1..], b[1..]);
    }
  }

  /** The order Python compares `(book, chapter, verse)` tuples in. */
  predicate KeyLess(x: RefKey, y: RefKey) {
    StrLess(x.book, y.book)
    || (x.book == y.book && (x.chapter < y.chapter || (x.chapter == y.chapter && x.verse < y.verse)))
  }

  predicate KeyLe(x: RefKey, y: RefKey) {
    x == y || KeyLess(x, y)
  }

  /** `KeyLess` is a strict total order. */
  lemma KeyOrder(x: RefKey, y: RefKey, z: RefKey)
    ensures !KeyLess(x, x)
    ensures KeyLess(x, y) ==> !KeyLess(y, x)
    ensures KeyLess(x, y) && KeyLess(y, z) ==> KeyLess(x, z)
    ensures x != y ==> KeyLess(x, y) || KeyLess(y, x)
  {
    StrLessIrreflexive(x.book);
    if StrLess(x.book, y.book) {
      StrLessAsym(x.book, y.book);
      if StrLess(y.book, z.book) {
        StrLessTrans(x.book, y.book, z.book);
      }
    }
    if x.book != y.book {
      StrLessTotal(x.book, y.book);
    }
  }

  /** Every reference has a key under `key`. */
  predicate Keyed(refs: seq<string>, key: string -> Option<RefKey>) {
    forall j :: 0 <= j < |refs| ==> key(refs[j]).Some?
  }

  /** In order of their keys; equal keys may sit in either order. */
  predicate SortedByKey(refs: seq<string>, key: string -> Option<RefKey>)
    requires Keyed(refs, key)
  {
    forall i, j :: 0 <= i < j < |refs| ==> KeyLe(key(refs[i]).value, key(refs[j]).value)
  }

  /** Places `ref` after the references of `sorted` whose key is not greater, so that equal
      keys keep their input order. */
  function Insert(sorted: seq<string>, ref: string, key: string -> Option<RefKey>): (r: seq<string>)
    requires Keyed(sorted, key) && key(ref).Some?
    ensures Keyed(r, key) && multiset(r) == multiset(sorted) + multiset{ref}
    decreases |sorted|
  {
    if sorted == [] then [ref]
    else
      var last := sorted[|sorted| - 1];
      var pre := sorted[..|sorted| - 1];
      assert sorted == pre + [last];
      if KeyLe(key(last).value, key(ref).value) then sorted + [ref]
      else Insert(pre, ref, key) + [last]
  }

  /** In a sorted sequence every key is at most the last one. */
  lemma LastIsGreatest(refs: seq<string>, key: string -> Option<RefKey>, x: string)
    requires Keyed(refs, key) && SortedByKey(refs, key) && x in refs
    ensures KeyLe(key(x).value, key(refs[|refs| - 1]).value)
  {
    var k :| 0 <= k < |refs| && refs[k] == x;
  }

  /** Every element of `Insert(sorted, ref, key)` is at most `bound` when `ref` and every
      element of `sorted` are. */
  lemma InsertBounded(sorted: seq<string>, ref: string, key: string -> Option<RefKey>, bound: RefKey)
    requires Keyed(sorted, key) && key(ref).Some?
    requires KeyLe(key(ref).value, bound) && forall j :: 0 <= j < |sorted| ==> KeyLe(key(sorted[j]).value, bound)
    ensures forall j :: 0 <= j < |Insert(sorted, ref, key)| ==> KeyLe(key(Insert(sorted, ref, key)[j]).value, bound)
  {
    var r := Insert(sorted, ref, key);
    forall j | 0 <= j < |r|
      ensures KeyLe(key(r[j]).value, bound)
    {
      assert r[j] in multiset(r);
      if r[j] != ref {
        assert r[j] in multiset(sorted);
        var k :| 0 <= k < |sorted| && sorted[k] == r[j];
      }
    }
  }

  lemma {:induction false} InsertSorted(sorted: seq<string>, ref: string, key: string -> Option<RefKey>)
    requires Keyed(sorted, key) && key(ref).Some? && SortedByKey(sorted, key)
    ensures SortedByKey(Insert(sorted, ref, key), key)
    decreases |sorted|
  {
    if sorted != [] {
      var last := sorted[|sorted| - 1];
      var pre := sorted[..|sorted| - 1];
      var r := Insert(sorted, ref, key);
      if KeyLe(key(last).value, key(ref).value) {
        assert r == sorted + [ref];
        forall i, j | 0 <= i < j < |r|
          ensures KeyLe(key(r[i]).value, key(r[j]).value)
        {
          if j == |sorted| {
            LastIsGreatest(sorted, key, r[i]);
            KeyOrder(key(r[i]).value, key(last).value, key(ref).value);
          }
        }
      } else {
        var t := Insert(pre, ref, key);
        assert r == t + [last];
        assert SortedByKey(pre, key);
        InsertSorted(pre, ref, key);
        KeyOrder(key(last).value, key(ref).value, key(last).value);
        forall j | 0 <= j < |pre|
          ensures KeyLe(key(pre[j]).value, key(last).value)
        {
          assert pre[j] == sorted[j];
        }
        InsertBounded(pre, ref, key, key(last).value);
        forall i, j | 0 <= i < j < |r|
          ensures KeyLe(key(r[i]).value, key(r[j]).value)
        {
          if j < |t| {
            assert r[i] == t[i] && r[j] == t[j];
          } else {
            assert r[i] == t[i];
          }
        }
      }
    }
  }

  /** `sorted(refs, key=key)`, a stable sort. */
  function SortByKey(refs: seq<string>, key: string -> Option<RefKey>): (r: seq<string>)
    requires Keyed(refs, key)
    ensures Keyed(r, key) && multiset(r) == multiset(refs)
    decreases |refs|
  {
    if refs == [] then []
    else
      var pre := refs[..|refs| - 1];
      assert refs == pre + [refs[|refs| - 1]];
      Insert(SortByKey(pre, key), refs[|refs| - 1], key)
  }

  /** The sort puts the references in key order and keeps every one of them. */
  lemma {:induction false} SortByKeySorted(refs: seq<string>, key: string -> Option<RefKey>)
    requires Keyed(refs, key)
    ensures SortedByKey(SortByKey(refs, key), key) && multiset(SortByKey(refs, key)) == multiset(refs)
    decreases |refs|
  {
    if refs != [] {
      var pre := refs[..|refs| - 1];
      SortByKeySorted(pre, key);
      InsertSorted(SortByKey(pre, key), refs[|refs| - 1], key);
    }
  }

  lemma SortedPrefix(a: seq<string>, key: string -> Option<RefKey>, n: nat)
    requires Keyed(a, key) && SortedByKey(a, key) && n <= |a|
    ensures Keyed(a[..n], key) && SortedByKey(a[..n], key)
  {
    assert forall j :: 0 <= j < n ==> a[..n][j] == a[j];
  }

  lemma DropLast<T>(a: seq<T>, b: seq<T>)
    requires |a| == |b| > 0 && a[|a| - 1] == b[|b| - 1] && multiset(a) == multiset(b)
    ensures multiset(a[..|a| - 1]) == multiset(b[..|b| - 1])
  {
    var n := |a| - 1;
    assert a == a[..n] + [a[n]] && b == b[..n] + [b[n]];
    assert multiset(a) == multiset(a[..n]) + multiset{a[n]};
    assert multiset(b) == multiset(b[..n]) + multiset{b[n]};
    assert multiset(a[..n]) == multiset(a) - multiset{a[n]};
  }

  /** Key-sorted sequences of the same references, the first without two equal keys,
      end with the same reference. */
  lemma SameLast(a: seq<string>, b: seq<string>, key: string -> Option<RefKey>)
    requires Keyed(a, key) && Keyed(b, key) && SortedByKey(a, key) && SortedByKey(b, key)
    requires multiset(a) == multiset(b) && a != []
    requires forall i, j :: 0 <= i < j < |a| ==> key(a[i]).value != key(a[j]).value
    ensures |a| == |b| && a[|a| - 1] == b[|b| - 1]
  {
    assert |a| == |multiset(a)| == |b|;
    var n := |a| - 1;
    var x, y := a[n], b[n];
    assert x in multiset(b) && y in multiset(a);
    LastIsGreatest(a, key, y);
    LastIsGreatest(b, key, x);
    KeyOrder(key(x).value, key(y).value, key(x).value);
    var j :| 0 <= j < |a| && a[j] == y;
    assert j == n;
  }

  /** Key-sorted sequences of the same references, whose keys are all different, are
      equal: there is only one order to write them in. */
  lemma {:induction false} SortedUnique(a: seq<string>, b: seq<string>, key: string -> Option<RefKey>)
    requires Keyed(a, key) && Keyed(b, key) && SortedByKey(a, key) && SortedByKey(b, key)
    requires multiset(a) == multiset(b)
    requires forall i, j :: 0 <= i < j < |a| ==> key(a[i]).value != key(a[j]).value
    ensures a == b
    decreases |a|
  {
    if a == [] {
      assert |b| == |multiset(b)| == 0;
    } else {
      SameLast(a, b, key);
      var n := |a| - 1;
      SortedPrefix(a, key, n);
      SortedPrefix(b, key, n);
      DropLast(a, b);
      SortedUnique(a[..n], b[..n], key);
      assert a == a[..n] + [a[n]] && b == b[..n] + [b[n]];
    }
  }
}
