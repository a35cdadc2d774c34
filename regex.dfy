/** The regular expressions of `enforce_between_from`, `enforce_compound_numbers` and the
    gate of `enforce_reverential_pronouns` (scripts/polish.py) written as a chain of pieces,
    each followed by the rest of the pattern, and run with the backtracking order of
    Python's `re`: a greedy `\s+` tries its longest run first, a lazy `([^,;]+?)` its
    shortest capture first, and an alternation `(a|b|...)` its alternatives left to right;
    the first combination with which the rest of the pattern succeeds is the match. */
module Regex {
  import opened Wrappers
  import opened Chars
  import opened Scan

  datatype Rx =
    | Done                                          // end of the pattern
    | Bound(next: Rx)                               // `\b`
    | Text(w: string, fold: bool, next: Rx)         // literal text, case-insensitive when `fold`
    | Spaces(next: Rx)                              // `\s+`
    | Lazy(next: Rx)                                // `([^,;]+?)`, a capture group
    | Alt(ws: seq<string>, fold: bool, next: Rx)    // `(w1|w2|...)`, a capture group

  predicate LitAt(w: string, fold: bool, s: string, i: nat) {
    if fold then OccursAtFold(w, s, i) else OccursAt(w, s, i)
  }

  /** The match of `rx` starting at index `i`: where it ends and the spans of its groups. */
  function Run(rx: Rx, s: string, i: nat): Option<Match>
    decreases rx, 1, 0
  {
    match rx
    case Done => Some(Match(i, []))
    case Bound(k) => if Boundary(s, i) then Run(k, s, i) else None
    case Text(w, f, k) => if LitAt(w, f, s, i) then Run(k, s, i + |w|) else None
    case Spaces(k) => if i < |s| then SpacesTry(k, s, i, SpaceRunEnd(s, i)) else None
    case Lazy(k) => LazyTry(k, s, i, i + 1)
    case Alt(ws, f, k) => AltTry(ws, f, k, s, i)
  }

  /** `\s+` from `i`: the rest of the pattern is tried after `s[i..j]`, for `j` from the end of
      the whitespace run down to `i + 1`. */
  function SpacesTry(k: Rx, s: string, i: nat, j: nat): Option<Match>
    decreases k, 2, j
  {
    if j <= i then None
    else if Run(k, s, j).Some? then Run(k, s, j)
    else SpacesTry(k, s, i, j - 1)
  }

  /** `([^,;]+?)` from `i`: the capture `s[i..x]` grows one character at a time and may not
      take in a comma or a semicolon. */
  function LazyTry(k: Rx, s: string, i: nat, x: nat): Option<Match>
    decreases k, 2, |s| + 1 - x
  {
    if x == 0 || x > |s| || s[x - 1] == ',' || s[x - 1] == ';' then None
    else
      match Run(k, s, x)
      case Some(m) => Some(Match(m.end, [Span(i, x)] + m.groups))
      case None => LazyTry(k, s, i, x + 1)
  }

  function AltTry(ws: seq<string>, f: bool, k: Rx, s: string, i: nat): Option<Match>
    decreases k, 2, |ws|
  {
    if ws == [] then None
    else if LitAt(ws[0], f, s, i) && Run(k, s, i + |ws[0]|).Some? then
      var m := Run(k, s, i + |ws[0]|).value;
      Some(Match(m.end, [Span(i, i + |ws[0]|)] + m.groups))
    else AltTry(ws[1..], f, k, s, i)
  }

  function M(rx: Rx): Matcher {
    (s: string, i: nat) => Run(rx, s, i)
  }

  /** No character of `s[i..x]` is a comma or a semicolon. */
  predicate NoStop(s: string, i: nat, x: nat)
    requires i <= x <= |s|
  {
    forall y :: i <= y < x ==> s[y] != ',' && s[y] != ';'
  }

  /** A match never ends before it starts or past the end of the text. */
  lemma {:induction false} RunEnd(rx: Rx, s: string, i: nat)
    requires i <= |s| && Run(rx, s, i).Some?
    ensures i <= Run(rx, s, i).value.end <= |s|
    decreases rx, 1, 0
  {
    match rx
    case Done =>
    case Bound(k) => RunEnd(k, s, i);
    case Text(w, f, k) => RunEnd(k, s, i + |w|);
    case Spaces(k) => SpacesEnd(k, s, i, SpaceRunEnd(s, i));
    case Lazy(k) => LazyEnd(k, s, i, i + 1);
    case Alt(ws, f, k) => AltEnd(ws, f, k, s, i);
  }

  lemma {:induction false} SpacesEnd(k: Rx, s: string, i: nat, j: nat)
    requires j <= |s| && SpacesTry(k, s, i, j).Some?
    ensures i <= SpacesTry(k, s, i, j).value.end <= |s|
    decreases k, 2, j
  {
    if Run(k, s, j).Some? {
      RunEnd(k, s, j);
    } else {
      SpacesEnd(k, s, i, j - 1);
    }
  }

  lemma {:induction false} LazyEnd(k: Rx, s: string, i: nat, x: nat)
    requires i < x && LazyTry(k, s, i, x).Some?
    ensures i <= LazyTry(k, s, i, x).value.end <= |s|
    decreases k, 2, |s| + 1 - x
  {
    if Run(k, s, x).Some? {
      RunEnd(k, s, x);
    } else {
      LazyEnd(k, s, i, x + 1);
    }
  }

  lemma {:induction false} AltEnd(ws: seq<string>, f: bool, k: Rx, s: string, i: nat)
    requires i <= |s| && AltTry(ws, f, k, s, i).Some?
    ensures i <= AltTry(ws, f, k, s, i).value.end <= |s|
    decreases k, 2, |ws|
  {
    if LitAt(ws[0], f, s, i) && Run(k, s, i + |ws[0]|).Some? {
      RunEnd(k, s, i + |ws[0]|);
    } else {
      AltEnd(ws[1..], f, k, s, i);
    }
  }

  /** `\s+` succeeds exactly when the rest of the pattern succeeds after some non-empty part
      of the whitespace run, and then it takes the longest such part. */
  lemma {:induction false} SpacesTryPick(k: Rx, s: string, i: nat, j: nat) returns (c: nat)
    requires i <= j <= |s| && forall y :: i <= y < j ==> IsSpace(s[y])
    requires SpacesTry(k, s, i, j).Some?
    ensures i < c <= j && Run(k, s, c) == SpacesTry(k, s, i, j)
    ensures forall y :: c < y <= j ==> Run(k, s, y).None?
    decreases j
  {
    if Run(k, s, j).Some? {
      c := j;
    } else {
      c := SpacesTryPick(k, s, i, j - 1);
    }
  }

  lemma SpacesPick(k: Rx, s: string, i: nat) returns (c: nat)
    requires Run(Spaces(k), s, i).Some?
    ensures i < c <= SpaceRunEnd(s, i) && Run(k, s, c) == Run(Spaces(k), s, i)
    ensures forall y :: i <= y < c ==> IsSpace(s[y])
    ensures forall y :: c < y <= SpaceRunEnd(s, i) ==> Run(k, s, y).None?
  {
    c := SpacesTryPick(k, s, i, SpaceRunEnd(s, i));
  }

  /** `\s+` then `k`: the whitespace run taken before `k` is non-empty. */
  lemma SpacesStep(k: Rx, s: string, i: nat) returns (c: nat)
    requires Run(Spaces(k), s, i).Some?
    ensures i < c <= |s| && IsSpace(s[i]) && IsSpace(s[c - 1]) && Run(k, s, c) == Run(Spaces(k), s, i)
  {
    c := SpacesPick(k, s, i);
  }

  lemma {:induction false} SpacesTryNone(k: Rx, s: string, i: nat, j: nat)
    requires forall y :: i < y <= j ==> Run(k, s, y).None?
    ensures SpacesTry(k, s, i, j).None?
    decreases j
  {
    if j > i {
      SpacesTryNone(k, s, i, j - 1);
    }
  }

  /** When the rest of the pattern succeeds right after the whitespace run, `\s+` succeeds
      with the whole run. */
  lemma SpacesWhole(k: Rx, s: string, i: nat)
    requires i < |s| && IsSpace(s[i]) && Run(k, s, SpaceRunEnd(s, i)).Some?
    ensures Run(Spaces(k), s, i) == Run(k, s, SpaceRunEnd(s, i))
  {
  }

  /** The lazy capture ends at the first `x` at which the rest of the pattern succeeds, and
      that match is the rest's match with the capture put in front of its groups. */
  lemma {:induction false} LazyTryPick(k: Rx, s: string, i: nat, x: nat) returns (c: nat)
    requires i < x && x <= |s| + 1 && (x <= |s| ==> NoStop(s, i, x - 1))
    requires LazyTry(k, s, i, x).Some?
    ensures x <= c <= |s| && NoStop(s, i, c) && Run(k, s, c).Some?
    ensures LazyTry(k, s, i, x) == Some(Match(Run(k, s, c).value.end, [Span(i, c)] + Run(k, s, c).value.groups))
    ensures forall y :: x <= y < c ==> Run(k, s, y).None?
    decreases |s| + 1 - x
  {
    if Run(k, s, x).Some? {
      c := x;
    } else {
      c := LazyTryPick(k, s, i, x + 1);
    }
  }

  lemma LazyPick(k: Rx, s: string, i: nat) returns (c: nat)
    requires Run(Lazy(k), s, i).Some?
    ensures i < c <= |s| && NoStop(s, i, c) && Run(k, s, c).Some?
    ensures Run(Lazy(k), s, i) == Some(Match(Run(k, s, c).value.end, [Span(i, c)] + Run(k, s, c).value.groups))
    ensures forall y :: i < y < c ==> Run(k, s, y).None?
  {
    c := LazyTryPick(k, s, i, i + 1);
  }

  /** A lazy capture from `i` ends at some `c` where the rest `k` matches. */
  lemma LazyStep(k: Rx, s: string, i: nat) returns (c: nat)
    requires Run(Lazy(k), s, i).Some?
    ensures i < c <= |s| && Run(k, s, c).Some?
    ensures Run(Lazy(k), s, i) == Some(Match(Run(k, s, c).value.end, [Span(i, c)] + Run(k, s, c).value.groups))
  {
    c := LazyPick(k, s, i);
  }

  /** Conversely, the lazy capture succeeds at the first end the rest of the pattern accepts. */
  lemma {:induction false} LazyTryAt(k: Rx, s: string, i: nat, x: nat, c: nat)
    requires i < x <= c <= |s| && NoStop(s, i, c) && Run(k, s, c).Some?
    requires forall y :: x <= y < c ==> Run(k, s, y).None?
    ensures LazyTry(k, s, i, x) == Some(Match(Run(k, s, c).value.end, [Span(i, c)] + Run(k, s, c).value.groups))
    decreases c - x
  {
    if x < c {
      LazyTryAt(k, s, i, x + 1, c);
    }
  }

  /** The alternation takes the first alternative, in the group's order, after which the rest
      of the pattern succeeds. */
  lemma {:induction false} AltPick(ws: seq<string>, f: bool, k: Rx, s: string, i: nat) returns (w: string)
    requires Run(Alt(ws, f, k), s, i).Some?
    ensures w in ws && LitAt(w, f, s, i) && Run(k, s, i + |w|).Some?
    ensures Run(Alt(ws, f, k), s, i) == Some(Match(Run(k, s, i + |w|).value.end, [Span(i, i + |w|)] + Run(k, s, i + |w|).value.groups))
    decreases |ws|
  {
    if LitAt(ws[0], f, s, i) && Run(k, s, i + |ws[0]|).Some? {
      w := ws[0];
    } else {
      w := AltPick(ws[1..], f, k, s, i);
    }
  }

  /** The alternation succeeds when some alternative is followed by a successful rest. */
  lemma {:induction false} AltSome(ws: seq<string>, f: bool, k: Rx, s: string, i: nat, w: string)
    requires w in ws && LitAt(w, f, s, i) && Run(k, s, i + |w|).Some?
    ensures Run(Alt(ws, f, k), s, i).Some?
    decreases |ws|
  {
    if !(LitAt(ws[0], f, s, i) && Run(k, s, i + |ws[0]|).Some?) {
      assert w in ws[1..];
      AltSome(ws[1..], f, k, s, i, w);
    }
  }
}
