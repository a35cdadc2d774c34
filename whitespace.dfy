/** Whitespace normalisation: the `re.sub(r"\s+", " ", s).strip()` idiom shared by
    scripts/polish.py (`normalize_space`) and scripts/oshb_to_jsonl.py (`normalize_hebrew`),
    and the shape it leaves text in. */
module Whitespace {
  import opened Wrappers
  import opened Chars
  import opened Scan

  /** Every whitespace character is a plain space and no two whitespace characters are adjacent. */
  predicate SingleSpaced(s: string) {
    && (forall k :: 0 <= k < |s| && IsSpace(s[k]) ==> s[k] == ' ')
    && (forall k :: 0 <= k < |s| - 1 ==> !(IsSpace(s[k]) && IsSpace(s[k + 1])))
  }

  /** The shape `normalize_space` leaves text in. */
  predicate Normalized(s: string) {
    SingleSpaced(s) && Trimmed(s)
  }

  /** The pattern `\s+`. */
  function SpaceRunAt(s: string, i: nat): Option<Match> {
    if i < |s| && IsSpace(s[i]) then Some(Match(SpaceRunEnd(s, i), [])) else None
  }

  const OneSpace: Repl := Template([Lit(" ")])

  /** `re.sub(r"\s+", " ", s)` */
  function CollapseSpace(s: string): string {
    Sub(SpaceRunAt, OneSpace, s)
  }

  /** `str.split()`: the maximal runs of non-whitespace, in order. */
  function SplitSpace(s: string): (ws: seq<string>)
    decreases |s|
  {
    if s == [] then []
    else if IsSpace(s[0]) then SplitSpace(s[1..])
    else
      var e := WordEnd(s, 0);
      [s[..e]] + SplitSpace(s[e..])
  }

  /** The pieces `str.split()` returns are non-empty and hold no whitespace. */
  lemma {:induction false} SplitSpaceShape(s: string)
    ensures var ws := SplitSpace(s);
      forall j :: 0 <= j < |ws| ==> ws[j] != [] && NoSpace(ws[j])
    decreases |s|
  {
    if s != [] {
      if IsSpace(s[0]) {
        SplitSpaceShape(s[1..]);
        var ws := SplitSpace(s);
        assert ws == SplitSpace(s[1..]);
        forall j | 0 <= j < |ws|
          ensures ws[j] != [] && NoSpace(ws[j])
        {
          assert ws[j] == SplitSpace(s[1..])[j];
        }
      } else {
        var e := WordEnd(s, 0);
        SplitSpaceShape(s[e..]);
        var ws := SplitSpace(s);
        assert ws == [s[..e]] + SplitSpace(s[e..]);
        forall j | 0 <= j < |ws|
          ensures ws[j] != [] && NoSpace(ws[j])
        {
          if j > 0 {
            assert ws[j] == SplitSpace(s[e..])[j - 1];
          }
        }
      }
    }
  }

  /** The index of the first whitespace character at or after `i`, or the length. */
  function WordEnd(s: string, i: nat): (e: nat)
    requires i <= |s|
    ensures i <= e <= |s| && (e < |s| ==> IsSpace(s[e]))
    ensures forall x :: i <= x < e ==> !IsSpace(s[x])
    decreases |s| - i
  {
    if i < |s| && !IsSpace(s[i]) then WordEnd(s, i + 1) else i
  }

  /** `" ".join(ws)` */
  function JoinSpace(ws: seq<string>): string {
    if ws == [] then [] else if |ws| == 1 then ws[0] else ws[0] + " " + JoinSpace(ws[1..])
  }

  /** `normalize_space(s)` (scripts/polish.py) and `normalize_hebrew(s)` (scripts/oshb_to_jsonl.py):
      the words of `s`, in order, joined by single spaces, which is `" ".join(s.split())`. */
  function NormalizeSpace(s: string): (r: string)
    ensures Normalized(r)
    ensures Squeeze(r) == Squeeze(s)
    ensures SplitSpace(r) == SplitSpace(s)
    ensures r == JoinSpace(SplitSpace(s))
  {
    var c := CollapseSpace(s);
    CollapseShape(s, 0);
    SingleSpacedSlice(c, StripStart(c), StripEnd(c, StripStart(c)));
    CollapseSqueeze(s, 0);
    StripSqueeze(c);
    CollapseWords(s);
    SplitSpaceStrip(c);
    NormalizedIsJoin(Strip(c));
    Strip(c)
  }

  predicate AllSpace(t: string) {
    forall x :: 0 <= x < |t| ==> IsSpace(t[x])
  }

  predicate NoSpace(w: string) {
    forall x :: 0 <= x < |w| ==> !IsSpace(w[x])
  }

  /** `WordEnd` stops exactly at the first whitespace character. */
  lemma {:induction false} WordEndAt(s: string, i: nat, x: nat)
    requires i <= x <= |s| && (x == |s| || IsSpace(s[x]))
    requires forall k :: i <= k < x ==> !IsSpace(s[k])
    ensures WordEnd(s, i) == x
    decreases x - i
  {
    if i < x {
      WordEndAt(s, i + 1, x);
    }
  }

  /** A word followed by whitespace, or by nothing, splits off as one piece. */
  lemma SplitWordThen(w: string, t: string)
    requires NoSpace(w) && (t == [] || IsSpace(t[0]))
    ensures SplitSpace(w + t) == (if w == [] then [] else [w]) + SplitSpace(t)
  {
    if w == [] {
      assert w + t == t;
    } else {
      var s := w + t;
      WordEndAt(s, 0, |w|);
      assert s[..|w|] == w && s[|w|..] == t;
    }
  }

  /** Leading whitespace yields no word. */
  lemma {:induction false} SplitSpaceLead(sp: string, t: string)
    requires AllSpace(sp)
    ensures SplitSpace(sp + t) == SplitSpace(t)
    decreases |sp|
  {
    if sp == [] {
      assert sp + t == t;
    } else {
      SplitSpaceLead(sp[1..], t);
      assert (sp + t)[1..] == sp[1..] + t;
    }
  }

  /** Trailing whitespace yields no word. */
  lemma {:induction false} SplitSpaceTrail(t: string, sp: string)
    requires AllSpace(sp)
    ensures SplitSpace(t + sp) == SplitSpace(t)
    decreases |t|
  {
    if t == [] {
      SplitSpaceLead(sp, []);
      assert sp + [] == sp && t + sp == sp;
    } else if IsSpace(t[0]) {
      SplitSpaceTrail(t[1..], sp);
      assert (t + sp)[1..] == t[1..] + sp;
    } else {
      var e := WordEnd(t, 0);
      assert e >= 1;
      SplitSpaceTrail(t[e..], sp);
      assert t == t[..e] + t[e..];
      assert t + sp == t[..e] + (t[e..] + sp);
      SplitWordThen(t[..e], t[e..] + sp);
      SplitWordThen(t[..e], t[e..]);
    }
  }

  /** Stripping keeps the words. */
  lemma SplitSpaceStrip(x: string)
    ensures SplitSpace(Strip(x)) == SplitSpace(x)
  {
    var lo := StripStart(x);
    var hi := StripEnd(x, lo);
    ThreeParts(x, lo, hi);
    assert AllSpace(x[..lo]) && AllSpace(x[hi..]);
    SplitSpaceAround(x[..lo], x[lo..hi], x[hi..]);
  }

  lemma ThreeParts(x: string, lo: nat, hi: nat)
    requires lo <= hi <= |x|
    ensures x == x[..lo] + (x[lo..hi] + x[hi..])
  {
  }

  lemma SplitSpaceAround(a: string, b: string, c: string)
    requires AllSpace(a) && AllSpace(c)
    ensures SplitSpace(a + (b + c)) == SplitSpace(b)
  {
    SplitSpaceLead(a, b + c);
    SplitSpaceTrail(b, c);
  }

  /** A substitution whose every match is whitespace replaced by one space. */
  ghost predicate SpaceForSpace(m: Matcher, r: Repl, s: string) {
    forall k: nat :: IsHit(m, s, k) ==> ReplAt(m, r, s, k) == " " && AllSpace(s[k..EndOf(m, s, k)])
  }

  /** Such a substitution keeps the words: the scan from `i` on, after a pending piece `w`
      of a word, splits as the text from `i` on does. */
  lemma {:induction false} SubKeepsWords(m: Matcher, r: Repl, s: string, w: string, i: nat)
    requires SpaceForSpace(m, r, s) && NoSpace(w) && i <= |s|
    ensures SplitSpace(w + SubFrom(m, r, s, i)) == SplitSpace(w + s[i..])
    decreases |s| - i
  {
    if i == |s| {
      assert s[i..] == [];
    } else if IsHit(m, s, i) {
      var e := EndOf(m, s, i);
      SubKeepsWords(m, r, s, [], e);
      SubKeepsWordsHit(m, r, s, w, i);
    } else if IsSpace(s[i]) {
      SubKeepsWords(m, r, s, [], i + 1);
      SubKeepsWordsSpace(m, r, s, w, i);
    } else {
      SubKeepsWords(m, r, s, w + [s[i]], i + 1);
      LetterShift(m, r, s, w, i);
    }
  }

  /** Past a character the scan copies, that character joins the pending piece. */
  lemma LetterShift(m: Matcher, r: Repl, s: string, w: string, i: nat)
    requires i < |s| && !IsHit(m, s, i)
    ensures w + SubFrom(m, r, s, i) == (w + [s[i]]) + SubFrom(m, r, s, i + 1)
    ensures w + s[i..] == (w + [s[i]]) + s[i + 1..]
  {
    MissStep(m, r, s, i);
    ConsShift(w, s[i], SubFrom(m, r, s, i), SubFrom(m, r, s, i + 1));
    ConsShift(w, s[i], s[i..], s[i + 1..]);
  }

  lemma MissStep(m: Matcher, r: Repl, s: string, i: nat)
    requires i < |s| && !IsHit(m, s, i)
    ensures SubFrom(m, r, s, i) == [s[i]] + SubFrom(m, r, s, i + 1)
    ensures s[i..] == [s[i]] + s[i + 1..]
  {
    SliceCons(s, i);
  }

  lemma SliceCons(s: string, i: nat)
    requires i < |s|
    ensures s[i..] == [s[i]] + s[i + 1..]
  {
  }

  lemma ConsShift(w: string, c: char, y: string, x: string)
    requires y == [c] + x
    ensures w + y == (w + [c]) + x && [] + x == x
  {
  }

  lemma SubKeepsWordsHit(m: Matcher, r: Repl, s: string, w: string, i: nat)
    requires SpaceForSpace(m, r, s) && NoSpace(w) && IsHit(m, s, i)
    requires SplitSpace([] + SubFrom(m, r, s, EndOf(m, s, i))) == SplitSpace([] + s[EndOf(m, s, i)..])
    ensures SplitSpace(w + SubFrom(m, r, s, i)) == SplitSpace(w + s[i..])
  {
    var e := EndOf(m, s, i);
    var rest := SubFrom(m, r, s, e);
    assert [] + rest == rest && [] + s[e..] == s[e..];
    HitParts(m, r, s, i);
    SpacesThenWords(w, " ", rest, s[i..e], s[e..]);
  }

  /** At a match, the scan writes one space, and the match is whitespace. */
  lemma HitParts(m: Matcher, r: Repl, s: string, i: nat)
    requires SpaceForSpace(m, r, s) && IsHit(m, s, i)
    ensures SubFrom(m, r, s, i) == " " + SubFrom(m, r, s, EndOf(m, s, i))
    ensures s[i..] == s[i..EndOf(m, s, i)] + s[EndOf(m, s, i)..]
    ensures s[i..EndOf(m, s, i)] != [] && AllSpace(s[i..EndOf(m, s, i)])
  {
  }

  lemma SubKeepsWordsSpace(m: Matcher, r: Repl, s: string, w: string, i: nat)
    requires NoSpace(w) && i < |s| && !IsHit(m, s, i) && IsSpace(s[i])
    requires SplitSpace([] + SubFrom(m, r, s, i + 1)) == SplitSpace([] + s[i + 1..])
    ensures SplitSpace(w + SubFrom(m, r, s, i)) == SplitSpace(w + s[i..])
  {
    MissStep(m, r, s, i);
    ConsShift([], s[i], SubFrom(m, r, s, i), SubFrom(m, r, s, i + 1));
    ConsShift([], s[i], s[i..], s[i + 1..]);
    SpaceThenWords(w, s[i], SubFrom(m, r, s, i), SubFrom(m, r, s, i + 1), s[i..], s[i + 1..]);
  }

  lemma SpaceThenWords(w: string, c: char, y: string, x: string, u: string, t: string)
    requires NoSpace(w) && IsSpace(c) && y == [c] + x && u == [c] + t
    requires SplitSpace([] + x) == SplitSpace([] + t)
    ensures SplitSpace(w + y) == SplitSpace(w + u)
  {
    assert [] + x == x && [] + t == t;
    SpacesThenWords(w, [c], x, [c], t);
  }

  /** After a word, two non-empty runs of whitespace followed by texts with the same words
      give the same words. */
  lemma SpacesThenWords(w: string, a: string, x: string, b: string, y: string)
    requires NoSpace(w) && a != [] && AllSpace(a) && b != [] && AllSpace(b)
    requires SplitSpace(x) == SplitSpace(y)
    ensures SplitSpace(w + (a + x)) == SplitSpace(w + (b + y))
  {
    SplitWordThen(w, a + x);
    SplitSpaceLead(a, x);
    SplitWordThen(w, b + y);
    SplitSpaceLead(b, y);
  }

  /** `re.sub(r"\s+", " ", s)` keeps the words of `s`. */
  lemma CollapseWords(s: string)
    ensures SplitSpace(CollapseSpace(s)) == SplitSpace(s)
  {
    forall k: nat | IsHit(SpaceRunAt, s, k)
      ensures ReplAt(SpaceRunAt, OneSpace, s, k) == " " && AllSpace(s[k..EndOf(SpaceRunAt, s, k)])
    {
      ExpandLiteral(" ", s, k, SpaceRunAt(s, k).value);
    }
    SubKeepsWords(SpaceRunAt, OneSpace, s, [], 0);
    assert [] + CollapseSpace(s) == CollapseSpace(s);
    assert [] + s[0..] == s;
  }

  /** Normalised text is its own words joined by single spaces. */
  lemma {:induction false} NormalizedIsJoin(r: string)
    requires Normalized(r)
    ensures r == JoinSpace(SplitSpace(r))
    decreases |r|
  {
    if r != [] {
      var e := WordEnd(r, 0);
      assert e >= 1;
      if e == |r| {
        assert r[..e] == r && r[e..] == [];
      } else {
        var q := r[e + 1..];
        assert r[e] == ' ';
        assert e + 1 < |r|;
        SingleSpacedSlice(r, e + 1, |r|);
        assert q[0] == r[e + 1] && q[|q| - 1] == r[|r| - 1];
        NormalizedIsJoin(q);
        JoinStep(r, e, q);
      }
    }
  }

  /** A word, one space, and the rest: the rest's words follow the word. */
  lemma JoinStep(r: string, e: nat, q: string)
    requires 0 < e < |r| && e == WordEnd(r, 0) && r[e] == ' ' && q == r[e + 1..]
    requires q != [] && !IsSpace(q[0]) && q == JoinSpace(SplitSpace(q))
    ensures r == JoinSpace(SplitSpace(r))
  {
    SplitAfterWord(r, e, q);
    SplitStartsWord(q);
    JoinCons(r[..e], SplitSpace(q));
    WordSpaceRest(r, e, q);
  }

  lemma SplitStartsWord(q: string)
    requires q != [] && !IsSpace(q[0])
    ensures SplitSpace(q) != []
  {
  }

  lemma WordSpaceRest(r: string, e: nat, q: string)
    requires e < |r| && r[e] == ' ' && q == r[e + 1..]
    ensures r == r[..e] + " " + q
  {
  }

  lemma SplitAfterWord(r: string, e: nat, q: string)
    requires 0 < e < |r| && e == WordEnd(r, 0) && r[e] == ' ' && q == r[e + 1..]
    ensures SplitSpace(r) == [r[..e]] + SplitSpace(q)
  {
    assert r[e..][1..] == q;
    assert SplitSpace(r[e..]) == SplitSpace(q);
  }

  lemma JoinCons(w: string, ws: seq<string>)
    requires ws != []
    ensures JoinSpace([w] + ws) == w + " " + JoinSpace(ws)
  {
    assert ([w] + ws)[1..] == ws;
  }

  /** The characters of `s` that are not whitespace, in order. */
  function Squeeze(s: string): string {
    if s == [] then [] else (if IsSpace(s[0]) then [] else [s[0]]) + Squeeze(s[1..])
  }

  lemma {:induction false} SqueezeConcat(a: string, b: string)
    ensures Squeeze(a + b) == Squeeze(a) + Squeeze(b)
    decreases |a|
  {
    if a != [] {
      SqueezeConcat(a[1..], b);
      var head := if IsSpace(a[0]) then [] else [a[0]];
      assert (a + b)[0] == a[0];
      assert (a + b)[1..] == a[1..] + b;
      calc {
        Squeeze(a + b);
        head + Squeeze(a[1..] + b);
        head + (Squeeze(a[1..]) + Squeeze(b));
        (head + Squeeze(a[1..])) + Squeeze(b);
        Squeeze(a) + Squeeze(b);
      }
    } else {
      assert a + b == b;
    }
  }

  lemma {:induction false} SqueezeAllSpace(a: string)
    requires forall k :: 0 <= k < |a| ==> IsSpace(a[k])
    ensures Squeeze(a) == []
    decreases |a|
  {
    if a != [] {
      SqueezeAllSpace(a[1..]);
    }
  }

  lemma StripSqueeze(s: string)
    ensures Squeeze(Strip(s)) == Squeeze(s)
  {
    var lo := StripStart(s);
    var hi := StripEnd(s, lo);
    assert s == s[..lo] + s[lo..hi] + s[hi..];
    SqueezeConcat(s[..lo] + s[lo..hi], s[hi..]);
    SqueezeConcat(s[..lo], s[lo..hi]);
    SqueezeAllSpace(s[..lo]);
    SqueezeAllSpace(s[hi..]);
  }

  lemma {:induction false} CollapseSqueeze(s: string, i: nat)
    requires i <= |s|
    ensures Squeeze(SubFrom(SpaceRunAt, OneSpace, s, i)) == Squeeze(s[i..])
    decreases |s| - i
  {
    if i < |s| {
      if IsHit(SpaceRunAt, s, i) {
        CollapseSqueeze(s, EndOf(SpaceRunAt, s, i));
        CollapseSqueezeHit(s, i);
      } else {
        CollapseSqueeze(s, i + 1);
        CollapseSqueezeMiss(s, i);
      }
    }
  }

  lemma CollapseSqueezeHit(s: string, i: nat)
    requires IsHit(SpaceRunAt, s, i)
    requires Squeeze(SubFrom(SpaceRunAt, OneSpace, s, EndOf(SpaceRunAt, s, i))) == Squeeze(s[EndOf(SpaceRunAt, s, i)..])
    ensures Squeeze(SubFrom(SpaceRunAt, OneSpace, s, i)) == Squeeze(s[i..])
  {
    var e := EndOf(SpaceRunAt, s, i);
    assert s[i..] == s[i..e] + s[e..];
    SqueezeConcat(s[i..e], s[e..]);
    SqueezeAllSpace(s[i..e]);
    ExpandLiteral(" ", s, i, SpaceRunAt(s, i).value);
    SqueezeConcat(" ", SubFrom(SpaceRunAt, OneSpace, s, e));
  }

  lemma CollapseSqueezeMiss(s: string, i: nat)
    requires i < |s| && !IsHit(SpaceRunAt, s, i)
    requires Squeeze(SubFrom(SpaceRunAt, OneSpace, s, i + 1)) == Squeeze(s[i + 1..])
    ensures Squeeze(SubFrom(SpaceRunAt, OneSpace, s, i)) == Squeeze(s[i..])
  {
    assert s[i..] == [s[i]] + s[i + 1..];
    SqueezeConcat([s[i]], s[i + 1..]);
    SqueezeConcat([s[i]], SubFrom(SpaceRunAt, OneSpace, s, i + 1));
  }

  lemma SingleSpacedSlice(s: string, lo: nat, hi: nat)
    requires SingleSpaced(s) && lo <= hi <= |s|
    ensures SingleSpaced(s[lo..hi])
  {
    var t := s[lo..hi];
    forall k | 0 <= k < |t| - 1
      ensures !(IsSpace(t[k]) && IsSpace(t[k + 1]))
    {
      assert t[k] == s[lo + k] && t[k + 1] == s[lo + k + 1];
    }
  }

  /** Two single-spaced pieces glue into a single-spaced string unless whitespace meets whitespace. */
  lemma SingleSpacedConcat(a: string, b: string)
    requires SingleSpaced(a) && SingleSpaced(b)
    requires a != [] && b != [] ==> !(IsSpace(a[|a| - 1]) && IsSpace(b[0]))
    ensures SingleSpaced(a + b)
  {
    var t := a + b;
    forall k | 0 <= k < |t| - 1
      ensures !(IsSpace(t[k]) && IsSpace(t[k + 1]))
    {
      if k + 1 < |a| {
        assert t[k] == a[k] && t[k + 1] == a[k + 1];
      } else if k >= |a| {
        assert t[k] == b[k - |a|] && t[k + 1] == b[k + 1 - |a|];
      }
    }
  }

  lemma {:induction false} CollapseShape(s: string, i: nat)
    requires i <= |s|
    ensures SingleSpaced(SubFrom(SpaceRunAt, OneSpace, s, i))
    ensures i < |s| ==> (SubFrom(SpaceRunAt, OneSpace, s, i) != []
                         && (IsSpace(SubFrom(SpaceRunAt, OneSpace, s, i)[0]) <==> IsSpace(s[i])))
    decreases |s| - i
  {
    if i < |s| {
      if IsHit(SpaceRunAt, s, i) {
        var e := EndOf(SpaceRunAt, s, i);
        CollapseShape(s, e);
        ExpandLiteral(" ", s, i, SpaceRunAt(s, i).value);
        SingleSpacedConcat(" ", SubFrom(SpaceRunAt, OneSpace, s, e));
      } else {
        CollapseShape(s, i + 1);
        SingleSpacedConcat([s[i]], SubFrom(SpaceRunAt, OneSpace, s, i + 1));
      }
    }
  }

  /** Normalising text that is already normalised changes nothing, so `normalize_space` is idempotent. */
  lemma NormalizedFixed(s: string)
    requires Normalized(s)
    ensures NormalizeSpace(s) == s
  {
    forall k | 0 <= k && IsHit(SpaceRunAt, s, k)
      ensures ReplAt(SpaceRunAt, OneSpace, s, k) == s[k..EndOf(SpaceRunAt, s, k)]
    {
      assert k + 1 < |s| ==> !IsSpace(s[k + 1]);
      assert EndOf(SpaceRunAt, s, k) == k + 1;
      ExpandLiteral(" ", s, k, SpaceRunAt(s, k).value);
    }
    SubIdentity(SpaceRunAt, OneSpace, s, 0);
    StripTrimmed(s);
  }

  lemma NormalizeSpaceIdempotent(s: string)
    ensures NormalizeSpace(NormalizeSpace(s)) == NormalizeSpace(s)
  {
    NormalizedFixed(NormalizeSpace(s));
  }

  /** A replacement keeps text single-spaced and trimmed when it is non-empty, single-spaced,
      and starts and ends with whitespace exactly when the text it replaces does. */
  ghost predicate ShapeSafeAt(m: Matcher, r: Repl, s: string, p: nat)
    requires IsHit(m, s, p)
  {
    var rep := ReplAt(m, r, s, p);
    var e := EndOf(m, s, p);
    && rep != []
    && SingleSpaced(rep)
    && (IsSpace(rep[0]) <==> IsSpace(s[p]))
    && (IsSpace(rep[|rep| - 1]) <==> IsSpace(s[e - 1]))
  }

  ghost predicate ShapeSafe(m: Matcher, r: Repl, s: string) {
    forall p :: IsHit(m, s, p) ==> ShapeSafeAt(m, r, s, p)
  }

  /** The output from `i` on is single-spaced and starts and ends as the text from `i` on
      does. */
  predicate SubShaped(m: Matcher, r: Repl, s: string, i: nat)
    requires i <= |s|
  {
    var out := SubFrom(m, r, s, i);
    && SingleSpaced(out)
    && (i == |s| ==> out == [])
    && (i < |s| ==>
      && out != []
      && (IsSpace(out[0]) <==> IsSpace(s[i]))
      && (IsSpace(out[|out| - 1]) <==> IsSpace(s[|s| - 1])))
  }

  lemma {:induction false} SubShape(m: Matcher, r: Repl, s: string, i: nat)
    requires SingleSpaced(s) && ShapeSafe(m, r, s) && i <= |s|
    ensures SubShaped(m, r, s, i)
    decreases |s| - i
  {
    if i < |s| {
      var next := if IsHit(m, s, i) then EndOf(m, s, i) else i + 1;
      SubShape(m, r, s, next);
      SubShapeStep(m, r, s, i, next);
    }
  }

  lemma SubShapeStep(m: Matcher, r: Repl, s: string, i: nat, next: nat)
    requires SingleSpaced(s) && ShapeSafe(m, r, s) && i < |s|
    requires next == if IsHit(m, s, i) then EndOf(m, s, i) else i + 1
    requires SubShaped(m, r, s, next)
    ensures SubShaped(m, r, s, i)
  {
    if IsHit(m, s, i) {
      SubShapeHit(m, r, s, i);
    } else {
      SubShapeMiss(m, r, s, i);
    }
  }

  lemma SubShapeHit(m: Matcher, r: Repl, s: string, i: nat)
    requires SingleSpaced(s) && ShapeSafe(m, r, s) && i < |s| && IsHit(m, s, i)
    requires SubShaped(m, r, s, EndOf(m, s, i))
    ensures SubShaped(m, r, s, i)
  {
    var e := EndOf(m, s, i);
    var rep := ReplAt(m, r, s, i);
    assert ShapeSafeAt(m, r, s, i);
    var rest := SubFrom(m, r, s, e);
    assert SubFrom(m, r, s, i) == rep + rest;
    if e < |s| {
      assert !(IsSpace(s[e - 1]) && IsSpace(s[e]));
    }
    SingleSpacedConcat(rep, rest);
  }

  lemma SubShapeMiss(m: Matcher, r: Repl, s: string, i: nat)
    requires SingleSpaced(s) && i < |s| && !IsHit(m, s, i)
    requires SubShaped(m, r, s, i + 1)
    ensures SubShaped(m, r, s, i)
  {
    var rest := SubFrom(m, r, s, i + 1);
    assert SubFrom(m, r, s, i) == [s[i]] + rest;
    if i + 1 < |s| {
      assert !(IsSpace(s[i]) && IsSpace(s[i + 1]));
    }
    SingleSpacedConcat([s[i]], rest);
  }

  /** A substitution whose replacements are shape-safe keeps normalised text normalised. */
  lemma SubKeepsNormalized(m: Matcher, r: Repl, s: string)
    requires Normalized(s) && ShapeSafe(m, r, s)
    ensures Normalized(Sub(m, r, s))
  {
    SubShape(m, r, s, 0);
  }
}
