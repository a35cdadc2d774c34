/** `enforce_between_from` of scripts/polish.py: six case-insensitive substitutions, in this
    order, that repair the calque "divide/separate between X and between Y". */
module BetweenFrom {
  import opened Wrappers
  import opened Chars
  import opened Scan
  import opened Whitespace
  import opened Regex

  /** `\s+([^,;]+?)\b`: the last group of the four long patterns. */
  const Tail: Rx := Spaces(Lazy(Bound(Done)))

  /** `\bseparated between\b` → "separated" */
  const SeparatedBetween: Rx := Bound(Text("separated between", true, Bound(Done)))
  const SeparatedOnly: Repl := Template([Lit("separated")])

  /** `\bdivid(e|ing) between\b` → `divid\1` (the replacement writes "divid" in lower case) */
  const DividBetween: Rx := Bound(Text("divid", true, Alt(["e", "ing"], true, Text(" between", true, Bound(Done)))))
  const DividOnly: Repl := Template([Lit("divid"), Group(1)])

  /** `\bw0\s+w1\s+([^,;]+?)\s+and\s+w3\s+([^,;]+?)\b`, case-insensitive. */
  function LongA(w0: string, w1: string, w3: string): Rx {
    Bound(Text(w0, true, Spaces(Text(w1, true, Spaces(Lazy(Spaces(Text("and", true, Spaces(Text(w3, true, Tail))))))))))
  }

  /** `\bw0\s+([^,;]+?)\s+and\s+w3\s+([^,;]+?)\b`, case-insensitive. */
  function LongB(w0: string, w3: string): Rx {
    Bound(Text(w0, true, Spaces(Lazy(Spaces(Text("and", true, Spaces(Text(w3, true, Tail))))))))
  }

  /** `\bw0\s+w1\s+([^,;]+?)\s+and\s+([^,;]+?)\b`, case-insensitive. */
  function LongC(w0: string, w1: string): Rx {
    Bound(Text(w0, true, Spaces(Text(w1, true, Spaces(Lazy(Spaces(Text("and", true, Tail))))))))
  }

  /** `\bto divide\s+between\s+([^,;]+?)\s+and\s+between\s+([^,;]+?)\b` → `to divide \1 from \2` */
  const DivideBetweenAndBetween: Rx := LongA("to divide", "between", "between")

  /** `\bto divide\s+([^,;]+?)\s+and\s+between\s+([^,;]+?)\b` → `to divide \1 from \2` */
  const DivideAndBetween: Rx := LongB("to divide", "between")

  const DivideFrom: Repl := Template([Lit("to divide "), Group(1), Lit(" from "), Group(2)])

  /** `\bseparated\s+between\s+([^,;]+?)\s+and\s+the\s+([^,;]+?)\b` → `separated \1 from the \2` */
  const SeparatedBetweenAndThe: Rx := LongA("separated", "between", "the")

  const SeparatedFromThe: Repl := Template([Lit("separated "), Group(1), Lit(" from the "), Group(2)])

  /** `\bseparated\s+between\s+([^,;]+?)\s+and\s+([^,;]+?)\b` → `separated \1 from \2` */
  const SeparatedBetweenAnd: Rx := LongC("separated", "between")

  const SeparatedFrom: Repl := Template([Lit("separated "), Group(1), Lit(" from "), Group(2)])

  function EnforceBetweenFrom(text: string): string {
    var t1 := Sub(M(SeparatedBetween), SeparatedOnly, text);
    var t2 := Sub(M(DividBetween), DividOnly, t1);
    var t3 := Sub(M(DivideBetweenAndBetween), DivideFrom, t2);
    var t4 := Sub(M(DivideAndBetween), DivideFrom, t3);
    var t5 := Sub(M(SeparatedBetweenAndThe), SeparatedFromThe, t4);
    Sub(M(SeparatedBetweenAnd), SeparatedFrom, t5)
  }

  // ---------------------------------------------------------------------------------------
  // The two short patterns

  /** `\bseparated between\b` matches exactly the whole-word, case-insensitive phrase, and the
      match is replaced by "separated". */
  lemma SeparatedBetweenHit(s: string, i: nat)
    ensures IsHit(M(SeparatedBetween), s, i) <==>
      Boundary(s, i) && OccursAtFold("separated between", s, i) && Boundary(s, i + 17)
    ensures IsHit(M(SeparatedBetween), s, i) ==>
      EndOf(M(SeparatedBetween), s, i) == i + 17 && ReplAt(M(SeparatedBetween), SeparatedOnly, s, i) == "separated"
  {
    if IsHit(M(SeparatedBetween), s, i) {
      ExpandLiteral("separated", s, i, Run(SeparatedBetween, s, i).value);
    }
  }

  /** `\bw` followed by the rest `k`: a boundary, the literal in any case, then the rest. */
  lemma BoundTextStep(w: string, k: Rx, s: string, i: nat, m: Match)
    requires Run(Bound(Text(w, true, k)), s, i) == Some(m)
    ensures Boundary(s, i) && OccursAtFold(w, s, i) && Run(k, s, i + |w|) == Some(m)
  {
  }

  /** `\bdivid(e|ing) between\b` matches "divide between" or "dividing between" in any case,
      and the match is replaced by "divid" in lower case followed by the ending as written. */
  lemma DividShape(s: string, i: nat) returns (u: string)
    requires IsHit(M(DividBetween), s, i)
    ensures u in ["e", "ing"]
    ensures Boundary(s, i) && OccursAtFold("divid", s, i) && OccursAtFold(u, s, i + 5) && OccursAtFold(" between", s, i + 5 + |u|)
    ensures EndOf(M(DividBetween), s, i) == i + 13 + |u| && Boundary(s, i + 13 + |u|)
    ensures ReplAt(M(DividBetween), DividOnly, s, i) == "divid" + s[i + 5..i + 5 + |u|]
  {
    var k := Text(" between", true, Bound(Done));
    var mt := Run(DividBetween, s, i).value;
    BoundTextStep("divid", Alt(["e", "ing"], true, k), s, i, mt);
    u := AltPick(["e", "ing"], true, k, s, i + 5);
    assert mt == Match(i + 13 + |u|, [Span(i + 5, i + 5 + |u|)]);
    var parts := [Lit("divid"), Group(1)];
    assert parts[1..][1..] == [];
    assert ExpandParts(parts[1..], s, i, mt) == s[i + 5..i + 5 + |u|] + [];
  }

  // ---------------------------------------------------------------------------------------
  // The four long patterns: what their matches look like

  /** `s[j..k]` is what `\s+` takes: a non-empty run of whitespace. */
  predicate Gap(s: string, j: nat, k: nat) {
    j < k <= |s| && forall y :: j <= y < k ==> IsSpace(s[y])
  }

  /** `s[j..k]` is `\s+w\s+`, with `w` in any case. */
  ghost predicate SpacedWord(s: string, j: nat, w: string, k: nat) {
    exists x: nat :: Gap(s, j, x) && OccursAtFold(w, s, x) && Gap(s, x + |w|, k)
  }

  /** `s[j..k]` is `\s+and\s+w\s+`, in any case. */
  ghost predicate AndWord(s: string, j: nat, w: string, k: nat) {
    exists x: nat :: Gap(s, j, x) && OccursAtFold("and", s, x) && SpacedWord(s, x + 3, w, k)
  }

  /** `s[a..b]` is a capture of `([^,;]+?)`: non-empty, with no comma and no semicolon. */
  predicate Capture(s: string, a: nat, b: nat) {
    a < b <= |s| && NoStop(s, a, b)
  }

  /** `s[c..e]` is the last capture `([^,;]+?)\b`: it ends at the first word boundary
      after its first character, so it runs to the end of the word it starts in. */
  predicate LastCapture(s: string, c: nat, e: nat) {
    Capture(s, c, e) && Boundary(s, e) && forall y :: c < y < e ==> !Boundary(s, y)
  }

  /** What the long patterns try after their first group: `\s+and\s+w3\s+([^,;]+?)\b`, or
      `\s+and\s+([^,;]+?)\b` for the last rule. */
  function AfterFirst(w3: string): Rx {
    Spaces(Text("and", true, Spaces(Text(w3, true, Tail))))
  }

  const AfterFirstC: Rx := Spaces(Text("and", true, Tail))

  /** `\s+` followed by literal text `w` and the rest `k`. */
  lemma SkipSpacesLit(w: string, k: Rx, s: string, j: nat, m: Match) returns (c: nat)
    requires Run(Spaces(Text(w, true, k)), s, j) == Some(m)
    ensures Gap(s, j, c) && OccursAtFold(w, s, c) && Run(k, s, c + |w|) == Some(m)
    ensures j < c && j < |s| && IsSpace(s[j])
  {
    c := SpacesPick(Text(w, true, k), s, j);
  }

  /** The last group: `\s+([^,;]+?)\b` from `j` captures `s[c..e]` right after whitespace,
      up to the end of the match. */
  lemma TailShape(s: string, j: nat, m: Match) returns (c: nat)
    requires Run(Tail, s, j) == Some(m)
    ensures Gap(s, j, c) && LastCapture(s, c, m.end)
    ensures j < c < m.end <= |s| && IsSpace(s[c - 1])
    ensures m.groups == [Span(c, m.end)]
  {
    c := SpacesPick(Lazy(Bound(Done)), s, j);
    var x := LazyPick(Bound(Done), s, c);
    forall y | c < y < x
      ensures !Boundary(s, y)
    {
      assert Run(Bound(Done), s, y).None?;
    }
  }

  /** The first group: `\s+([^,;]+?)\s+and` from `j` captures `s[a..b]`, with whitespace
      before it and between it and "and" at `x`; it is the shortest capture after which the
      rest of the pattern matches. */
  lemma MidShape(k: Rx, s: string, j: nat, m: Match) returns (a: nat, b: nat, x: nat, m2: Match)
    requires Run(Spaces(Lazy(Spaces(Text("and", true, k)))), s, j) == Some(m)
    ensures Gap(s, j, a) && Capture(s, a, b) && Gap(s, b, x) && OccursAtFold("and", s, x)
    ensures forall y :: a < y < b ==> Run(Spaces(Text("and", true, k)), s, y).None?
    ensures j < a < b < x && IsSpace(s[a - 1]) && IsSpace(s[b])
    ensures Run(k, s, x + 3) == Some(m2) && m == Match(m2.end, [Span(a, b)] + m2.groups)
  {
    a := SpacesPick(Lazy(Spaces(Text("and", true, k))), s, j);
    b := LazyPick(Spaces(Text("and", true, k)), s, a);
    m2 := Run(Spaces(Text("and", true, k)), s, b).value;
    x := SkipSpacesLit("and", k, s, b, m2);
  }

  /** Two groups, each right after whitespace, the first also followed by whitespace, the
      second ending where the match ends. */
  ghost predicate TwoGroups(s: string, i: nat, m: Match) {
    && |m.groups| == 2
    && var a, b, c := m.groups[0].start, m.groups[0].end, m.groups[1].start;
    && i < a < b < c < m.end <= |s| && m.groups[1].end == m.end
    && IsSpace(s[a - 1]) && IsSpace(s[b]) && IsSpace(s[c - 1])
  }

  /** A match of `\bw0\s+w1\s+([^,;]+?)\s+and\s+w3\s+([^,;]+?)\b` at `i`: the opener and
      `w1` in any case, the first group `s[a..b]`, "and" and `w3` in any case, and the
      second group `s[c..e]`, with whitespace runs between them. */
  ghost predicate LongAText(w0: string, w1: string, w3: string, s: string, i: nat, a: nat, b: nat, c: nat, e: nat) {
    && Boundary(s, i) && OccursAtFold(w0, s, i)
    && SpacedWord(s, i + |w0|, w1, a) && Capture(s, a, b)
    && AndWord(s, b, w3, c) && LastCapture(s, c, e)
  }

  /** A match of `\bw0\s+([^,;]+?)\s+and\s+w3\s+([^,;]+?)\b` at `i`. */
  ghost predicate LongBText(w0: string, w3: string, s: string, i: nat, a: nat, b: nat, c: nat, e: nat) {
    && Boundary(s, i) && OccursAtFold(w0, s, i)
    && Gap(s, i + |w0|, a) && Capture(s, a, b)
    && AndWord(s, b, w3, c) && LastCapture(s, c, e)
  }

  /** A match of `\bw0\s+w1\s+([^,;]+?)\s+and\s+([^,;]+?)\b` at `i`. */
  ghost predicate LongCText(w0: string, w1: string, s: string, i: nat, a: nat, b: nat, c: nat, e: nat) {
    && Boundary(s, i) && OccursAtFold(w0, s, i)
    && SpacedWord(s, i + |w0|, w1, a) && Capture(s, a, b)
    && SpacedWord(s, b, "and", c) && LastCapture(s, c, e)
  }

  lemma LongAShape(w0: string, w1: string, w3: string, s: string, i: nat) returns (a: nat, b: nat, c: nat)
    requires Run(LongA(w0, w1, w3), s, i).Some?
    ensures var m := Run(LongA(w0, w1, w3), s, i).value;
      && m == Match(m.end, [Span(a, b), Span(c, m.end)])
      && LongAText(w0, w1, w3, s, i, a, b, c, m.end)
      && forall y :: a < y < b ==> Run(AfterFirst(w3), s, y).None?
    ensures TwoGroups(s, i, Run(LongA(w0, w1, w3), s, i).value) && OccursAtFold(w0, s, i)
  {
    var m := Run(LongA(w0, w1, w3), s, i).value;
    var k2 := Spaces(Lazy(AfterFirst(w3)));
    BoundTextStep(w0, Spaces(Text(w1, true, k2)), s, i, m);
    var x1 := SkipSpacesLit(w1, k2, s, i + |w0|, m);
    a, b, c := AndTail(w3, s, x1 + |w1|, m);
    assert SpacedWord(s, i + |w0|, w1, a);
  }

  /** `\s+([^,;]+?)\s+and\s+w3\s+([^,;]+?)\b` from `j`: the two groups, the words between
      them, and the laziness of the first group. */
  lemma AndTail(w3: string, s: string, j: nat, m: Match) returns (a: nat, b: nat, c: nat)
    requires Run(Spaces(Lazy(AfterFirst(w3))), s, j) == Some(m)
    ensures m == Match(m.end, [Span(a, b), Span(c, m.end)])
    ensures Gap(s, j, a) && Capture(s, a, b) && AndWord(s, b, w3, c) && LastCapture(s, c, m.end)
    ensures forall y :: a < y < b ==> Run(AfterFirst(w3), s, y).None?
    ensures j < a < b < c < m.end <= |s| && IsSpace(s[a - 1]) && IsSpace(s[b]) && IsSpace(s[c - 1])
  {
    var k3 := Spaces(Text(w3, true, Tail));
    var x2, m2;
    a, b, x2, m2 := MidShape(k3, s, j, m);
    var x3 := SkipSpacesLit(w3, Tail, s, x2 + 3, m2);
    c := TailShape(s, x3 + |w3|, m2);
    assert SpacedWord(s, x2 + 3, w3, c);
  }

  lemma LongBShape(w0: string, w3: string, s: string, i: nat) returns (a: nat, b: nat, c: nat)
    requires Run(LongB(w0, w3), s, i).Some?
    ensures var m := Run(LongB(w0, w3), s, i).value;
      && m == Match(m.end, [Span(a, b), Span(c, m.end)])
      && LongBText(w0, w3, s, i, a, b, c, m.end)
      && forall y :: a < y < b ==> Run(AfterFirst(w3), s, y).None?
    ensures TwoGroups(s, i, Run(LongB(w0, w3), s, i).value) && OccursAtFold(w0, s, i)
  {
    var m := Run(LongB(w0, w3), s, i).value;
    BoundTextStep(w0, Spaces(Lazy(AfterFirst(w3))), s, i, m);
    a, b, c := AndTail(w3, s, i + |w0|, m);
  }

  lemma LongCShape(w0: string, w1: string, s: string, i: nat) returns (a: nat, b: nat, c: nat)
    requires Run(LongC(w0, w1), s, i).Some?
    ensures var m := Run(LongC(w0, w1), s, i).value;
      && m == Match(m.end, [Span(a, b), Span(c, m.end)])
      && LongCText(w0, w1, s, i, a, b, c, m.end)
      && forall y :: a < y < b ==> Run(AfterFirstC, s, y).None?
    ensures TwoGroups(s, i, Run(LongC(w0, w1), s, i).value) && OccursAtFold(w0, s, i)
  {
    var m := Run(LongC(w0, w1), s, i).value;
    var k2 := Spaces(Lazy(Spaces(Text("and", true, Tail))));
    BoundTextStep(w0, Spaces(Text(w1, true, k2)), s, i, m);
    var x1 := SkipSpacesLit(w1, k2, s, i + |w0|, m);
    var x2, m2;
    a, b, x2, m2 := MidShape(Tail, s, x1 + |w1|, m);
    c := TailShape(s, x2 + 3, m2);
    assert SpacedWord(s, i + |w0|, w1, a);
    assert SpacedWord(s, b, "and", c);
  }

  // ---------------------------------------------------------------------------------------
  // The four long rules: what they write

  /** `to divide between X and between Y`, in any case and with any whitespace runs,
      becomes "to divide X from Y". X and Y hold no comma or semicolon; X is the shortest
      capture after which the rest of the pattern matches, and Y ends at the first word
      boundary. */
  lemma DivideBetweenAndBetweenRewrite(s: string, i: nat) returns (a: nat, b: nat, c: nat)
    requires IsHit(M(DivideBetweenAndBetween), s, i)
    ensures var e := EndOf(M(DivideBetweenAndBetween), s, i);
      && LongAText("to divide", "between", "between", s, i, a, b, c, e)
      && (forall y :: a < y < b ==> Run(AfterFirst("between"), s, y).None?)
      && ReplAt(M(DivideBetweenAndBetween), DivideFrom, s, i) == "to divide " + s[a..b] + " from " + s[c..e]
  {
    a, b, c := LongAShape("to divide", "between", "between", s, i);
    ExpandFour("to divide ", " from ", s, i, Run(DivideBetweenAndBetween, s, i).value);
    MatchOfRx(DivideBetweenAndBetween, DivideFrom, s, i);
  }

  /** `to divide X and between Y` becomes "to divide X from Y", with the same captures. */
  lemma DivideAndBetweenRewrite(s: string, i: nat) returns (a: nat, b: nat, c: nat)
    requires IsHit(M(DivideAndBetween), s, i)
    ensures var e := EndOf(M(DivideAndBetween), s, i);
      && LongBText("to divide", "between", s, i, a, b, c, e)
      && (forall y :: a < y < b ==> Run(AfterFirst("between"), s, y).None?)
      && ReplAt(M(DivideAndBetween), DivideFrom, s, i) == "to divide " + s[a..b] + " from " + s[c..e]
  {
    a, b, c := LongBShape("to divide", "between", s, i);
    ExpandFour("to divide ", " from ", s, i, Run(DivideAndBetween, s, i).value);
    MatchOfRx(DivideAndBetween, DivideFrom, s, i);
  }

  /** `separated between X and the Y` becomes "separated X from the Y". */
  lemma SeparatedBetweenAndTheRewrite(s: string, i: nat) returns (a: nat, b: nat, c: nat)
    requires IsHit(M(SeparatedBetweenAndThe), s, i)
    ensures var e := EndOf(M(SeparatedBetweenAndThe), s, i);
      && LongAText("separated", "between", "the", s, i, a, b, c, e)
      && (forall y :: a < y < b ==> Run(AfterFirst("the"), s, y).None?)
      && ReplAt(M(SeparatedBetweenAndThe), SeparatedFromThe, s, i) == "separated " + s[a..b] + " from the " + s[c..e]
  {
    a, b, c := LongAShape("separated", "between", "the", s, i);
    ExpandFour("separated ", " from the ", s, i, Run(SeparatedBetweenAndThe, s, i).value);
    MatchOfRx(SeparatedBetweenAndThe, SeparatedFromThe, s, i);
  }

  /** `separated between X and Y` becomes "separated X from Y". */
  lemma SeparatedBetweenAndRewrite(s: string, i: nat) returns (a: nat, b: nat, c: nat)
    requires IsHit(M(SeparatedBetweenAnd), s, i)
    ensures var e := EndOf(M(SeparatedBetweenAnd), s, i);
      && LongCText("separated", "between", s, i, a, b, c, e)
      && (forall y :: a < y < b ==> Run(AfterFirstC, s, y).None?)
      && ReplAt(M(SeparatedBetweenAnd), SeparatedFrom, s, i) == "separated " + s[a..b] + " from " + s[c..e]
  {
    a, b, c := LongCShape("separated", "between", s, i);
    ExpandFour("separated ", " from ", s, i, Run(SeparatedBetweenAnd, s, i).value);
    MatchOfRx(SeparatedBetweenAnd, SeparatedFrom, s, i);
  }

  // ---------------------------------------------------------------------------------------
  // Conversely, text of that shape is matched

  lemma {:induction false} SpaceRunCovers(s: string, j: nat, x: nat)
    requires j <= x <= |s| && forall y :: j <= y < x ==> IsSpace(s[y])
    ensures x <= SpaceRunEnd(s, j)
    decreases x - j
  {
    if j < x {
      SpaceRunCovers(s, j + 1, x);
    }
  }

  lemma {:induction false} SpacesTrySome(k: Rx, s: string, j: nat, x: nat, top: nat)
    requires j < x <= top && Run(k, s, x).Some?
    ensures SpacesTry(k, s, j, top).Some?
    decreases top
  {
    if Run(k, s, top).None? {
      SpacesTrySome(k, s, j, x, top - 1);
    }
  }

  /** `\s+` then `k` matches when `k` matches after some whitespace run. */
  lemma SpacesSome(k: Rx, s: string, j: nat, x: nat)
    requires Gap(s, j, x) && Run(k, s, x).Some?
    ensures Run(Spaces(k), s, j).Some?
  {
    SpaceRunCovers(s, j, x);
    SpacesTrySome(k, s, j, x, SpaceRunEnd(s, j));
  }

  lemma {:induction false} LazyTrySome(k: Rx, s: string, a: nat, x: nat, b: nat)
    requires a < x <= b && Capture(s, a, b) && Run(k, s, b).Some?
    ensures LazyTry(k, s, a, x).Some?
    decreases b - x
  {
    assert s[x - 1] != ',' && s[x - 1] != ';';
    if Run(k, s, x).None? {
      LazyTrySome(k, s, a, x + 1, b);
    }
  }

  /** `([^,;]+?)` then `k` matches when `k` matches after some capture. */
  lemma LazySome(k: Rx, s: string, a: nat, b: nat)
    requires Capture(s, a, b) && Run(k, s, b).Some?
    ensures Run(Lazy(k), s, a).Some?
  {
    LazyTrySome(k, s, a, a + 1, b);
  }

  /** `\s+([^,;]+?)\b` matches after a whitespace run followed by a last capture. */
  lemma TailSome(s: string, j: nat, c: nat, e: nat)
    requires Gap(s, j, c) && LastCapture(s, c, e)
    ensures Run(Tail, s, j).Some?
  {
    assert Run(Bound(Done), s, e).Some?;
    LazySome(Bound(Done), s, c, e);
    SpacesSome(Lazy(Bound(Done)), s, j, c);
  }

  /** `\s+([^,;]+?)\s+and\s+w3\s+([^,;]+?)\b` from `j`, given the shape of its pieces. */
  lemma MidASome(w3: string, s: string, j: nat, a: nat, b: nat, c: nat, e: nat)
    requires Gap(s, j, a) && Capture(s, a, b) && AndWord(s, b, w3, c) && LastCapture(s, c, e)
    ensures Run(Spaces(Lazy(AfterFirst(w3))), s, j).Some?
  {
    AndWordSome(w3, s, b, c, e);
    LazySome(AfterFirst(w3), s, a, b);
    SpacesSome(Lazy(AfterFirst(w3)), s, j, a);
  }

  /** `\s+and\s+w3\s+([^,;]+?)\b` matches from `b` at text of that shape. */
  lemma AndWordSome(w3: string, s: string, b: nat, c: nat, e: nat)
    requires AndWord(s, b, w3, c) && LastCapture(s, c, e)
    ensures Run(AfterFirst(w3), s, b).Some?
  {
    var x: nat :| Gap(s, b, x) && OccursAtFold("and", s, x) && SpacedWord(s, x + 3, w3, c);
    var y: nat :| Gap(s, x + 3, y) && OccursAtFold(w3, s, y) && Gap(s, y + |w3|, c);
    TailSome(s, y + |w3|, c, e);
    SpacesSome(Text(w3, true, Tail), s, x + 3, y);
    SpacesSome(Text("and", true, Spaces(Text(w3, true, Tail))), s, b, x);
  }

  /** Text of the shape `LongAText` describes is a match of the pattern. */
  lemma LongAComplete(w0: string, w1: string, w3: string, s: string, i: nat, a: nat, b: nat, c: nat, e: nat)
    requires LongAText(w0, w1, w3, s, i, a, b, c, e)
    ensures Run(LongA(w0, w1, w3), s, i).Some?
  {
    var x: nat :| Gap(s, i + |w0|, x) && OccursAtFold(w1, s, x) && Gap(s, x + |w1|, a);
    MidASome(w3, s, x + |w1|, a, b, c, e);
    SpacesSome(Text(w1, true, Spaces(Lazy(AfterFirst(w3)))), s, i + |w0|, x);
  }

  lemma LongBComplete(w0: string, w3: string, s: string, i: nat, a: nat, b: nat, c: nat, e: nat)
    requires LongBText(w0, w3, s, i, a, b, c, e)
    ensures Run(LongB(w0, w3), s, i).Some?
  {
    MidASome(w3, s, i + |w0|, a, b, c, e);
  }

  lemma LongCComplete(w0: string, w1: string, s: string, i: nat, a: nat, b: nat, c: nat, e: nat)
    requires LongCText(w0, w1, s, i, a, b, c, e)
    ensures Run(LongC(w0, w1), s, i).Some?
  {
    var x: nat :| Gap(s, i + |w0|, x) && OccursAtFold(w1, s, x) && Gap(s, x + |w1|, a);
    MidCSome(s, x + |w1|, a, b, c, e);
    SpacesSome(Text(w1, true, Spaces(Lazy(AfterFirstC))), s, i + |w0|, x);
  }

  /** `\s+([^,;]+?)\s+and\s+([^,;]+?)\b` matches from `j` at text of that shape. */
  lemma MidCSome(s: string, j: nat, a: nat, b: nat, c: nat, e: nat)
    requires Gap(s, j, a) && Capture(s, a, b) && SpacedWord(s, b, "and", c) && LastCapture(s, c, e)
    ensures Run(Spaces(Lazy(AfterFirstC)), s, j).Some?
  {
    var y: nat :| Gap(s, b, y) && OccursAtFold("and", s, y) && Gap(s, y + 3, c);
    TailSome(s, y + 3, c, e);
    SpacesSome(Text("and", true, Tail), s, b, y);
    assert Run(AfterFirstC, s, b).Some?;
    LazySome(AfterFirstC, s, a, b);
    SpacesSome(Lazy(AfterFirstC), s, j, a);
  }

  /** The first and third long rules match at `i` exactly when the text there has the
      shape `LongAText` describes. */
  lemma LongAHitIff(w0: string, w1: string, w3: string, s: string, i: nat)
    requires w0 != []
    ensures IsHit(M(LongA(w0, w1, w3)), s, i) <==> exists a, b, c, e :: LongAText(w0, w1, w3, s, i, a, b, c, e)
  {
    if IsHit(M(LongA(w0, w1, w3)), s, i) {
      var a, b, c := LongAShape(w0, w1, w3, s, i);
      assert LongAText(w0, w1, w3, s, i, a, b, c, Run(LongA(w0, w1, w3), s, i).value.end);
    }
    if exists a, b, c, e :: LongAText(w0, w1, w3, s, i, a, b, c, e) {
      var a, b, c, e :| LongAText(w0, w1, w3, s, i, a, b, c, e);
      LongAComplete(w0, w1, w3, s, i, a, b, c, e);
      var a', b', c' := LongAShape(w0, w1, w3, s, i);
    }
  }

  /** The second long rule matches exactly at text of the shape `LongBText` describes. */
  lemma LongBHitIff(w0: string, w3: string, s: string, i: nat)
    requires w0 != []
    ensures IsHit(M(LongB(w0, w3)), s, i) <==> exists a, b, c, e :: LongBText(w0, w3, s, i, a, b, c, e)
  {
    if IsHit(M(LongB(w0, w3)), s, i) {
      var a, b, c := LongBShape(w0, w3, s, i);
      assert LongBText(w0, w3, s, i, a, b, c, Run(LongB(w0, w3), s, i).value.end);
    }
    if exists a, b, c, e :: LongBText(w0, w3, s, i, a, b, c, e) {
      var a, b, c, e :| LongBText(w0, w3, s, i, a, b, c, e);
      LongBComplete(w0, w3, s, i, a, b, c, e);
      var a', b', c' := LongBShape(w0, w3, s, i);
    }
  }

  /** The last long rule matches exactly at text of the shape `LongCText` describes. */
  lemma LongCHitIff(w0: string, w1: string, s: string, i: nat)
    requires w0 != []
    ensures IsHit(M(LongC(w0, w1)), s, i) <==> exists a, b, c, e :: LongCText(w0, w1, s, i, a, b, c, e)
  {
    if IsHit(M(LongC(w0, w1)), s, i) {
      var a, b, c := LongCShape(w0, w1, s, i);
      assert LongCText(w0, w1, s, i, a, b, c, Run(LongC(w0, w1), s, i).value.end);
    }
    if exists a, b, c, e :: LongCText(w0, w1, s, i, a, b, c, e) {
      var a, b, c, e :| LongCText(w0, w1, s, i, a, b, c, e);
      LongCComplete(w0, w1, s, i, a, b, c, e);
      var a', b', c' := LongCShape(w0, w1, s, i);
    }
  }

  /** A template `P\1Q\2` writes the two literals and the two captured slices. */
  lemma ExpandFour(p: string, q: string, s: string, i: nat, mt: Match)
    requires |mt.groups| == 2
    requires mt.groups[0].start <= mt.groups[0].end <= |s| && mt.groups[1].start <= mt.groups[1].end <= |s|
    ensures ExpandParts([Lit(p), Group(1), Lit(q), Group(2)], s, i, mt)
      == p + s[mt.groups[0].start..mt.groups[0].end] + q + s[mt.groups[1].start..mt.groups[1].end]
  {
    var parts := [Lit(p), Group(1), Lit(q), Group(2)];
    var g1 := s[mt.groups[0].start..mt.groups[0].end];
    var g2 := s[mt.groups[1].start..mt.groups[1].end];
    assert parts[1..][1..][1..][1..] == [];
    assert ExpandParts(parts[1..][1..][1..], s, i, mt) == g2 + [];
    assert ExpandParts(parts[1..][1..], s, i, mt) == q + (g2 + []);
    assert ExpandParts(parts[1..], s, i, mt) == g1 + (q + (g2 + []));
  }

  // ---------------------------------------------------------------------------------------
  // Every rule keeps text in the shape `normalize_space` leaves it in

  /** A case-insensitive occurrence of text without whitespace has no whitespace. */
  lemma FoldNoSpace(w: string, s: string, i: nat, x: nat)
    requires OccursAtFold(w, s, i) && x < |w| && !IsSpace(w[x])
    ensures !IsSpace(s[i + x])
  {
    FoldAtIff(w, s, i);
    CaseKeepsClass(s[i + x]);
    CaseKeepsClass(w[x]);
  }

  predicate NoSpace(w: string) {
    forall x :: 0 <= x < |w| ==> !IsSpace(w[x])
  }

  lemma NoSpaceSingleSpaced(w: string)
    requires NoSpace(w)
    ensures SingleSpaced(w)
  {
  }

  lemma SeparatedBetweenSafe(s: string)
    ensures ShapeSafe(M(SeparatedBetween), SeparatedOnly, s)
  {
    forall p: nat | IsHit(M(SeparatedBetween), s, p)
      ensures ShapeSafeAt(M(SeparatedBetween), SeparatedOnly, s, p)
    {
      var w := "separated between";
      ExpandLiteral("separated", s, p, Run(SeparatedBetween, s, p).value);
      assert w[0] == 's' && w[16] == 'n';
      FoldNoSpace(w, s, p, 0);
      FoldNoSpace(w, s, p, 16);
      assert NoSpace("separated");
    }
  }

  lemma DividBetweenSafeAt(s: string, p: nat)
    requires IsHit(M(DividBetween), s, p)
    ensures ShapeSafeAt(M(DividBetween), DividOnly, s, p)
  {
    var u := DividShape(s, p);
    var g := s[p + 5..p + 5 + |u|];
    assert "divid"[0] == 'd' && " between"[7] == 'n';
    FoldNoSpace("divid", s, p, 0);
    FoldNoSpace(" between", s, p + 5 + |u|, 7);
    EndingNoSpace(s, p + 5, u);
    DividNoSpace();
    NoSpaceConcat("divid", g);
    NoSpaceSafe(M(DividBetween), DividOnly, s, p, "divid" + g);
  }

  lemma DividNoSpace()
    ensures NoSpace("divid")
  {
    var w := "divid";
    assert w[0] == 'd' && w[1] == 'i' && w[2] == 'v' && w[3] == 'i' && w[4] == 'd';
  }

  /** The ending "e" or "ing", in any case, holds no whitespace. */
  lemma EndingNoSpace(s: string, i: nat, u: string)
    requires u in ["e", "ing"] && OccursAtFold(u, s, i)
    ensures NoSpace(s[i..i + |u|])
  {
    var t := s[i..i + |u|];
    forall y | 0 <= y < |t|
      ensures !IsSpace(t[y])
    {
      assert t[y] == s[i + y];
      assert u == "e" || u == "ing";
      assert u[y] in "eing";
      FoldNoSpace(u, s, i, y);
    }
  }

  lemma NoSpaceConcat(a: string, b: string)
    requires NoSpace(a) && NoSpace(b)
    ensures NoSpace(a + b)
  {
    forall y | 0 <= y < |a + b|
      ensures !IsSpace((a + b)[y])
    {
      if y >= |a| {
        assert (a + b)[y] == b[y - |a|];
      }
    }
  }

  /** A replacement without whitespace, for a match that starts and ends with a non-space,
      keeps the shape. */
  lemma NoSpaceSafe(m: Matcher, r: Repl, s: string, i: nat, rep: string)
    requires IsHit(m, s, i) && ReplAt(m, r, s, i) == rep && rep != [] && NoSpace(rep)
    requires !IsSpace(s[i]) && !IsSpace(s[EndOf(m, s, i) - 1])
    ensures ShapeSafeAt(m, r, s, i)
  {
    NoSpaceSingleSpaced(rep);
  }


  lemma DividBetweenSafe(s: string)
    ensures ShapeSafe(M(DividBetween), DividOnly, s)
  {
    forall p: nat | IsHit(M(DividBetween), s, p)
      ensures ShapeSafeAt(M(DividBetween), DividOnly, s, p)
    {
      DividBetweenSafeAt(s, p);
    }
  }

  /** `P\1Q\2` is shape-safe for a match of a long pattern when `P` starts with a
      non-space and ends with a space, and `Q` is surrounded by single spaces. */
  lemma LongSafeAt(rx: Rx, w0: string, p: string, q: string, s: string, i: nat)
    requires SingleSpaced(s) && IsHit(M(rx), s, i)
    requires TwoGroups(s, i, Run(rx, s, i).value) && OccursAtFold(w0, s, i) && w0 != [] && !IsSpace(w0[0])
    requires Opener(p) && Joiner(q)
    ensures ShapeSafeAt(M(rx), Template([Lit(p), Group(1), Lit(q), Group(2)]), s, i)
  {
    LongGroups(s, i, Run(rx, s, i).value);
    LongRest(rx, w0, p, q, s, i);
  }

  /** The two groups of a long match, both non-empty, single-spaced and starting with a
      non-space; the first also ends with one, and the second ends the match. */
  predicate GroupsShaped(s: string, mt: Match) {
    && |mt.groups| == 2
    && mt.groups[0].start < mt.groups[0].end <= |s|
    && mt.groups[1].start < mt.groups[1].end == mt.end <= |s|
    && var g1, g2 := s[mt.groups[0].start..mt.groups[0].end], s[mt.groups[1].start..mt.groups[1].end];
    && !IsSpace(g1[0]) && !IsSpace(g1[|g1| - 1]) && SingleSpaced(g1)
    && !IsSpace(g2[0]) && SingleSpaced(g2) && g2[|g2| - 1] == s[mt.end - 1]
  }

  lemma LongGroups(s: string, i: nat, mt: Match)
    requires SingleSpaced(s) && TwoGroups(s, i, mt)
    ensures GroupsShaped(s, mt)
  {
    var a, b, c, e := mt.groups[0].start, mt.groups[0].end, mt.groups[1].start, mt.end;
    assert !IsSpace(s[a]) && !IsSpace(s[b - 1]) && !IsSpace(s[c]);
    SingleSpacedSlice(s, a, b);
    SingleSpacedSlice(s, c, e);
  }

  lemma LongRest(rx: Rx, w0: string, p: string, q: string, s: string, i: nat)
    requires IsHit(M(rx), s, i) && GroupsShaped(s, Run(rx, s, i).value)
    requires OccursAtFold(w0, s, i) && w0 != [] && !IsSpace(w0[0])
    requires Opener(p) && Joiner(q)
    ensures ShapeSafeAt(M(rx), Template([Lit(p), Group(1), Lit(q), Group(2)]), s, i)
  {
    var mt := Run(rx, s, i).value;
    var r := Template([Lit(p), Group(1), Lit(q), Group(2)]);
    ExpandFour(p, q, s, i, mt);
    MatchOfRx(rx, r, s, i);
    FoldNoSpace(w0, s, i, 0);
    FourPiecesSafe(M(rx), r, s, i, mt, p, q);
  }

  /** The matcher of a pattern reports the pattern's own match. */
  lemma MatchOfRx(rx: Rx, r: Repl, s: string, i: nat)
    requires IsHit(M(rx), s, i)
    ensures ReplAt(M(rx), r, s, i) == Expand(r, s, i, Run(rx, s, i).value)
    ensures EndOf(M(rx), s, i) == Run(rx, s, i).value.end
  {
  }

  /** A template piece that opens a rewrite: it starts with a non-space and ends with a space. */
  predicate Opener(p: string) {
    p != [] && !IsSpace(p[0]) && IsSpace(p[|p| - 1]) && SingleSpaced(p)
  }

  /** A template piece between the groups: it starts and ends with a space. */
  predicate Joiner(q: string) {
    |q| >= 2 && IsSpace(q[0]) && IsSpace(q[|q| - 1]) && SingleSpaced(q)
  }

  /** A long match replaced by `P g1 Q g2` is shape-safe when it starts with a non-space. */
  lemma FourPiecesSafe(m: Matcher, r: Repl, s: string, i: nat, mt: Match, p: string, q: string)
    requires IsHit(m, s, i) && GroupsShaped(s, mt) && EndOf(m, s, i) == mt.end && !IsSpace(s[i])
    requires ReplAt(m, r, s, i) == p + s[mt.groups[0].start..mt.groups[0].end] + q + s[mt.groups[1].start..mt.groups[1].end]
    requires Opener(p) && Joiner(q)
    ensures ShapeSafeAt(m, r, s, i)
  {
    var g1, g2 := s[mt.groups[0].start..mt.groups[0].end], s[mt.groups[1].start..mt.groups[1].end];
    FourPieces(p, g1, q, g2);
  }

  /** `P g1 Q g2` is single-spaced and starts and ends like `P` and `g2` when the pieces
      meet space to non-space. */
  lemma FourPieces(p: string, g1: string, q: string, g2: string)
    requires Opener(p) && Joiner(q)
    requires g1 != [] && !IsSpace(g1[0]) && !IsSpace(g1[|g1| - 1]) && SingleSpaced(g1)
    requires g2 != [] && !IsSpace(g2[0]) && SingleSpaced(g2)
    ensures var rep := p + g1 + q + g2;
      SingleSpaced(rep) && rep[0] == p[0] && rep[|rep| - 1] == g2[|g2| - 1]
  {
    SingleSpacedConcat(p, g1);
    assert (p + g1)[|p + g1| - 1] == g1[|g1| - 1];
    SingleSpacedConcat(p + g1, q);
    assert (p + g1 + q)[|p + g1 + q| - 1] == q[|q| - 1];
    SingleSpacedConcat(p + g1 + q, g2);
  }

  lemma LongASafe(w0: string, w1: string, w3: string, p: string, q: string, s: string)
    requires SingleSpaced(s) && w0 != [] && !IsSpace(w0[0])
    requires Opener(p) && Joiner(q)
    ensures ShapeSafe(M(LongA(w0, w1, w3)), Template([Lit(p), Group(1), Lit(q), Group(2)]), s)
  {
    forall i | IsHit(M(LongA(w0, w1, w3)), s, i)
      ensures ShapeSafeAt(M(LongA(w0, w1, w3)), Template([Lit(p), Group(1), Lit(q), Group(2)]), s, i)
    {
      var a, b, c := LongAShape(w0, w1, w3, s, i);
      LongSafeAt(LongA(w0, w1, w3), w0, p, q, s, i);
    }
  }

  lemma LongBSafe(w0: string, w3: string, p: string, q: string, s: string)
    requires SingleSpaced(s) && w0 != [] && !IsSpace(w0[0])
    requires Opener(p) && Joiner(q)
    ensures ShapeSafe(M(LongB(w0, w3)), Template([Lit(p), Group(1), Lit(q), Group(2)]), s)
  {
    forall i | IsHit(M(LongB(w0, w3)), s, i)
      ensures ShapeSafeAt(M(LongB(w0, w3)), Template([Lit(p), Group(1), Lit(q), Group(2)]), s, i)
    {
      var a, b, c := LongBShape(w0, w3, s, i);
      LongSafeAt(LongB(w0, w3), w0, p, q, s, i);
    }
  }

  lemma LongCSafe(w0: string, w1: string, p: string, q: string, s: string)
    requires SingleSpaced(s) && w0 != [] && !IsSpace(w0[0])
    requires Opener(p) && Joiner(q)
    ensures ShapeSafe(M(LongC(w0, w1)), Template([Lit(p), Group(1), Lit(q), Group(2)]), s)
  {
    forall i | IsHit(M(LongC(w0, w1)), s, i)
      ensures ShapeSafeAt(M(LongC(w0, w1)), Template([Lit(p), Group(1), Lit(q), Group(2)]), s, i)
    {
      var a, b, c := LongCShape(w0, w1, s, i);
      LongSafeAt(LongC(w0, w1), w0, p, q, s, i);
    }
  }

  /** The two short rules keep the shape. */
  lemma ShortRulesNormalized(text: string)
    requires Normalized(text)
    ensures Normalized(Sub(M(DividBetween), DividOnly, Sub(M(SeparatedBetween), SeparatedOnly, text)))
  {
    var t1 := Sub(M(SeparatedBetween), SeparatedOnly, text);
    SeparatedBetweenSafe(text);
    SubKeepsNormalized(M(SeparatedBetween), SeparatedOnly, text);
    DividBetweenSafe(t1);
    SubKeepsNormalized(M(DividBetween), DividOnly, t1);
  }

  /** The literal pieces of the long rules' templates. */
  lemma TemplatePieces()
    ensures "to divide"[0] == 't' && "separated"[0] == 's'
    ensures Opener("to divide ") && Opener("separated ")
    ensures Joiner(" from ") && Joiner(" from the ")
  {
    OpenerDivide();
    OpenerSeparated();
    JoinerFrom();
    JoinerFromThe();
  }

  lemma OpenerDivide()
    ensures Opener("to divide ")
  {
    var pd := "to divide ";
    assert pd[0] == 't' && pd[9] == ' ';
    assert SingleSpaced(pd);
  }

  lemma OpenerSeparated()
    ensures Opener("separated ")
  {
    var ps := "separated ";
    assert ps[0] == 's' && ps[9] == ' ';
    assert SingleSpaced(ps);
  }

  lemma JoinerFrom()
    ensures Joiner(" from ")
  {
    var qf := " from ";
    assert qf[0] == ' ' && qf[5] == ' ';
    assert SingleSpaced(qf);
  }

  lemma JoinerFromThe()
    ensures Joiner(" from the ")
  {
    var qt := " from the ";
    assert qt[0] == ' ' && qt[9] == ' ';
    assert SingleSpaced(qt);
  }

  /** Text in the shape `normalize_space` leaves it in (single spaces, trimmed) keeps that
      shape through `enforce_between_from`: every rewrite starts and ends the way the
      phrase it replaces does, and joins its pieces with single spaces. */
  lemma EnforceBetweenFromNormalized(text: string)
    requires Normalized(text)
    ensures Normalized(EnforceBetweenFrom(text))
  {
    var t2 := Sub(M(DividBetween), DividOnly, Sub(M(SeparatedBetween), SeparatedOnly, text));
    ShortRulesNormalized(text);
    TemplatePieces();
    var divide, separated := "to divide", "separated";
    var pd, ps, qf, qt := "to divide ", "separated ", " from ", " from the ";
    var t3 := Sub(M(DivideBetweenAndBetween), DivideFrom, t2);
    LongASafe(divide, "between", "between", pd, qf, t2);
    SubKeepsNormalized(M(DivideBetweenAndBetween), DivideFrom, t2);
    var t4 := Sub(M(DivideAndBetween), DivideFrom, t3);
    LongBSafe(divide, "between", pd, qf, t3);
    SubKeepsNormalized(M(DivideAndBetween), DivideFrom, t3);
    var t5 := Sub(M(SeparatedBetweenAndThe), SeparatedFromThe, t4);
    LongASafe(separated, "between", "the", ps, qt, t4);
    SubKeepsNormalized(M(SeparatedBetweenAndThe), SeparatedFromThe, t4);
    LongCSafe(separated, "between", ps, qf, t5);
    SubKeepsNormalized(M(SeparatedBetweenAnd), SeparatedFrom, t5);
  }
}
