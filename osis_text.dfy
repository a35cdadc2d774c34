/** Verse text in scripts/osis_to_kjv_jsonl.py: `iter_text_excluding`, which collects the
    text of an element while skipping notes, and `normalize_text`, which cleans it up. */
module OsisText {
  import opened Wrappers
  import opened Chars
  import opened Scan
  import opened Whitespace
  import opened Xml

  /** Tags whose subtrees `iter_text_excluding` skips (its default `exclude_tags`). */
  predicate Excluded(e: Element) {
    LocalName(e.tag) == "note"
  }

  /** The text an element contributes once notes are skipped: nothing for a note, and
      otherwise its text followed by, for each child, the child's contribution and the
      child's tail. */
  function TextOf(e: Element): string
    decreases e
  {
    if Excluded(e) then [] else e.text + ChildrenText(e.children)
  }

  function ChildrenText(cs: seq<Element>): string
    decreases cs
  {
    if cs == [] then [] else TextOf(cs[0]) + cs[0].tail + ChildrenText(cs[1..])
  }

  /** `[t] if t else []` */
  function NonEmpty(t: string): (r: seq<string>)
    ensures forall k :: 0 <= k < |r| ==> r[k] != []
  {
    if t == [] then [] else [t]
  }

  /** The chunks `walk(e)` appends, in order. */
  function WalkChunks(e: Element): seq<string>
    decreases e, 1
  {
    if Excluded(e) then [] else NonEmpty(e.text) + ChildChunks(e, |e.children|)
  }

  /** The chunks the loop over the children of `e` appends for its first `n` children. */
  function ChildChunks(e: Element, n: nat): seq<string>
    requires n <= |e.children|
    decreases e, 0, n
  {
    if n == 0 then []
    else
      var c := e.children[n - 1];
      assert c in e.children;
      ChildChunks(e, n - 1) + WalkChunks(c) + NonEmpty(c.tail)
  }

  /** `"".join(chunks)` */
  function Concat(chunks: seq<string>): string {
    if chunks == [] then [] else Concat(chunks[..|chunks| - 1]) + chunks[|chunks| - 1]
  }

  lemma {:induction false} ConcatAppend(a: seq<string>, b: seq<string>)
    ensures Concat(a + b) == Concat(a) + Concat(b)
    decreases |b|
  {
    if b == [] {
      assert a + b == a;
    } else {
      var n := |b| - 1;
      assert (a + b)[..|a + b| - 1] == a + b[..n];
      assert Concat(a + b) == Concat(a + b[..n]) + b[n];
      ConcatAppend(a, b[..n]);
    }
  }

  lemma ConcatNonEmpty(t: string)
    ensures Concat(NonEmpty(t)) == t
  {
    if t != [] {
      assert [t][..0] == [];
    }
  }

  /** `walk(e)`: appends the chunks of `e` to `chunks`. */
  method Walk(e: Element, chunks: seq<string>) returns (out: seq<string>)
    ensures out == chunks + WalkChunks(e)
    decreases e, 1
  {
    if Excluded(e) {
      return chunks;
    }
    out := chunks;
    if e.text != [] {
      out := out + [e.text];
    }
    assert out == chunks + NonEmpty(e.text);
    out := WalkChildren(e, out);
  }

  /** The loop of `walk` over the children of `e`. */
  method WalkChildren(e: Element, chunks: seq<string>) returns (out: seq<string>)
    ensures out == chunks + ChildChunks(e, |e.children|)
    decreases e, 0
  {
    out := chunks;
    for i := 0 to |e.children|
      invariant out == chunks + ChildChunks(e, i)
    {
      var child := e.children[i];
      assert child in e.children;
      ChildChunksNext(e, i);
      ghost var prev := out;
      out := Walk(child, out);
      if child.tail != [] {
        out := out + [child.tail];
      }
      assert out == prev + WalkChunks(child) + NonEmpty(child.tail);
      ChunksAssoc(chunks, ChildChunks(e, i), WalkChunks(child), NonEmpty(child.tail));
    }
  }

  lemma ChunksAssoc(a: seq<string>, b: seq<string>, c: seq<string>, d: seq<string>)
    ensures a + b + c + d == a + (b + c + d)
  {
  }

  lemma ChildChunksNext(e: Element, i: nat)
    requires i < |e.children|
    ensures ChildChunks(e, i + 1) == ChildChunks(e, i) + WalkChunks(e.children[i]) + NonEmpty(e.children[i].tail)
  {
  }

  /** `iter_text_excluding(elem)` */
  method IterTextExcluding(e: Element) returns (r: string)
    ensures r == TextOf(e)
  {
    var chunks := Walk(e, []);
    WalkText(e);
    r := Concat(chunks);
    assert [] + WalkChunks(e) == WalkChunks(e);
  }

  /** Every chunk `walk` appends is non-empty. */
  lemma {:induction false} WalkChunksNonEmpty(e: Element)
    ensures forall k :: 0 <= k < |WalkChunks(e)| ==> WalkChunks(e)[k] != []
    decreases e, 1
  {
    if !Excluded(e) {
      ChildChunksNonEmpty(e, |e.children|);
    }
  }

  lemma {:induction false} ChildChunksNonEmpty(e: Element, n: nat)
    requires n <= |e.children|
    ensures forall k :: 0 <= k < |ChildChunks(e, n)| ==> ChildChunks(e, n)[k] != []
    decreases e, 0, n
  {
    if n > 0 {
      var c := e.children[n - 1];
      assert c in e.children;
      ChildChunksNonEmpty(e, n - 1);
      WalkChunksNonEmpty(c);
    }
  }

  /** The chunks `walk` collects join into the text of the element with its notes skipped. */
  lemma {:induction false} WalkText(e: Element)
    ensures Concat(WalkChunks(e)) == TextOf(e)
    decreases e, 1
  {
    if !Excluded(e) {
      ChildChunksText(e, |e.children|);
      ConcatAppend(NonEmpty(e.text), ChildChunks(e, |e.children|));
      ConcatNonEmpty(e.text);
      assert e.children[..|e.children|] == e.children;
    }
  }

  lemma {:induction false} ChildChunksText(e: Element, n: nat)
    requires n <= |e.children|
    ensures Concat(ChildChunks(e, n)) == ChildrenText(e.children[..n])
    decreases e, 0, n
  {
    if n > 0 {
      var c := e.children[n - 1];
      assert c in e.children;
      ChildChunksText(e, n - 1);
      WalkText(c);
      ChildChunksTextStep(e, n);
    }
  }

  lemma ChildChunksTextStep(e: Element, n: nat)
    requires 0 < n <= |e.children|
    requires Concat(ChildChunks(e, n - 1)) == ChildrenText(e.children[..n - 1])
    requires Concat(WalkChunks(e.children[n - 1])) == TextOf(e.children[n - 1])
    ensures Concat(ChildChunks(e, n)) == ChildrenText(e.children[..n])
  {
    var c := e.children[n - 1];
    ChildChunksNext(e, n - 1);
    ChildrenTextPrefix(e.children, n);
    ChunksJoin(ChildChunks(e, n - 1), WalkChunks(c), c.tail, ChildrenText(e.children[..n - 1]), TextOf(c),
      ChildChunks(e, n), ChildrenText(e.children[..n]));
  }

  /** The text of the first `n` children is that of the first `n - 1` and then the last. */
  lemma ChildrenTextPrefix(cs: seq<Element>, n: nat)
    requires 0 < n <= |cs|
    ensures ChildrenText(cs[..n]) == ChildrenText(cs[..n - 1]) + TextOf(cs[n - 1]) + cs[n - 1].tail
  {
    ChildrenTextSnoc(cs[..n - 1], cs[n - 1]);
    assert cs[..n] == cs[..n - 1] + [cs[n - 1]];
  }

  lemma ChunksJoin(a: seq<string>, w: seq<string>, t: string, x: string, y: string, chunks: seq<string>, text: string)
    requires chunks == a + w + NonEmpty(t) && Concat(a) == x && Concat(w) == y && text == x + y + t
    ensures Concat(chunks) == text
  {
    ConcatThree(a, w, t);
  }

  lemma ConcatThree(a: seq<string>, b: seq<string>, t: string)
    ensures Concat(a + b + NonEmpty(t)) == Concat(a) + Concat(b) + t
  {
    ConcatAppend(a + b, NonEmpty(t));
    ConcatAppend(a, b);
    ConcatNonEmpty(t);
  }

  lemma {:induction false} ChildrenTextSnoc(cs: seq<Element>, c: Element)
    ensures ChildrenText(cs + [c]) == ChildrenText(cs) + TextOf(c) + c.tail
    decreases |cs|
  {
    if cs == [] {
      assert [c][1..] == [];
    } else {
      assert (cs + [c])[1..] == cs[1..] + [c];
      ChildrenTextSnoc(cs[1..], c);
    }
  }

  /** In a tree without notes, `iter_text_excluding` is ElementTree's `itertext`. */
  predicate NoteFree(e: Element)
    decreases e
  {
    !Excluded(e) && forall k :: 0 <= k < |e.children| ==> NoteFree(e.children[k])
  }

  lemma {:induction false} NoteFreeItertext(e: Element)
    requires NoteFree(e)
    ensures TextOf(e) == Itertext(e)
    decreases e, 1
  {
    NoteFreeItertextAll(e.children);
  }

  lemma {:induction false} NoteFreeItertextAll(cs: seq<Element>)
    requires forall k :: 0 <= k < |cs| ==> NoteFree(cs[k])
    ensures ChildrenText(cs) == ItertextAll(cs)
    decreases cs, 0
  {
    if cs != [] {
      NoteFreeItertext(cs[0]);
      NoteFreeItertextAll(cs[1..]);
    }
  }

  /** A note contributes nothing: what stands at its place among the children, whatever
      it holds, adds only its tail. */
  lemma {:induction false} NoteChildTail(cs: seq<Element>, k: nat, other: Element)
    requires k < |cs| && Excluded(cs[k]) && Excluded(other) && other.tail == cs[k].tail
    ensures ChildrenText(cs[k := other]) == ChildrenText(cs)
    decreases |cs|
  {
    if k > 0 {
      assert cs[k := other][1..] == cs[1..][k - 1 := other];
      NoteChildTail(cs[1..], k - 1, other);
    } else {
      assert cs[k := other][1..] == cs[1..];
    }
  }

  /** The element's own tail is never part of its text. */
  lemma TextIgnoresTail(e: Element, t: string)
    ensures TextOf(e.(tail := t)) == TextOf(e)
  {
  }

  // ---------------------------------------------------------------------------------
  // normalize_text

  const Nbsp: char := '\U{A0}'

  /** The characters of `STRIP_PUNCT_SPACE_RE`'s class `[,.;:!?]`. */
  const Punct: set<char> := {',', '.', ';', ':', '!', '?'}

  /** The characters of `FIX_QUOTES_RE`'s class: right single and right double quotation marks. */
  const CloseQuotes: set<char> := {'\U{2019}', '\U{201D}'}

  /** `s.replace("\u00a0", " ")` */
  function ReplaceNbsp(s: string): (r: string)
    ensures |r| == |s|
    ensures forall k :: 0 <= k < |s| ==> r[k] == (if s[k] == Nbsp then ' ' else s[k])
  {
    seq(|s|, k requires 0 <= k < |s| => if s[k] == Nbsp then ' ' else s[k])
  }

  /** `BRACKETED_RE`, `\[[^\]]*\]`: an opening bracket and everything up to the first
      closing bracket after it.  Without a closing bracket later on there is no match. */
  function BracketAt(s: string, i: nat): Option<Match> {
    if i < |s| && s[i] == '[' && ']' in s[i + 1..] then Some(Match(i + 1 + FirstIndex(s[i + 1..], ']') + 1, []))
    else None
  }

  /** The replacement `""`. */
  const Drop: Repl := Template([])

  /** `\s+([...])` for the class `cs`: a run of whitespace and the character after it,
      which is captured.  The greedy run can only be followed by a non-space, so no
      shorter run is ever tried with success. */
  function SpaceBefore(cs: set<char>, s: string, i: nat): Option<Match> {
    if i < |s| && IsSpace(s[i]) && SpaceRunEnd(s, i) < |s| && s[SpaceRunEnd(s, i)] in cs then
      Some(Match(SpaceRunEnd(s, i) + 1, [Span(SpaceRunEnd(s, i), SpaceRunEnd(s, i) + 1)]))
    else None
  }

  function SpaceBeforeAt(cs: set<char>): Matcher {
    (s: string, i: nat) => SpaceBefore(cs, s, i)
  }

  /** The replacement `\1`. */
  const KeepGroup: Repl := Template([Group(1)])

  /** `normalize_text` */
  function NormalizeText(s: string): (r: string)
    ensures Trimmed(r)
  {
    var s1 := ReplaceNbsp(s);
    var s2 := NormalizeSpace(s1);
    var s3 := Strip(Sub(BracketAt, Drop, s2));
    var s4 := Sub(SpaceBeforeAt(Punct), KeepGroup, s3);
    var s5 := Sub(SpaceBeforeAt(CloseQuotes), KeepGroup, s4);
    Strip(s5)
  }

  /** Every replacement is made of characters of the text it replaces. */
  ghost predicate Thinning(m: Matcher, r: Repl, s: string) {
    forall p: nat :: IsHit(m, s, p) ==> forall c :: c in ReplAt(m, r, s, p) ==> c in s[p..EndOf(m, s, p)]
  }

  /** A substitution that only thins the text out brings in no new character. */
  lemma {:induction false} SubChars(m: Matcher, r: Repl, s: string, i: nat, c: char)
    requires Thinning(m, r, s) && i <= |s|
    requires c in SubFrom(m, r, s, i)
    ensures c in s[i..]
    decreases |s| - i
  {
    if IsHit(m, s, i) {
      var e := EndOf(m, s, i);
      assert s[i..] == s[i..e] + s[e..];
      if c !in ReplAt(m, r, s, i) {
        SubChars(m, r, s, e, c);
      }
    } else {
      assert s[i..] == [s[i]] + s[i + 1..];
      if c != s[i] {
        SubChars(m, r, s, i + 1, c);
      }
    }
  }

  lemma BracketThinning(s: string)
    ensures Thinning(BracketAt, Drop, s)
  {
    forall p: nat | IsHit(BracketAt, s, p)
      ensures ReplAt(BracketAt, Drop, s, p) == []
    {
    }
  }

  /** The replacement of a match of `\s+([...])` is the captured character. */
  lemma KeepGroupAt(cs: set<char>, s: string, p: nat)
    requires IsHit(SpaceBeforeAt(cs), s, p)
    ensures EndOf(SpaceBeforeAt(cs), s, p) == SpaceRunEnd(s, p) + 1
    ensures ReplAt(SpaceBeforeAt(cs), KeepGroup, s, p) == [s[SpaceRunEnd(s, p)]]
  {
    var mt := SpaceBeforeAt(cs)(s, p).value;
    var e := SpaceRunEnd(s, p);
    assert mt == Match(e + 1, [Span(e, e + 1)]);
    assert GroupText(s, p, mt, 1) == s[e..e + 1];
    var parts := [Group(1)];
    assert ExpandParts(parts[1..], s, p, mt) == [];
    assert ExpandParts(parts, s, p, mt) == GroupText(s, p, mt, 1) + [];
  }

  lemma SpaceBeforeThinning(cs: set<char>, s: string)
    ensures Thinning(SpaceBeforeAt(cs), KeepGroup, s)
  {
    forall p: nat | IsHit(SpaceBeforeAt(cs), s, p)
      ensures forall c :: c in ReplAt(SpaceBeforeAt(cs), KeepGroup, s, p) ==> c in s[p..EndOf(SpaceBeforeAt(cs), s, p)]
    {
      KeepGroupAt(cs, s, p);
      var e := SpaceRunEnd(s, p);
      assert s[p..e + 1][e - p] == s[e];
    }
  }

  /** A character other than whitespace survives squeezing exactly when it is in the text. */
  lemma {:induction false} SqueezeHas(s: string, c: char)
    requires !IsSpace(c)
    ensures c in Squeeze(s) <==> c in s
    decreases |s|
  {
    if s != [] {
      SqueezeHas(s[1..], c);
      assert s == [s[0]] + s[1..];
    }
  }

  /** No whitespace stands right before a character of `cs`. */
  predicate NoSpaceBefore(s: string, cs: set<char>) {
    forall k :: 0 < k < |s| && s[k] in cs ==> !IsSpace(s[k - 1])
  }

  lemma NoSpaceBeforeCons(x: char, rest: string, cs: set<char>)
    requires NoSpaceBefore(rest, cs)
    requires rest != [] && rest[0] in cs ==> !IsSpace(x)
    ensures NoSpaceBefore([x] + rest, cs)
  {
    var t := [x] + rest;
    forall k | 0 < k < |t| && t[k] in cs
      ensures !IsSpace(t[k - 1])
    {
      assert t[k] == rest[k - 1];
      if k > 1 {
        assert t[k - 1] == rest[k - 2];
      }
    }
  }

  /** The first character `\s+([...])`'s substitution writes at `i`. */
  function FirstOut(cs: set<char>, s: string, i: nat): char
    requires i < |s|
  {
    if IsHit(SpaceBeforeAt(cs), s, i) then s[SpaceRunEnd(s, i)] else s[i]
  }

  /** A whitespace character before a match, or before a character of the class, starts
      a match itself. */
  lemma SpaceBeforeBack(cs: set<char>, s: string, i: nat)
    requires forall c :: c in cs ==> !IsSpace(c)
    requires i + 1 < |s|
    ensures IsSpace(s[i]) && (IsHit(SpaceBeforeAt(cs), s, i + 1) || s[i + 1] in cs) ==> IsHit(SpaceBeforeAt(cs), s, i)
  {
    if IsSpace(s[i]) {
      assert SpaceRunEnd(s, i) == SpaceRunEnd(s, i + 1);
    }
  }

  /** After `re.sub(r"\s+([...])", r"\1", s)` no whitespace stands before a character of
      the class, and none stands before a character of `ds` if none did before. */
  lemma {:induction false} SpaceBeforeShape(cs: set<char>, ds: set<char>, s: string, i: nat)
    requires forall c :: c in cs ==> !IsSpace(c)
    requires NoSpaceBefore(s, ds) && i <= |s|
    ensures SpaceBeforeShaped(cs, ds, s, i)
    decreases |s| - i
  {
    if i < |s| {
      if IsHit(SpaceBeforeAt(cs), s, i) {
        KeepGroupAt(cs, s, i);
        SpaceBeforeShape(cs, ds, s, SpaceRunEnd(s, i) + 1);
        SpaceBeforeHit(cs, ds, s, i);
      } else {
        SpaceBeforeShape(cs, ds, s, i + 1);
        SpaceBeforeMiss(cs, ds, s, i);
      }
    }
  }

  /** The output from `i` on has no whitespace before a character of `cs` or `ds`, and
      starts with the character the first step keeps. */
  predicate SpaceBeforeShaped(cs: set<char>, ds: set<char>, s: string, i: nat)
    requires i <= |s|
  {
    var out := SubFrom(SpaceBeforeAt(cs), KeepGroup, s, i);
    && NoSpaceBefore(out, cs + ds)
    && (i < |s| ==> out != [] && out[0] == FirstOut(cs, s, i))
  }

  lemma SpaceBeforeHit(cs: set<char>, ds: set<char>, s: string, i: nat)
    requires forall c :: c in cs ==> !IsSpace(c)
    requires i < |s| && IsHit(SpaceBeforeAt(cs), s, i) && SpaceRunEnd(s, i) + 1 <= |s|
    requires SpaceBeforeShaped(cs, ds, s, SpaceRunEnd(s, i) + 1)
    ensures SpaceBeforeShaped(cs, ds, s, i)
  {
    var m := SpaceBeforeAt(cs);
    var e := SpaceRunEnd(s, i);
    KeepGroupAt(cs, s, i);
    var rest := SubFrom(m, KeepGroup, s, e + 1);
    assert SubFrom(m, KeepGroup, s, i) == [s[e]] + rest;
    NoSpaceBeforeCons(s[e], rest, cs + ds);
  }

  lemma SpaceBeforeMiss(cs: set<char>, ds: set<char>, s: string, i: nat)
    requires forall c :: c in cs ==> !IsSpace(c)
    requires NoSpaceBefore(s, ds) && i < |s| && !IsHit(SpaceBeforeAt(cs), s, i)
    requires SpaceBeforeShaped(cs, ds, s, i + 1)
    ensures SpaceBeforeShaped(cs, ds, s, i)
  {
    var m := SpaceBeforeAt(cs);
    var rest := SubFrom(m, KeepGroup, s, i + 1);
    assert SubFrom(m, KeepGroup, s, i) == [s[i]] + rest;
    if i + 1 < |s| {
      SpaceBeforeBack(cs, s, i);
    }
    NoSpaceBeforeCons(s[i], rest, cs + ds);
  }

  /** No `[` has a `]` anywhere after it. */
  predicate NoBracketPair(s: string) {
    forall a, b :: 0 <= a < b < |s| && s[a] == '[' ==> s[b] != ']'
  }

  lemma NoBracketPairCons(x: char, rest: string)
    requires NoBracketPair(rest) && (x == '[' ==> ']' !in rest)
    ensures NoBracketPair([x] + rest)
  {
    var t := [x] + rest;
    forall a, b | 0 <= a < b < |t| && t[a] == '['
      ensures t[b] != ']'
    {
      assert t[b] == rest[b - 1];
      if a > 0 {
        assert t[a] == rest[a - 1];
      }
    }
  }

  /** `BRACKETED_RE.sub("", s)` leaves no `[` with a `]` after it: an opening bracket that
      is kept had no closing bracket after it. */
  lemma {:induction false} BracketFree(s: string, i: nat)
    requires i <= |s|
    ensures NoBracketPair(SubFrom(BracketAt, Drop, s, i))
    decreases |s| - i
  {
    if i < |s| {
      var out := SubFrom(BracketAt, Drop, s, i);
      if IsHit(BracketAt, s, i) {
        BracketFree(s, EndOf(BracketAt, s, i));
        assert ReplAt(BracketAt, Drop, s, i) == [];
      } else {
        BracketFree(s, i + 1);
        var rest := SubFrom(BracketAt, Drop, s, i + 1);
        if s[i] == '[' {
          BracketThinning(s);
          forall c | c in rest
            ensures c != ']'
          {
            SubChars(BracketAt, Drop, s, i + 1, c);
          }
        }
        NoBracketPairCons(s[i], rest);
      }
    }
  }

  /** `re.sub(r"\s+([...])", r"\1", s)` for a class without `[` keeps a text free of
      bracket pairs free of them. */
  lemma {:induction false} SpaceBeforeKeepsBracketFree(cs: set<char>, s: string, i: nat)
    requires '[' !in cs && NoBracketPair(s) && i <= |s|
    ensures NoBracketPair(SubFrom(SpaceBeforeAt(cs), KeepGroup, s, i))
    decreases |s| - i
  {
    if i < |s| {
      if IsHit(SpaceBeforeAt(cs), s, i) {
        KeepGroupAt(cs, s, i);
        SpaceBeforeKeepsBracketFree(cs, s, SpaceRunEnd(s, i) + 1);
        BracketFreeHit(cs, s, i);
      } else {
        SpaceBeforeKeepsBracketFree(cs, s, i + 1);
        BracketFreeMiss(cs, s, i);
      }
    }
  }

  lemma BracketFreeHit(cs: set<char>, s: string, i: nat)
    requires i < |s| && IsHit(SpaceBeforeAt(cs), s, i) && SpaceRunEnd(s, i) + 1 <= |s|
    requires NoBracketPair(SubFrom(SpaceBeforeAt(cs), KeepGroup, s, SpaceRunEnd(s, i) + 1))
    requires '[' !in cs
    ensures NoBracketPair(SubFrom(SpaceBeforeAt(cs), KeepGroup, s, i))
  {
    var m := SpaceBeforeAt(cs);
    var e := SpaceRunEnd(s, i);
    KeepGroupAt(cs, s, i);
    assert SubFrom(m, KeepGroup, s, i) == [s[e]] + SubFrom(m, KeepGroup, s, e + 1);
    NoBracketPairCons(s[e], SubFrom(m, KeepGroup, s, e + 1));
  }

  lemma BracketFreeMiss(cs: set<char>, s: string, i: nat)
    requires NoBracketPair(s) && i < |s| && !IsHit(SpaceBeforeAt(cs), s, i)
    requires NoBracketPair(SubFrom(SpaceBeforeAt(cs), KeepGroup, s, i + 1))
    ensures NoBracketPair(SubFrom(SpaceBeforeAt(cs), KeepGroup, s, i))
  {
    var m := SpaceBeforeAt(cs);
    var rest := SubFrom(m, KeepGroup, s, i + 1);
    assert SubFrom(m, KeepGroup, s, i) == [s[i]] + rest;
    if s[i] == '[' {
      SpaceBeforeThinning(cs, s);
      forall c | c in rest
        ensures c != ']'
      {
        SubChars(m, KeepGroup, s, i + 1, c);
      }
    }
    NoBracketPairCons(s[i], rest);
  }

  lemma StripKeeps(s: string, cs: set<char>)
    ensures NoSpaceBefore(s, cs) ==> NoSpaceBefore(Strip(s), cs)
    ensures NoBracketPair(s) ==> NoBracketPair(Strip(s))
    ensures forall c :: c in Strip(s) ==> c in s
  {
    var lo := StripStart(s);
    var hi := StripEnd(s, lo);
    assert forall k :: 0 <= k < hi - lo ==> Strip(s)[k] == s[lo + k];
  }

  /** No no-break space is left: it is replaced first, and every later step only drops
      characters or writes plain spaces. */
  lemma NormalizeTextNoNbsp(s: string)
    ensures Nbsp !in NormalizeText(s)
  {
    var s1 := ReplaceNbsp(s);
    var s2 := NormalizeSpace(s1);
    var b := Sub(BracketAt, Drop, s2);
    var s3 := Strip(b);
    var s4 := Sub(SpaceBeforeAt(Punct), KeepGroup, s3);
    var s5 := Sub(SpaceBeforeAt(CloseQuotes), KeepGroup, s4);
    SqueezeHas(s1, Nbsp);
    SqueezeHas(s2, Nbsp);
    BracketThinning(s2);
    if Nbsp in b {
      SubChars(BracketAt, Drop, s2, 0, Nbsp);
    }
    StripKeeps(b, {});
    SpaceBeforeThinning(Punct, s3);
    if Nbsp in s4 {
      SubChars(SpaceBeforeAt(Punct), KeepGroup, s3, 0, Nbsp);
    }
    SpaceBeforeThinning(CloseQuotes, s4);
    if Nbsp in s5 {
      SubChars(SpaceBeforeAt(CloseQuotes), KeepGroup, s4, 0, Nbsp);
    }
    StripKeeps(s5, {});
  }

  /** No whitespace is left before `, . ; : ! ?` or a closing quotation mark. */
  lemma NormalizeTextSpacing(s: string)
    ensures NoSpaceBefore(NormalizeText(s), Punct + CloseQuotes)
  {
    var s2 := NormalizeSpace(ReplaceNbsp(s));
    SpacingSteps(Strip(Sub(BracketAt, Drop, s2)));
  }

  /** The last three steps of `normalize_text` leave no whitespace before the marks,
      whatever text they start from. */
  lemma SpacingSteps(s3: string)
    ensures NoSpaceBefore(Strip(Sub(SpaceBeforeAt(CloseQuotes), KeepGroup, Sub(SpaceBeforeAt(Punct), KeepGroup, s3))), Punct + CloseQuotes)
  {
    var s4 := Sub(SpaceBeforeAt(Punct), KeepGroup, s3);
    var s5 := Sub(SpaceBeforeAt(CloseQuotes), KeepGroup, s4);
    SpaceBeforeShape(Punct, {}, s3, 0);
    assert Punct + {} == Punct;
    SpaceBeforeShape(CloseQuotes, Punct, s4, 0);
    assert CloseQuotes + Punct == Punct + CloseQuotes;
    StripKeeps(s5, Punct + CloseQuotes);
  }

  /** No bracketed span is left: no `[` has a `]` anywhere after it. */
  lemma NormalizeTextNoBrackets(s: string)
    ensures NoBracketPair(NormalizeText(s))
  {
    var s2 := NormalizeSpace(ReplaceNbsp(s));
    BracketFree(s2, 0);
    StripKeeps(Sub(BracketAt, Drop, s2), {});
    BracketsStayOut(Strip(Sub(BracketAt, Drop, s2)));
  }

  /** Text with no bracketed span keeps none through the last three steps of
      `normalize_text`. */
  lemma BracketsStayOut(s3: string)
    requires NoBracketPair(s3)
    ensures NoBracketPair(Strip(Sub(SpaceBeforeAt(CloseQuotes), KeepGroup, Sub(SpaceBeforeAt(Punct), KeepGroup, s3))))
  {
    var s4 := Sub(SpaceBeforeAt(Punct), KeepGroup, s3);
    var s5 := Sub(SpaceBeforeAt(CloseQuotes), KeepGroup, s4);
    SpaceBeforeKeepsBracketFree(Punct, s3, 0);
    SpaceBeforeKeepsBracketFree(CloseQuotes, s4, 0);
    StripKeeps(s5, {});
  }
}
