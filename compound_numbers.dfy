/** `enforce_compound_numbers` of scripts/polish.py: two case-insensitive substitutions that
    write a spelled-out "tens and units" number with a hyphen ("sixty and five" becomes
    "sixty-five"), keeping both words as they were written. */
module CompoundNumbers {
  import opened Wrappers
  import opened Chars
  import opened Scan
  import opened Whitespace
  import opened Regex

  const HighTens: seq<string> := ["sixty", "seventy", "eighty", "ninety"]
  const LowTens: seq<string> := ["twenty", "thirty", "forty", "fifty"]
  const Units: seq<string> := ["one", "two", "three", "four", "five", "six", "seven", "eight", "nine"]

  /** `\b(t1|t2|...)\s+and\s+(u1|u2|...)\b`, case-insensitive. */
  function TensAndUnit(tens: seq<string>, units: seq<string>): Rx {
    Bound(Alt(tens, true, Spaces(Text("and", true, Spaces(Alt(units, true, Bound(Done)))))))
  }

  const HighRule: Rx := TensAndUnit(HighTens, Units)
  const LowRule: Rx := TensAndUnit(LowTens, Units)

  /** `\1-\2` */
  const Hyphenate: Repl := Template([Group(1), Lit("-"), Group(2)])

  function EnforceCompoundNumbers(text: string): string {
    var t := Sub(M(HighRule), Hyphenate, text);
    Sub(M(LowRule), Hyphenate, t)
  }

  /** `\s+and\s+(u1|u2|...)\b` from `j`: whitespace, "and" in any case, whitespace, then
      one of the units ending at a word boundary, captured as the only group. */
  lemma AndUnitShape(units: seq<string>, s: string, j: nat, m: Match) returns (c: nat, u: string)
    requires Run(Spaces(Text("and", true, Spaces(Alt(units, true, Bound(Done))))), s, j) == Some(m)
    ensures u in units && j < c && OccursAtFold(u, s, c) && IsSpace(s[j]) && IsSpace(s[c - 1])
    ensures && Boundary(s, c + |u|)
    ensures m == Match(c + |u|, [Span(c, c + |u|)])
  {
    var k2 := Alt(units, true, Bound(Done));
    var c1 := SpacesPick(Text("and", true, Spaces(k2)), s, j);
    c := SpacesPick(k2, s, c1 + 3);
    u := AltPick(units, true, Bound(Done), s, c);
  }

  /** A template `\1P\2` writes the first captured slice, the literal and the second. */
  lemma ExpandThree(p: string, s: string, i: nat, mt: Match)
    requires |mt.groups| == 2
    requires mt.groups[0].start <= mt.groups[0].end <= |s| && mt.groups[1].start <= mt.groups[1].end <= |s|
    ensures ExpandParts([Group(1), Lit(p), Group(2)], s, i, mt)
      == s[mt.groups[0].start..mt.groups[0].end] + p + s[mt.groups[1].start..mt.groups[1].end]
  {
    var parts := [Group(1), Lit(p), Group(2)];
    var g2 := s[mt.groups[1].start..mt.groups[1].end];
    assert parts[1..][1..][1..] == [];
    assert ExpandParts(parts[1..][1..], s, i, mt) == g2 + [];
    assert ExpandParts(parts[1..], s, i, mt) == p + (g2 + []);
  }

  /** A match is a tens word, whitespace, "and", whitespace and a units word, each in any
      case, starting and ending at word boundaries; it is replaced by the tens word and the
      units word as written, joined by a hyphen. */
  lemma HyphenateShape(tens: seq<string>, units: seq<string>, s: string, i: nat) returns (t: string, c: nat, u: string)
    requires IsHit(M(TensAndUnit(tens, units)), s, i)
    ensures t in tens && u in units
    ensures Boundary(s, i) && OccursAtFold(t, s, i) && OccursAtFold(u, s, c) && Boundary(s, c + |u|)
    ensures i + |t| < c && IsSpace(s[i + |t|]) && IsSpace(s[c - 1])
    ensures EndOf(M(TensAndUnit(tens, units)), s, i) == c + |u|
    ensures ReplAt(M(TensAndUnit(tens, units)), Hyphenate, s, i) == s[i..i + |t|] + "-" + s[c..c + |u|]
  {
    var rx := TensAndUnit(tens, units);
    var k1 := Spaces(Text("and", true, Spaces(Alt(units, true, Bound(Done)))));
    var mt := Run(rx, s, i).value;
    assert Run(Alt(tens, true, k1), s, i) == Some(mt);
    t := AltPick(tens, true, k1, s, i);
    var m1 := Run(k1, s, i + |t|).value;
    c, u := AndUnitShape(units, s, i + |t|, m1);
    assert mt == Match(c + |u|, [Span(i, i + |t|), Span(c, c + |u|)]);
    RunEnd(rx, s, i);
    ExpandThree("-", s, i, mt);
  }

  /** The hyphenated number contains no whitespace and starts and ends as the phrase it
      replaces, so normalised text stays normalised. */
  lemma HyphenateSafe(tens: seq<string>, units: seq<string>, s: string)
    requires Spaceless(tens) && Spaceless(units)
    ensures ShapeSafe(M(TensAndUnit(tens, units)), Hyphenate, s)
  {
    forall p: nat | IsHit(M(TensAndUnit(tens, units)), s, p)
      ensures ShapeSafeAt(M(TensAndUnit(tens, units)), Hyphenate, s, p)
    {
      var t, c, u := HyphenateShape(tens, units, s, p);
      var rep := s[p..p + |t|] + "-" + s[c..c + |u|];
      forall y | 0 <= y < |rep|
        ensures !IsSpace(rep[y])
      {
        if y < |t| {
          FoldSpaceless(t, s, p, p + y);
        } else if y > |t| {
          FoldSpaceless(u, s, c, c + y - |t| - 1);
        }
      }
      assert rep[0] == s[p] && rep[|rep| - 1] == s[c + |u| - 1];
    }
  }

  /** `enforce_compound_numbers` keeps text in the shape `normalize_space` leaves it in. */
  lemma EnforceCompoundNumbersNormalized(text: string)
    requires Normalized(text)
    ensures Normalized(EnforceCompoundNumbers(text))
  {
    NumbersSpaceless();
    PassNormalized(HighTens, Units, text);
    PassNormalized(LowTens, Units, Sub(M(HighRule), Hyphenate, text));
  }

  /** None of the number words holds whitespace. */
  lemma NumbersSpaceless()
    ensures Spaceless(HighTens) && Spaceless(LowTens) && Spaceless(Units)
  {
  }

  /** One pass of `tens and unit` → `tens-unit` keeps text normalised. */
  lemma PassNormalized(tens: seq<string>, units: seq<string>, s: string)
    requires Spaceless(tens) && Spaceless(units) && Normalized(s)
    ensures Normalized(Sub(M(TensAndUnit(tens, units)), Hyphenate, s))
  {
    HyphenateSafe(tens, units, s);
    SubKeepsNormalized(M(TensAndUnit(tens, units)), Hyphenate, s);
  }

  /** Text without a "tens and units" phrase comes out unchanged. */
  lemma EnforceCompoundNumbersNoPhrase(text: string)
    requires forall i: nat :: !IsHit(M(HighRule), text, i) && !IsHit(M(LowRule), text, i)
    ensures EnforceCompoundNumbers(text) == text
  {
    SubIdentity(M(HighRule), Hyphenate, text, 0);
    SubIdentity(M(LowRule), Hyphenate, text, 0);
  }
}
