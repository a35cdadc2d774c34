/** Chapter runs: both verse formatters print a chapter line whenever a verse's chapter
    differs from the one before it, so the chapter lines follow the maximal runs of equal
    chapter numbers. */
module ChapterRuns {

  /** Index `j` begins a run: it is the first, or its value differs from the one before. */
  predicate StartsRun(xs: seq<nat>, j: nat)
    requires j < |xs|
  {
    j == 0 || xs[j - 1] != xs[j]
  }

  /** The chapter of each item, in order. */
  function Chapters<T>(xs: seq<T>, chapter: T -> nat): (chs: seq<nat>)
    ensures |chs| == |xs| && forall j :: 0 <= j < |xs| ==> chs[j] == chapter(xs[j])
  {
    seq(|xs|, j requires 0 <= j < |xs| => chapter(xs[j]))
  }

  /** The value of each maximal run of equal neighbours, in order. */
  function Runs(xs: seq<nat>): (r: seq<nat>)
    ensures |r| <= |xs|
    ensures xs != [] ==> r != [] && r[|r| - 1] == xs[|xs| - 1]
    decreases |xs|
  {
    if xs == [] then []
    else
      var n := |xs|;
      var prev := Runs(xs[..n - 1]);
      if StartsRun(xs, n - 1) then prev + [xs[n - 1]] else prev
  }

  /** One more item adds a run exactly when its chapter starts one. */
  lemma ChaptersNext<T>(xs: seq<T>, chapter: T -> nat)
    requires xs != []
    ensures var n := |xs|;
      Runs(Chapters(xs, chapter)) == Runs(Chapters(xs[..n - 1], chapter))
        + (if StartsRun(Chapters(xs, chapter), n - 1) then [chapter(xs[n - 1])] else [])
  {
    var n := |xs|;
    assert Chapters(xs, chapter)[..n - 1] == Chapters(xs[..n - 1], chapter);
  }

  predicate NonDecreasing(xs: seq<nat>) {
    forall i, j :: 0 <= i < j < |xs| ==> xs[i] <= xs[j]
  }

  predicate Increasing(xs: seq<nat>) {
    forall i, j :: 0 <= i < j < |xs| ==> xs[i] < xs[j]
  }

  /** Neighbouring runs have different values, and every value of `xs` heads a run. */
  lemma {:induction false} RunsProperties(xs: seq<nat>)
    ensures forall k :: 0 < k < |Runs(xs)| ==> Runs(xs)[k - 1] != Runs(xs)[k]
    ensures forall x :: x in Runs(xs) <==> x in xs
    decreases |xs|
  {
    if xs != [] {
      var n := |xs|;
      var pre := xs[..n - 1];
      RunsProperties(pre);
      forall x
        ensures x in Runs(xs) <==> x in xs
      {
        if !StartsRun(xs, n - 1) {
          assert xs[n - 1] == pre[n - 2];
        }
        assert xs == pre + [xs[n - 1]];
      }
    }
  }

  /** On non-decreasing values the runs are strictly increasing, so each value heads
      exactly one run. */
  lemma {:induction false} RunsOfNonDecreasing(xs: seq<nat>)
    requires NonDecreasing(xs)
    ensures Increasing(Runs(xs))
    decreases |xs|
  {
    if xs != [] {
      var n := |xs|;
      var pre := xs[..n - 1];
      RunsOfNonDecreasing(pre);
      if n > 1 && StartsRun(xs, n - 1) {
        var r := Runs(pre);
        var rs := r + [xs[n - 1]];
        assert r[|r| - 1] == xs[n - 2] < xs[n - 1];
        forall i, j | 0 <= i < j < |rs|
          ensures rs[i] < rs[j]
        {
          if j == |r| && i < |r| - 1 {
            assert r[i] < r[|r| - 1];
          }
        }
      }
    }
  }

  /** A value that comes back after another one heads a second run. */
  lemma RunsComeBack(a: nat, b: nat)
    requires a != b
    ensures Runs([a, b, a]) == [a, b, a]
  {
    var xs := [a, b, a];
    assert xs[..1] == [a] && xs[..2] == [a, b];
    assert [a, b][..1] == [a];
    assert [a][..0] == [];
  }
}
