/** The worked cases that describe the matcher, each derived from the contract
    of `FindMatches` (and of `Merge`) rather than by running the pass. The
    similarity ratio stays abstract: each case only fixes the scores it needs. */
module Scenarios {

  import opened Records
  import opened CloseMatches
  import opened GreedyPass
  import opened Matcher

  /** The one-row table keyed by a single `column`. */
  function Row(column: string, value: string): Record
  {
    map[column := value]
  }

  /** A key built from a single column is that column's value. */
  lemma SingleColumnKey(column: string, value: string)
    ensures Compose(Row(column, value), [column]) == value
  {
    ComposeSplit(Row(column, value), [column], []);
  }

  /** With a single B row that clears the cutoff against the first A row,
      the first A row takes it and no other row is matched. */
  lemma FirstRowTakesOnlyB(run: Run)
    requires run.Valid() && |run.rowsA| > 0 && |run.rowsB| == 1
    requires run.sim(run.KeyB(0), run.KeyA(0)) >= run.cutoff
    ensures FindMatches(run) == [Match(0, 0, run.sim(run.KeyA(0), run.KeyB(0)), run.KeyA(0), run.KeyB(0),
                                       run.rowsA[0], run.rowsB[0])]
  {
    var r := FindMatches(run);
    TakenNone({}, r, 0);
    assert Clears(run, 0, {});
    assert Matched(r, 0);
    var p :| 0 <= p < |r| && r[p].indexA == 0;
    assert |r| == 1 && p == 0;
    assert Faithful(run, r[0]);
    assert r == [r[0]];
  }

  /** Identical names on both sides, ratio 1.0, cutoff 0.8: one match, row 0
      with row 0, storing the ratio 1.0. */
  lemma ExactMatch(sim: Similarity)
    requires sim("JOHN DOE", "JOHN DOE") == 1.0
    ensures Run([Row("name", "JOHN DOE")], [Row("name", "JOHN DOE")], ["name"], ["name"], 0.8, sim).Valid()
    ensures FindMatches(Run([Row("name", "JOHN DOE")], [Row("name", "JOHN DOE")], ["name"], ["name"], 0.8, sim))
            == [Match(0, 0, 1.0, "JOHN DOE", "JOHN DOE", Row("name", "JOHN DOE"), Row("name", "JOHN DOE"))]
  {
    var row := Row("name", "JOHN DOE");
    var run := Run([row], [row], ["name"], ["name"], 0.8, sim);
    SingleColumnKey("name", "JOHN DOE");
    assert run.KeyA(0) == "JOHN DOE" && run.KeyB(0) == "JOHN DOE";
    FirstRowTakesOnlyB(run);
  }

  /** Names that score below the cutoff of 0.9: no match at all. */
  lemma NoMatchBelowCutoff(sim: Similarity)
    requires sim("ZZZZZZ", "AAAAAA") < 0.9
    ensures Run([Row("name", "AAAAAA")], [Row("name", "ZZZZZZ")], ["name"], ["name"], 0.9, sim).Valid()
    ensures FindMatches(Run([Row("name", "AAAAAA")], [Row("name", "ZZZZZZ")], ["name"], ["name"], 0.9, sim)) == []
  {
    var run := Run([Row("name", "AAAAAA")], [Row("name", "ZZZZZZ")], ["name"], ["name"], 0.9, sim);
    SingleColumnKey("name", "AAAAAA");
    SingleColumnKey("name", "ZZZZZZ");
    NoMatchesIffNothingClears(run);
  }

  /** Two A rows and one B row, all "X", cutoff 0.5: the first A row consumes
      the only B row and the second A row is left without a match. */
  lemma Consumption(sim: Similarity)
    requires sim("X", "X") == 1.0
    ensures Run([Row("n", "X"), Row("n", "X")], [Row("n", "X")], ["n"], ["n"], 0.5, sim).Valid()
    ensures FindMatches(Run([Row("n", "X"), Row("n", "X")], [Row("n", "X")], ["n"], ["n"], 0.5, sim))
            == [Match(0, 0, 1.0, "X", "X", Row("n", "X"), Row("n", "X"))]
  {
    var row := Row("n", "X");
    var run := Run([row, row], [row], ["n"], ["n"], 0.5, sim);
    SingleColumnKey("n", "X");
    assert run.KeyA(0) == "X" && run.KeyB(0) == "X";
    FirstRowTakesOnlyB(run);
  }

  /** The stored score need not clear the cutoff when the ratio is not
      symmetric: A key "a", B key "b", the search score `sim("b", "a")` is
      0.9 and clears 0.5, so the pair is matched, yet the stored
      `sim("a", "b")` is 0.1. */
  lemma AsymmetricStoredBelowCutoff()
    ensures var sim := (x: string, y: string) => if x == "b" && y == "a" then 0.9 else 0.1;
            var run := Run([Row("n", "a")], [Row("n", "b")], ["n"], ["n"], 0.5, sim);
            && run.Valid()
            && |FindMatches(run)| == 1
            && FindMatches(run)[0].similarity < run.cutoff
  {
    var sim := (x: string, y: string) => if x == "b" && y == "a" then 0.9 else 0.1;
    var run := Run([Row("n", "a")], [Row("n", "b")], ["n"], ["n"], 0.5, sim);
    SingleColumnKey("n", "a");
    SingleColumnKey("n", "b");
    assert run.KeyA(0) == "a" && run.KeyB(0) == "b";
    FirstRowTakesOnlyB(run);
  }

  /** Merging two rows that share every column: the B row's values win. */
  lemma MergePrecedence()
    ensures Merge(map["id" := "1", "city" := "A"], map["id" := "2", "city" := "B"])
            == map["id" := "2", "city" := "B"]
  {
    var a := map["id" := "1", "city" := "A"];
    var b := map["id" := "2", "city" := "B"];
    assert Merge(a, b).Keys == b.Keys;
  }
}
