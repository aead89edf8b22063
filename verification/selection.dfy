/** What happens to the matches after the pass: each is offered under a text
    label, the matches whose labels were chosen are kept in result order, and
    each kept pair becomes one joined row in which the B row's values win. */
module Selection {

  import opened Wrappers
  import opened Decimal
  import opened Records
  import opened GreedyPass
  import opened Matcher

  /** How a stored similarity is printed inside a label. */
  type Render = real -> string

  const LabelHead: string := "Lunes idx "

  /** Everything in a label after the A row's index. */
  function LabelTail(m: Match, render: Render): (t: string)
    ensures |t| > 0 && t[0] == ' '
  {
    " (" + m.keyA + ") | Martes idx " + Show(m.indexB) + " (" + m.keyB + ") | Similitud: "
      + render(m.similarity)
  }

  /** The label under which a match is offered for choosing. */
  function Label(m: Match, render: Render): (s: string)
    ensures |s| > |LabelHead| && s[..|LabelHead|] == LabelHead
  {
    LabelHead + (Show(m.indexA) + LabelTail(m, render))
  }

  /** Reads the A row index back from a label: the digits right after the head. */
  function LabelIndex(s: string): (r: Option<nat>)
    ensures r.Some? ==> |s| > |LabelHead| && s[..|LabelHead|] == LabelHead
  {
    if |s| >= |LabelHead| && s[..|LabelHead|] == LabelHead then
      var rest := s[|LabelHead|..];
      var n := LeadingDigits(rest);
      if n == 0 then None else Some(Parse(rest[..n]))
    else
      None
  }

  /** A label names the A row of its match. */
  lemma LabelNamesRowA(m: Match, render: Render)
    ensures LabelIndex(Label(m, render)) == Some(m.indexA)
  {
    var d := Show(m.indexA);
    var tail := LabelTail(m, render);
    var s := Label(m, render);
    assert s[|LabelHead|..] == d + tail;
    LeadingDigitsOf(d, tail);
    assert (d + tail)[..|d|] == d;
    ParseShow(m.indexA);
  }

  /** Matches of different A rows are offered under different labels. */
  lemma LabelsApart(m: Match, n: Match, render: Render)
    ensures Label(m, render) == Label(n, render) ==> m.indexA == n.indexA
  {
    LabelNamesRowA(m, render);
    LabelNamesRowA(n, render);
  }

  predicate Distinct<T(==)>(s: seq<T>)
  {
    forall p, q :: 0 <= p < q < |s| ==> s[p] != s[q]
  }

  /** The labels of a result, in the same order. */
  function Labels(ms: seq<Match>, render: Render): seq<string>
  {
    seq(|ms|, p requires 0 <= p < |ms| => Label(ms[p], render))
  }

  /** A result in A row order offers every match under its own label. */
  lemma LabelsDistinct(ms: seq<Match>, render: Render)
    requires InOrderOfA(ms)
    ensures Distinct(Labels(ms, render))
  {
    var ls := Labels(ms, render);
    forall p, q | 0 <= p < q < |ls|
      ensures ls[p] != ls[q]
    {
      LabelsApart(ms[p], ms[q], render);
    }
  }

  /** The matches whose label was chosen, in result order. */
  function Select(ms: seq<Match>, chosen: seq<string>, render: Render): (r: seq<Match>)
    ensures |r| <= |ms|
    ensures forall m :: m in r <==> m in ms && Label(m, render) in chosen
  {
    if |ms| == 0 then []
    else
      var rest := Select(ms[1..], chosen, render);
      if Label(ms[0], render) in chosen then [ms[0]] + rest else rest
  }

  /** A match kept from the tail of a result sits at some later position of it. */
  lemma KeptFromTail(ms: seq<Match>, chosen: seq<string>, render: Render, q: nat) returns (k: nat)
    requires |ms| > 0 && q < |Select(ms[1..], chosen, render)|
    ensures 0 < k < |ms| && ms[k] == Select(ms[1..], chosen, render)[q]
  {
    var x := Select(ms[1..], chosen, render)[q];
    assert x in ms[1..];
    var i :| 0 <= i < |ms[1..]| && ms[1..][i] == x;
    k := i + 1;
  }

  /** Keeping some of the matches keeps them in A row order. */
  lemma {:induction false} SelectKeepsOrder(ms: seq<Match>, chosen: seq<string>, render: Render)
    requires InOrderOfA(ms)
    ensures InOrderOfA(Select(ms, chosen, render))
  {
    if |ms| > 0 {
      var rest := Select(ms[1..], chosen, render);
      SelectKeepsOrder(ms[1..], chosen, render);
      if Label(ms[0], render) in chosen {
        var r := [ms[0]] + rest;
        assert Select(ms, chosen, render) == r;
        forall p, q | 0 <= p < q < |r|
          ensures r[p].indexA < r[q].indexA
        {
          var k := KeptFromTail(ms, chosen, render, q - 1);
          if p > 0 {
            assert r[p] == rest[p - 1];
          }
        }
      }
    }
  }

  /** Keeping some of the matches keeps their B rows apart. */
  lemma {:induction false} SelectKeepsApart(ms: seq<Match>, chosen: seq<string>, render: Render)
    requires OneToOne(ms)
    ensures OneToOne(Select(ms, chosen, render))
  {
    if |ms| > 0 {
      var rest := Select(ms[1..], chosen, render);
      SelectKeepsApart(ms[1..], chosen, render);
      if Label(ms[0], render) in chosen {
        var r := [ms[0]] + rest;
        assert Select(ms, chosen, render) == r;
        forall p, q | 0 <= p < q < |r|
          ensures r[p].indexB != r[q].indexB
        {
          var k := KeptFromTail(ms, chosen, render, q - 1);
          if p > 0 {
            assert r[p] == rest[p - 1];
          }
        }
      }
    }
  }

  /** Number of distinct values in a sequence without repeats is its length. */
  lemma {:induction false} DistinctCount(s: seq<string>)
    requires Distinct(s)
    ensures |set x | x in s| == |s|
  {
    if |s| > 0 {
      var rest := set x | x in s[1..];
      assert Distinct(s[1..]) by {
        forall p, q | 0 <= p < q < |s[1..]|
          ensures s[1..][p] != s[1..][q]
        {
          assert s[1..][p] == s[p + 1] && s[1..][q] == s[q + 1];
        }
      }
      DistinctCount(s[1..]);
      forall k | 0 <= k < |s[1..]|
        ensures s[1..][k] != s[0]
      {
        assert s[1..][k] == s[k + 1];
      }
      assert (set x | x in s) == {s[0]} + rest by {
        forall x | x in s
          ensures x in {s[0]} + rest
        {
          var k :| 0 <= k < |s| && s[k] == x;
          if k > 0 {
            assert s[1..][k - 1] == x;
          }
        }
      }
    }
  }

  /** When every chosen label is offered, the kept matches carry exactly the
      chosen labels. */
  lemma KeptLabels(ms: seq<Match>, chosen: seq<string>, render: Render)
    requires forall l :: l in chosen ==> l in Labels(ms, render)
    ensures (set x | x in Labels(Select(ms, chosen, render), render)) == (set x | x in chosen)
  {
    var r := Select(ms, chosen, render);
    var ls := Labels(r, render);
    forall x | x in ls
      ensures x in chosen
    {
      var p :| 0 <= p < |ls| && ls[p] == x;
      assert r[p] in r;
    }
    forall x | x in chosen
      ensures x in ls
    {
      var offered := Labels(ms, render);
      var p :| 0 <= p < |offered| && offered[p] == x;
      assert ms[p] in ms;
      var q :| 0 <= q < |r| && r[q] == ms[p];
      assert ls[q] == x;
    }
  }

  /** Choosing some of the offered labels, each once, keeps exactly one match
      per chosen label. */
  lemma SelectCount(ms: seq<Match>, chosen: seq<string>, render: Render)
    requires InOrderOfA(ms)
    requires Distinct(chosen)
    requires forall l :: l in chosen ==> l in Labels(ms, render)
    ensures |Select(ms, chosen, render)| == |chosen|
  {
    var r := Select(ms, chosen, render);
    SelectKeepsOrder(ms, chosen, render);
    LabelsDistinct(r, render);
    DistinctCount(Labels(r, render));
    DistinctCount(chosen);
    KeptLabels(ms, chosen, render);
  }

  /** The joined rows: for each chosen match, the A row overlaid with the B row. */
  function JoinChosen(ms: seq<Match>, chosen: seq<string>, render: Render): (rows: seq<Record>)
    ensures |rows| == |Select(ms, chosen, render)|
    ensures forall k :: 0 <= k < |rows| ==>
              var m := Select(ms, chosen, render)[k];
              && rows[k].Keys == m.recordA.Keys + m.recordB.Keys
              && (forall c :: c in m.recordB ==> rows[k][c] == m.recordB[c])
              && (forall c :: c in m.recordA && c !in m.recordB ==> rows[k][c] == m.recordA[c])
  {
    var r := Select(ms, chosen, render);
    seq(|r|, k requires 0 <= k < |r| => Merge(r[k].recordA, r[k].recordB))
  }
}
