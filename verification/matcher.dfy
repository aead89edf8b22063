/** The greedy one-to-one pass over the first table (rows "A"), each row taking
    the best still-unconsumed row of the second table (rows "B") whose
    similarity clears the cutoff. */
module Matcher {

  import opened Wrappers
  import opened Records
  import opened CloseMatches
  import opened GreedyPass

  /** Everything one matching pass depends on: both tables, the columns chosen
      on each side, the cutoff, and the similarity ratio. */
  datatype Run = Run(
    rowsA: seq<Record>,
    rowsB: seq<Record>,
    fieldsA: seq<string>,
    fieldsB: seq<string>,
    cutoff: real,
    sim: Similarity)
  {
    /** Every row has the chosen columns, and the cutoff lies in the range the
        close-match search accepts. */
    predicate Valid()
    {
      Table(rowsA, fieldsA) && Table(rowsB, fieldsB) && 0.0 <= cutoff <= 1.0
    }

    function KeyA(i: nat): string
      requires Valid() && i < |rowsA|
    {
      Compose(rowsA[i], fieldsA)
    }

    function KeyB(j: nat): string
      requires Valid() && j < |rowsB|
    {
      Compose(rowsB[j], fieldsB)
    }
  }

  /** The positions below `n` not yet consumed, in increasing order. */
  function Unused(n: nat, used: set<nat>): (free: seq<nat>)
    ensures forall p :: 0 <= p < |free| ==> free[p] < n && free[p] !in used
    ensures forall j: nat :: j in free <==> j < n && j !in used
    ensures forall p, q :: 0 <= p < q < |free| ==> free[p] < free[q]
  {
    if n == 0 then [] else Unused(n - 1, used) + (if n - 1 in used then [] else [n - 1])
  }

  /** The comparison keys of the B rows at the given positions, in the same order. */
  function KeysAt(run: Run, free: seq<nat>): seq<string>
    requires run.Valid()
    requires forall p :: 0 <= p < |free| ==> free[p] < |run.rowsB|
  {
    seq(|free|, p requires 0 <= p < |free| => run.KeyB(free[p]))
  }

  /** The first position holding `key`, or `None` when the list does not hold it. */
  function FirstPosition(keys: seq<string>, key: string): (r: Option<nat>)
    ensures r.None? <==> key !in keys
    ensures r.Some? ==> r.value < |keys| && keys[r.value] == key
    ensures r.Some? ==> forall q :: 0 <= q < r.value ==> keys[q] != key
  {
    if |keys| == 0 then None
    else if keys[0] == key then Some(0)
    else
      match FirstPosition(keys[1..], key)
      case None => None
      case Some(p) => Some(p + 1)
  }

  /** What A row `i` does when the B positions in `used` are consumed: the
      match it records, if any, and the consumed positions afterwards. */
  function Step(run: Run, i: nat, used: set<nat>): (Option<Match>, set<nat>)
    requires run.Valid() && i < |run.rowsA|
  {
    var keyA := run.KeyA(i);
    var free := Unused(|run.rowsB|, used);
    var keys := KeysAt(run, free);
    match CloseMatch(run.sim, keyA, keys, run.cutoff)
    case None => (None, used)
    case Some(keyB) =>
      match FirstPosition(keys, keyB)
      case None => (None, used)
      case Some(p) =>
        var j := free[p];
        (Some(Match(i, j, run.sim(keyA, keyB), keyA, keyB, run.rowsA[i], run.rowsB[j])), used + {j})
  }

  // ----- What a match and a result promise -----

  /** A match names real rows, carries their keys and rows, stores the ratio of
      the A key against the B key, and its B key cleared the cutoff in the score
      the close-match search used. */
  predicate Faithful(run: Run, m: Match)
    requires run.Valid()
  {
    && m.indexA < |run.rowsA| && m.indexB < |run.rowsB|
    && m.recordA == run.rowsA[m.indexA] && m.recordB == run.rowsB[m.indexB]
    && m.keyA == run.KeyA(m.indexA) && m.keyB == run.KeyB(m.indexB)
    && m.similarity == run.sim(m.keyA, m.keyB)
    && run.sim(m.keyB, m.keyA) >= run.cutoff
  }

  /** With the positions in `taken` consumed, the match took a free B row, no
      free B row ranks above its key, and no earlier free B row has the same key. */
  predicate Best(run: Run, taken: set<nat>, m: Match)
    requires run.Valid()
  {
    && m.indexB !in taken
    && (forall j :: 0 <= j < |run.rowsB| && j !in taken ==> AtLeast(run.sim, m.keyA, m.keyB, run.KeyB(j)))
    && (forall j :: 0 <= j < |run.rowsB| && j < m.indexB && j !in taken ==> run.KeyB(j) != m.keyB)
  }

  /** Some free B row's key clears the cutoff against A row `i`. */
  predicate Clears(run: Run, i: nat, taken: set<nat>)
    requires run.Valid() && i < |run.rowsA|
  {
    exists j :: 0 <= j < |run.rowsB| && j !in taken && run.sim(run.KeyB(j), run.KeyA(i)) >= run.cutoff
  }

  // ----- One step -----

  /** Where a free B row sits among the candidates the search is given. */
  lemma {:induction false} FreeRowAt(run: Run, used: set<nat>, j: nat) returns (q: nat)
    requires run.Valid() && j < |run.rowsB| && j !in used
    ensures q < |Unused(|run.rowsB|, used)|
    ensures Unused(|run.rowsB|, used)[q] == j
    ensures KeysAt(run, Unused(|run.rowsB|, used))[q] == run.KeyB(j)
  {
    var free := Unused(|run.rowsB|, used);
    assert j in free;
    q :| 0 <= q < |free| && free[q] == j;
  }

  /** A row records a match exactly when some free B row clears the cutoff; the
      match is then faithful and best among the free rows, and consumes exactly
      its B row. Without a match nothing is consumed. In particular the lookup
      of the chosen key among the free rows never comes back empty. */
  lemma {:induction false} StepOutcome(run: Run, i: nat, used: set<nat>)
    requires run.Valid() && i < |run.rowsA|
    ensures Step(run, i, used).0.None? <==> !Clears(run, i, used)
    ensures Step(run, i, used).0.None? ==> Step(run, i, used).1 == used
    ensures Step(run, i, used).0.Some? ==>
              && Step(run, i, used).0.value.indexA == i
              && Faithful(run, Step(run, i, used).0.value)
              && Best(run, used, Step(run, i, used).0.value)
              && Step(run, i, used).1 == used + {Step(run, i, used).0.value.indexB}
  {
    var keyA := run.KeyA(i);
    var free := Unused(|run.rowsB|, used);
    var keys := KeysAt(run, free);
    var best := CloseMatch(run.sim, keyA, keys, run.cutoff);
    if best.None? {
      assert Step(run, i, used) == (None, used);
      forall j | 0 <= j < |run.rowsB| && j !in used
        ensures run.sim(run.KeyB(j), keyA) < run.cutoff
      {
        var q := FreeRowAt(run, used, j);
        assert keys[q] in keys;
      }
    } else {
      var keyB := best.value;
      var p := FirstPosition(keys, keyB).value;
      var j := free[p];
      var m := Match(i, j, run.sim(keyA, keyB), keyA, keyB, run.rowsA[i], run.rowsB[j]);
      assert Step(run, i, used) == (Some(m), used + {j});
      assert keys[p] == run.KeyB(j);
      assert Faithful(run, m);
      forall j' | 0 <= j' < |run.rowsB| && j' !in used
        ensures AtLeast(run.sim, keyA, keyB, run.KeyB(j'))
      {
        var q := FreeRowAt(run, used, j');
        assert keys[q] in keys;
      }
      forall j' | 0 <= j' < |run.rowsB| && j' < j && j' !in used
        ensures run.KeyB(j') != keyB
      {
        var q := FreeRowAt(run, used, j');
        assert q < p;
      }
      assert Best(run, used, m);
      assert Clears(run, i, used) by {
        assert j !in used && run.sim(run.KeyB(j), run.KeyA(i)) >= run.cutoff;
      }
    }
  }

  // ----- The whole pass -----

  /** `Step` of this run as a move the pass can be given. */
  function StepOf(run: Run): Stepper
  {
    (i: nat, used: set<nat>) =>
      if run.Valid() && i < |run.rowsA| then Step(run, i, used) else (None, used)
  }

  /** The promises of the matcher's move, as the tests the pass is built on:
      clearing the cutoff, being best among the free rows, and being faithful. */
  function RulesOf(run: Run): Rules
  {
    Rules(
      (i: nat, taken: set<nat>) => run.Valid() && i < |run.rowsA| && Clears(run, i, taken),
      (taken: set<nat>, m: Match) => run.Valid() && Best(run, taken, m),
      (m: Match) => run.Valid() && Faithful(run, m),
      |run.rowsB|)
  }

  /** Every move of the matcher keeps those promises. */
  lemma StepSound(run: Run)
    requires run.Valid()
    ensures Sound(|run.rowsA|, StepOf(run), RulesOf(run))
  {
    forall i: nat, used | i < |run.rowsA|
      ensures Keeps(RulesOf(run), i, used, StepOf(run)(i, used))
    {
      StepOutcome(run, i, used);
    }
  }

  /** Every match was best among the B rows free when its A row was reached. */
  predicate AllBest(run: Run, ms: seq<Match>, used: set<nat>)
    requires run.Valid()
  {
    forall p :: 0 <= p < |ms| ==> Best(run, Taken(used, ms, ms[p].indexA), ms[p])
  }

  /** From row `i` on, a row has a match exactly when some B row still free
      when it was reached clears the cutoff against it. */
  predicate MatchedWhenClears(run: Run, ms: seq<Match>, i: nat, used: set<nat>)
    requires run.Valid()
  {
    forall x :: i <= x < |run.rowsA| ==> (Matched(ms, x) <==> Clears(run, x, Taken(used, ms, x)))
  }

  /** No B row's key clears the cutoff against any A row from `i` on. */
  predicate NothingClears(run: Run, i: nat)
    requires run.Valid()
  {
    forall x, j :: i <= x < |run.rowsA| && 0 <= j < |run.rowsB| ==>
      run.sim(run.KeyB(j), run.KeyA(x)) < run.cutoff
  }

  /** The pass over all A rows, in the matcher's terms: in A row order, one
      match per A row at most, no B row twice, every match faithful and best
      when made, a match exactly where a free B row clears, and no more
      matches than either table has rows. */
  lemma PassFacts(run: Run)
    requires run.Valid()
    ensures var r := Pass(|run.rowsA|, StepOf(run), 0, {});
      && |r| <= |run.rowsA| && |r| <= |run.rowsB|
      && InOrderOfA(r) && OneToOne(r)
      && (forall p :: 0 <= p < |r| ==> Faithful(run, r[p]))
      && AllBest(run, r, {})
      && MatchedWhenClears(run, r, 0, {})
  {
    var n := |run.rowsA|;
    var step := StepOf(run);
    var rules := RulesOf(run);
    StepSound(run);
    PassShape(n, step, rules, 0, {});
    PassPicked(n, step, rules, 0, {});
    PassMatchedIff(n, step, rules, 0, {});
    PassCount(n, step, rules, 0, {});
  }

  /** When nothing clears, the pass records nothing. */
  lemma PassNothing(run: Run)
    requires run.Valid()
    ensures NothingClears(run, 0) ==> Pass(|run.rowsA|, StepOf(run), 0, {}) == []
  {
    if NothingClears(run, 0) {
      StepSound(run);
      forall x, taken | 0 <= x < |run.rowsA|
        ensures !RulesOf(run).clears(x, taken)
      {
        assert !Clears(run, x, taken);
      }
      PassNothingClears(|run.rowsA|, StepOf(run), RulesOf(run), 0, {});
    }
  }

  // ----- The matcher as called -----

  /** All matches between the two tables, A rows taken in order, no B row
      consumed at the start. Each A row is matched at most once and exactly
      when some B row not consumed by earlier A rows clears the cutoff; it
      then takes the best-ranked such key and the first free B row carrying
      it. No B row is matched twice, so there are no more matches than rows
      on either side. The stored score is the A key rated against the B key;
      when the ratio is symmetric it clears the cutoff too. */
  function FindMatches(run: Run): (r: seq<Match>)
    requires run.Valid()
    ensures |r| <= |run.rowsA| && |r| <= |run.rowsB|
    ensures InOrderOfA(r) && OneToOne(r)
    ensures forall p :: 0 <= p < |r| ==> Faithful(run, r[p])
    ensures AllBest(run, r, {})
    ensures MatchedWhenClears(run, r, 0, {})
    ensures NothingClears(run, 0) ==> r == []
    ensures (forall a, b :: run.sim(a, b) == run.sim(b, a)) ==>
              forall p :: 0 <= p < |r| ==> r[p].similarity >= run.cutoff
  {
    PassFacts(run);
    PassNothing(run);
    Pass(|run.rowsA|, StepOf(run), 0, {})
  }

  /** An empty result means no row cleared the cutoff: nothing was consumed,
      so every B row was free for every A row. */
  lemma EmptyMeansNothingClears(run: Run)
    requires run.Valid() && FindMatches(run) == []
    ensures NothingClears(run, 0)
  {
    forall x, j | 0 <= x < |run.rowsA| && 0 <= j < |run.rowsB|
      ensures run.sim(run.KeyB(j), run.KeyA(x)) < run.cutoff
    {
      assert Taken({}, [], x) == {};
      assert !Matched([], x);
    }
  }

  /** The matcher finds nothing exactly when no pair of rows clears the cutoff. */
  lemma NoMatchesIffNothingClears(run: Run)
    requires run.Valid()
    ensures FindMatches(run) == [] <==> NothingClears(run, 0)
  {
    if FindMatches(run) == [] {
      EmptyMeansNothingClears(run);
    }
  }
}
