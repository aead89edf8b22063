/** The shape of the greedy pass, apart from what a key or a score is: the A
    rows are visited in order, each makes one move given the B positions
    consumed so far, and a move either records nothing or records one match
    and consumes its B position. What a move promises is given by three tests,
    so the facts about the whole pass hold for any move that keeps them. */
module GreedyPass {

  import opened Wrappers
  import opened Records

  /** One accepted pair: the row positions in A and B, the stored similarity,
      both comparison keys, and both rows in full. */
  datatype Match = Match(
    indexA: nat,
    indexB: nat,
    similarity: real,
    keyA: string,
    keyB: string,
    recordA: Record,
    recordB: Record)

  /** One A row's move: given the row and the consumed B positions, the match
      it records, if any, and the consumed positions afterwards. */
  type Stepper = (nat, set<nat>) -> (Option<Match>, set<nat>)

  /** What a move must keep to.
      - `clears(i, taken)`: some B row outside `taken` is close enough to A row `i`;
      - `pick(taken, m)`: `m` is the right choice while `taken` is consumed;
      - `ok(m)`: `m` describes its two rows correctly;
      - `countB`: the number of B rows. */
  datatype Rules = Rules(
    clears: (nat, set<nat>) -> bool,
    pick: (set<nat>, Match) -> bool,
    ok: Match -> bool,
    countB: nat)

  /** The pass over the A rows from `i` up to `n`, each row making its move
      with the B positions consumed by the rows before it. */
  function Pass(n: nat, step: Stepper, i: nat, used: set<nat>): seq<Match>
    requires i <= n
    decreases n - i
  {
    if i == n then []
    else
      var s := step(i, used);
      (if s.0.Some? then [s.0.value] else []) + Pass(n, step, i + 1, s.1)
  }

  /** One move keeps the rules: it records a match exactly when the row
      clears; the match is for this row, takes a free B row, is correct and
      the right choice, and consumes exactly its B row; without a match
      nothing is consumed. */
  predicate Keeps(rules: Rules, i: nat, used: set<nat>, out: (Option<Match>, set<nat>))
  {
    && (out.0.None? <==> !rules.clears(i, used))
    && (out.0.None? ==> out.1 == used)
    && (out.0.Some? ==>
          && out.0.value.indexA == i
          && out.0.value.indexB < rules.countB
          && out.0.value.indexB !in used
          && rules.ok(out.0.value)
          && rules.pick(used, out.0.value)
          && out.1 == used + {out.0.value.indexB})
  }

  /** Every move `step` makes on the first `n` rows keeps the rules. */
  ghost predicate Sound(n: nat, step: Stepper, rules: Rules)
  {
    forall i: nat, used {:trigger Keeps(rules, i, used, step(i, used))} ::
      i < n ==> Keeps(rules, i, used, step(i, used))
  }

  /** The move at row `i` keeps the rules. */
  lemma MoveKeeps(n: nat, step: Stepper, rules: Rules, i: nat, used: set<nat>)
    requires Sound(n, step, rules) && i < n
    ensures Keeps(rules, i, used, step(i, used))
  {
  }

  // ----- Properties of a list of matches -----

  /** Every match comes from row `i` or later. */
  predicate From(ms: seq<Match>, i: nat)
  {
    forall p :: 0 <= p < |ms| ==> i <= ms[p].indexA
  }

  predicate Matched(ms: seq<Match>, i: nat)
  {
    exists p :: 0 <= p < |ms| && ms[p].indexA == i
  }

  predicate InOrderOfA(ms: seq<Match>)
  {
    forall p, q :: 0 <= p < q < |ms| ==> ms[p].indexA < ms[q].indexA
  }

  predicate OneToOne(ms: seq<Match>)
  {
    forall p, q :: 0 <= p < q < |ms| ==> ms[p].indexB != ms[q].indexB
  }

  /** The B positions of the matches made for A rows before `x`. */
  function Before(ms: seq<Match>, x: nat): set<nat>
    decreases |ms|
  {
    if |ms| == 0 then {}
    else (if ms[0].indexA < x then {ms[0].indexB} else {}) + Before(ms[1..], x)
  }

  /** The B positions consumed by the time A row `x` is reached. */
  function Taken(used: set<nat>, ms: seq<Match>, x: nat): set<nat>
  {
    used + Before(ms, x)
  }

  // ----- Where the matches come from -----

  /** With sound moves, the pass from row `i` only records matches for rows
      from `i` on. */
  lemma {:induction false} PassFrom(n: nat, step: Stepper, rules: Rules, i: nat, used: set<nat>)
    requires Sound(n, step, rules) && i <= n
    ensures From(Pass(n, step, i, used), i)
    decreases n - i
  {
    if i < n {
      var s := step(i, used);
      MoveKeeps(n, step, rules, i, used);
      PassFrom(n, step, rules, i + 1, s.1);
      var rest := Pass(n, step, i + 1, s.1);
      if s.0.Some? {
        var r := [s.0.value] + rest;
        assert Pass(n, step, i, used) == r;
        forall p | 0 < p < |r|
          ensures r[p] == rest[p - 1]
        {
        }
      } else {
        assert Pass(n, step, i, used) == rest;
      }
    }
  }


  /** The matches come from rows `i` on, at most one per row and in row
      order, never share a B row nor take one of `used`, and are correct. */
  predicate Shaped(rules: Rules, ms: seq<Match>, i: nat, used: set<nat>)
  {
    && From(ms, i)
    && InOrderOfA(ms)
    && OneToOne(ms)
    && forall p :: 0 <= p < |ms| ==> ms[p].indexB !in used && rules.ok(ms[p])
  }

  lemma ShapedCons(rules: Rules, used: set<nat>, m: Match, rest: seq<Match>, i: nat)
    requires m.indexA == i && m.indexB !in used && rules.ok(m)
    requires Shaped(rules, rest, i + 1, used + {m.indexB})
    ensures Shaped(rules, [m] + rest, i, used)
  {
    var r := [m] + rest;
    forall p | 0 < p < |r|
      ensures r[p] == rest[p - 1]
    {
    }
  }

  lemma ShapedSkip(rules: Rules, rest: seq<Match>, i: nat, used: set<nat>)
    requires Shaped(rules, rest, i + 1, used)
    ensures Shaped(rules, rest, i, used)
  {
  }

  /** With sound moves, the pass from row `i` records at most one match per
      row, in row order, never reuses a B row nor takes one consumed
      beforehand, and every match is correct. */
  lemma {:induction false} PassShape(n: nat, step: Stepper, rules: Rules, i: nat, used: set<nat>)
    requires Sound(n, step, rules) && i <= n
    ensures |Pass(n, step, i, used)| <= n - i
    ensures Shaped(rules, Pass(n, step, i, used), i, used)
    decreases n - i
  {
    if i < n {
      var s := step(i, used);
      MoveKeeps(n, step, rules, i, used);
      if s.0.Some? {
        var m := s.0.value;
        PassShape(n, step, rules, i + 1, used + {m.indexB});
        ShapedCons(rules, used, m, Pass(n, step, i + 1, used + {m.indexB}), i);
      } else {
        PassShape(n, step, rules, i + 1, used);
        ShapedSkip(rules, Pass(n, step, i + 1, used), i, used);
      }
    }
  }

  // ----- Every match was the right choice when it was made -----

  /** Matches whose A row lies beyond `x` leave the consumed set at `x` as it was. */
  lemma {:induction false} TakenNone(used: set<nat>, ms: seq<Match>, x: nat)
    requires From(ms, x)
    ensures Taken(used, ms, x) == used
    decreases |ms|
  {
    if |ms| > 0 {
      TakenNone(used, ms[1..], x);
    }
  }

  /** Reaching row `x` past the first match's row, that match's B row is consumed. */
  lemma TakenCons(used: set<nat>, m: Match, rest: seq<Match>, x: nat)
    requires m.indexA < x
    ensures Taken(used, [m] + rest, x) == Taken(used + {m.indexB}, rest, x)
  {
    assert ([m] + rest)[1..] == rest;
  }

  /** Every match was the right choice with the B rows consumed when its A
      row was reached. */
  predicate AllPicked(rules: Rules, ms: seq<Match>, used: set<nat>)
  {
    forall p {:trigger Taken(used, ms, ms[p].indexA)} ::
      0 <= p < |ms| ==> rules.pick(Taken(used, ms, ms[p].indexA), ms[p])
  }

  /** Putting a match in front of the later ones keeps every match the right
      choice when its row was reached. */
  lemma PickedCons(rules: Rules, used: set<nat>, m: Match, rest: seq<Match>)
    requires rules.pick(used, m)
    requires From(rest, m.indexA + 1)
    requires AllPicked(rules, rest, used + {m.indexB})
    ensures AllPicked(rules, [m] + rest, used)
  {
    var r := [m] + rest;
    forall p | 0 <= p < |r|
      ensures rules.pick(Taken(used, r, r[p].indexA), r[p])
    {
      if p == 0 {
        forall q | 0 <= q < |r|
          ensures m.indexA <= r[q].indexA
        {
          if q > 0 { assert r[q] == rest[q - 1]; }
        }
        TakenNone(used, r, m.indexA);
      } else {
        assert r[p] == rest[p - 1];
        TakenCons(used, m, rest, r[p].indexA);
      }
    }
  }

  /** With sound moves, every match was the right choice with the B rows
      consumed when its A row was reached. */
  lemma {:induction false} PassPicked(n: nat, step: Stepper, rules: Rules, i: nat, used: set<nat>)
    requires Sound(n, step, rules) && i <= n
    ensures AllPicked(rules, Pass(n, step, i, used), used)
    decreases n - i
  {
    if i < n {
      var s := step(i, used);
      MoveKeeps(n, step, rules, i, used);
      if s.0.Some? {
        var m := s.0.value;
        var rest := Pass(n, step, i + 1, used + {m.indexB});
        PassFrom(n, step, rules, i + 1, used + {m.indexB});
        PassPicked(n, step, rules, i + 1, used + {m.indexB});
        PickedCons(rules, used, m, rest);
        assert Pass(n, step, i, used) == [m] + rest;
      } else {
        PassPicked(n, step, rules, i + 1, used);
        assert Pass(n, step, i, used) == Pass(n, step, i + 1, used);
      }
    }
  }


  // ----- A row is matched exactly when it clears -----

  /** From row `i` up to `n`, a row has a match exactly when it clears with
      the B rows consumed when it was reached. */
  predicate MatchedExactly(rules: Rules, n: nat, ms: seq<Match>, i: nat, used: set<nat>)
  {
    forall x :: i <= x < n ==> (Matched(ms, x) <==> rules.clears(x, Taken(used, ms, x)))
  }

  /** Putting row `i`'s match in front of the later ones keeps "matched
      exactly when it clears" true for every row from `i` on. */
  lemma MatchedCons(rules: Rules, n: nat, used: set<nat>, m: Match, rest: seq<Match>, i: nat)
    requires i < n && m.indexA == i
    requires rules.clears(i, used)
    requires From(rest, i + 1)
    requires MatchedExactly(rules, n, rest, i + 1, used + {m.indexB})
    ensures MatchedExactly(rules, n, [m] + rest, i, used)
  {
    var r := [m] + rest;
    forall x | i <= x < n
      ensures Matched(r, x) <==> rules.clears(x, Taken(used, r, x))
    {
      if x == i {
        forall q | 0 <= q < |r|
          ensures i <= r[q].indexA
        {
          if q > 0 { assert r[q] == rest[q - 1]; }
        }
        TakenNone(used, r, i);
        assert r[0].indexA == i;
      } else {
        TakenCons(used, m, rest, x);
        if Matched(rest, x) {
          var p :| 0 <= p < |rest| && rest[p].indexA == x;
          assert r[p + 1] == rest[p];
        }
        if Matched(r, x) {
          var p :| 0 <= p < |r| && r[p].indexA == x;
          assert rest[p - 1] == r[p];
        }
      }
    }
  }

  /** When row `i` records nothing, the same holds for the later rows' matches alone. */
  lemma MatchedSkip(rules: Rules, n: nat, used: set<nat>, rest: seq<Match>, i: nat)
    requires i < n
    requires !rules.clears(i, used)
    requires From(rest, i + 1)
    requires MatchedExactly(rules, n, rest, i + 1, used)
    ensures MatchedExactly(rules, n, rest, i, used)
  {
    TakenNone(used, rest, i);
    assert !Matched(rest, i);
  }

  /** With sound moves, a row records a match exactly when it clears with the
      B rows consumed by earlier rows set aside. */
  lemma {:induction false} PassMatchedIff(n: nat, step: Stepper, rules: Rules, i: nat, used: set<nat>)
    requires Sound(n, step, rules) && i <= n
    ensures MatchedExactly(rules, n, Pass(n, step, i, used), i, used)
    decreases n - i
  {
    if i < n {
      var s := step(i, used);
      MoveKeeps(n, step, rules, i, used);
      if s.0.Some? {
        var m := s.0.value;
        var rest := Pass(n, step, i + 1, used + {m.indexB});
        PassFrom(n, step, rules, i + 1, used + {m.indexB});
        PassMatchedIff(n, step, rules, i + 1, used + {m.indexB});
        MatchedCons(rules, n, used, m, rest, i);
      } else {
        var rest := Pass(n, step, i + 1, used);
        PassFrom(n, step, rules, i + 1, used);
        PassMatchedIff(n, step, rules, i + 1, used);
        MatchedSkip(rules, n, used, rest, i);
        assert Pass(n, step, i, used) == rest;
      }
    }
  }


  /** With sound moves, when no row from `i` on clears whatever is consumed,
      the pass records nothing. */
  lemma {:induction false} PassNothingClears(n: nat, step: Stepper, rules: Rules, i: nat, used: set<nat>)
    requires Sound(n, step, rules) && i <= n
    requires forall x, taken :: i <= x < n ==> !rules.clears(x, taken)
    ensures Pass(n, step, i, used) == []
    decreases n - i
  {
    if i < n {
      MoveKeeps(n, step, rules, i, used);
      PassNothingClears(n, step, rules, i + 1, used);
    }
  }

  // ----- Counting -----

  /** A set of positions all below `n` has at most `n` elements. */
  lemma {:induction false} BoundedSetSize(s: set<nat>, n: nat)
    requires forall j :: j in s ==> j < n
    ensures |s| <= n
  {
    if n > 0 {
      BoundedSetSize(s - {n - 1}, n - 1);
    } else {
      assert s == {};
    }
  }

  /** With sound moves, the pass records no more matches than there are B
      rows left free. */
  lemma {:induction false} PassCount(n: nat, step: Stepper, rules: Rules, i: nat, used: set<nat>)
    requires Sound(n, step, rules) && i <= n
    requires forall j :: j in used ==> j < rules.countB
    ensures |Pass(n, step, i, used)| + |used| <= rules.countB
    decreases n - i
  {
    if i == n {
      BoundedSetSize(used, rules.countB);
    } else {
      var s := step(i, used);
      MoveKeeps(n, step, rules, i, used);
      if s.0.Some? {
        var m := s.0.value;
        PassCount(n, step, rules, i + 1, used + {m.indexB});
      } else {
        PassCount(n, step, rules, i + 1, used);
      }
    }
  }

}
