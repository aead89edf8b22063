# Greedy one-to-one fuzzy record matcher

A Dafny model of the record-linking core of the `Laboratorio.py` page. The
page loads two tables: the "Lunes" table (rows A) and the "Martes" table
(rows B).

**Keys.** The user picks one or more columns on each side. Each row's
comparison key is the text of its chosen cells, joined by single spaces.

**Greedy pass.** The page then walks the A rows in order. For each A row it:
- looks at the B rows not consumed yet;
- asks `difflib.get_close_matches` (with `n=1` and the chosen cutoff) for the
  best of their keys;
- maps that key back to the first free B row carrying it;
- marks that B row consumed and records the pair.

**Selection and merge.** Every recorded pair is offered under a text label. The
pairs whose labels the user picks are turned into joined rows. In a joined row
the B row's values win on shared columns.

The model is functional:
- a table is a `seq` of `map<string, string>` rows;
- the consumed B rows are a `set<nat>` of positions;
- the pass is a recursive function over the A rows (`GreedyPass.Pass`). It is
  given one A row's move as a function value, and `Matcher.StepOf` supplies
  the matcher's move.

The similarity ratio of `difflib.SequenceMatcher` is a library routine, so it
stays abstract as the parameter `sim: (string, string) -> real`. The close-match
search is modelled the way the library defines it:
- candidate `x` is scored against the word as `sim(x, word)`;
- candidates below the cutoff are dropped;
- the largest `(score, x)` pair is returned, so equal scores go to the larger
  string in code-point order.

Note that the stored similarity (line 98) is computed with the arguments the
other way round, as `sim(keyA, keyB)`. The model keeps both orders. It proves:
- the search score `sim(keyB, keyA)` always clears the cutoff;
- the stored score clears it whenever `sim` is symmetric (the last ensures of
  `Matcher.FindMatches`);
- otherwise it may not: `Scenarios.AsymmetricStoredBelowCutoff` gives a matched
  pair whose stored score is below the cutoff.

The model has one module per file:
- `wrappers.dfy`: `Option`.
- `text.dfy`: `" ".join` and Python's string order.
- `decimal.dfy`: `str(n)` for row indices.
- `records.dfy`: rows, keys and the `{**a, **b}` merge.
- `closematch.dfy`: `get_close_matches(word, possibilities, n=1, cutoff)`.
- `greedy.dfy`: the pass over the A rows for any move that keeps three
  promises (clears, best, faithful), and what the whole pass then satisfies.
- `matcher.dfy`: the matcher's move, proof that it keeps the promises, and
  what the result promises.
- `selection.dfy`: labels, the chosen-label filter and the joined rows.
- `scenarios.dfy`: the worked cases, derived from the contracts alone.

## Model

| member | source | states |
|---|---|---|
| Text.JoinLayout | Laboratorio.py:78 | cut at the parts' offsets, a joined key is each part verbatim followed by one space, and then the last part: no trimming and no other separator |
| Records.ComposeSplit | Laboratorio.py:78-79 | a single chosen column's key is its cell text unchanged; choosing the columns `fs` then `gs` gives key(fs), one space, then key(gs) |
| CloseMatches.CloseMatch | Laboratorio.py:81-86 | nothing comes back exactly when every candidate scores below the cutoff; otherwise the result is one of the candidates, it clears the cutoff, and it ranks at least as high as every candidate (higher score, or equal score and not smaller as a string) |
| CloseMatches.CloseMatchUnique | Laboratorio.py:81-86 | the search result is determined: any candidate that clears the cutoff and ranks at least as high as all candidates is the one returned |
| CloseMatches.AtLeastTotal | Laboratorio.py:81-86 | of two candidate keys one always ranks at least as high as the other |
| CloseMatches.AtLeastTransitive | Laboratorio.py:81-86 | ranking at least as high is transitive, so the best candidate is well defined |
| CloseMatches.AtLeastAntisymmetric | Laboratorio.py:81-86 | two keys that each rank at least as high as the other are equal, so ties in score are broken by the string alone |
| Matcher.Unused | Laboratorio.py:79-80 | the free positions are exactly the B positions not consumed, in increasing row order |
| Matcher.FirstPosition | Laboratorio.py:88-95 | the lookup fails exactly when the key is absent; otherwise it gives a position holding the key with no earlier position holding it |
| Matcher.StepOutcome | Laboratorio.py:77-107 | an A row records a match exactly when some free B row's key clears the cutoff against its key; then the lookup never fails, and the match names that A row. The match is faithful (real rows, their keys and rows, stored ratio `sim(keyA, keyB)`, search score at least the cutoff) and best among the free B rows. Exactly its B row is consumed. Without a match nothing is consumed |
| Matcher.StepSound | Laboratorio.py:77-107 | every move of the matcher keeps the three promises the pass relies on: it matches exactly when a free B row clears, and a match is faithful, best, for this A row, and consumes exactly its own free B row |
| GreedyPass.PassFrom | Laboratorio.py:77-107 | the pass from row `i` on only records matches for rows `i` and later |
| GreedyPass.PassShape | Laboratorio.py:73-107 | from row `i` on: at most one match per A row, in A row order; no B row matched twice; no B row consumed beforehand is matched; every match is faithful; no more matches than A rows left |
| GreedyPass.PassPicked | Laboratorio.py:77-97 | every match is the right choice (best, and first free B row with its key) with the B rows consumed when its A row was reached |
| GreedyPass.PassMatchedIff | Laboratorio.py:77-97 | an A row has a match if and only if, with the B rows consumed by earlier A rows set aside, it clears |
| GreedyPass.PassCount | Laboratorio.py:74-97 | the matches plus the B rows consumed beforehand never outnumber the B rows |
| GreedyPass.PassNothingClears | Laboratorio.py:81-97 | when no later A row clears, whatever is consumed, the rest of the pass records nothing |
| Matcher.PassFacts | Laboratorio.py:73-107 | the whole pass, in the matcher's terms: A row order, one-to-one, faithful, best when made, matched exactly where a free B row clears the cutoff, no longer than either table |
| Matcher.PassNothing | Laboratorio.py:81-97 | when no pair of rows clears the cutoff, the pass over all A rows records nothing |
| Matcher.EmptyMeansNothingClears | Laboratorio.py:73-107 | an empty result means no pair of rows clears the cutoff |
| Matcher.NoMatchesIffNothingClears | Laboratorio.py:73-107 | the matcher finds nothing if and only if no pair of rows clears the cutoff |
| Matcher.FindMatches | Laboratorio.py:73-107 | the result is in A row order, one-to-one on B rows, faithful, best at each step, and has a match for an A row exactly when a free B row clears the cutoff; it is no longer than either table; under a symmetric ratio every stored score clears the cutoff |
| Decimal.Show | Laboratorio.py:117-118 | an index prints as a non-empty run of decimal digits, with no leading zero when there is more than one digit (with `ParseShow` this makes the index 0 print as `0`) |
| Decimal.ParseShow | Laboratorio.py:117-118 | reading the printed index back gives the index |
| Decimal.ShowInjective | Laboratorio.py:117-118 | different indices print differently |
| Selection.Label | Laboratorio.py:116-121 | every label starts with the A index prefix `Lunes idx ` |
| Selection.LabelNamesRowA | Laboratorio.py:116-121 | the digits right after a label's prefix read back as the match's A row index |
| Selection.LabelsApart | Laboratorio.py:116-121 | matches of different A rows get different labels |
| Selection.LabelsDistinct | Laboratorio.py:116-121 | the labels of a result in A row order are pairwise distinct |
| Selection.Select | Laboratorio.py:158-160 | a match is kept if and only if it is in the result and its label was chosen; nothing is added |
| Selection.SelectKeepsOrder | Laboratorio.py:158-160 | the kept matches stay in A row order |
| Selection.SelectKeepsApart | Laboratorio.py:158-160 | the kept matches still never share a B row |
| Selection.KeptLabels | Laboratorio.py:158-160 | when every chosen label is on offer, the kept matches carry exactly the chosen labels |
| Selection.SelectCount | Laboratorio.py:158-163 | choosing offered labels, each once, keeps exactly one match per chosen label |
| Selection.JoinChosen | Laboratorio.py:158-163 | one joined row per kept match, in order; each has every column of both rows, the B value on a shared column and the A value on a column only A has |
| Records.Merge | Laboratorio.py:162 | `{**a, **b}` has every column of either row, `b`'s value on a column `b` has, and `a`'s value otherwise |
| Scenarios.FirstRowTakesOnlyB | Laboratorio.py:77-107 | with one B row that clears against the first A row, the result is exactly the first A row matched with it, storing `sim(keyA, keyB)` and both rows |
| Scenarios.ExactMatch | Laboratorio.py:73-107 | identical single-column names scoring 1.0 with cutoff 0.8 give the single match of row 0 with row 0, storing 1.0 |
| Scenarios.NoMatchBelowCutoff | Laboratorio.py:81-86 | names scoring below the cutoff 0.9 give no match |
| Scenarios.Consumption | Laboratorio.py:89-97 | two equal A rows against one equal B row: the first A row consumes the only B row, the second gets no match |
| Scenarios.AsymmetricStoredBelowCutoff | Laboratorio.py:81-98 | with a ratio that is not symmetric, a pair can be matched (search score 0.9 against cutoff 0.5) while its stored score `sim(keyA, keyB)` is 0.1, below the cutoff |
| Scenarios.MergePrecedence | Laboratorio.py:162 | merging `{id: 1, city: A}` with `{id: 2, city: B}` gives the B row |

## Left out

- The Streamlit page, file upload and CSV decoding with encoding fallback (Laboratorio.py:5-56): input/output and presentation.
- The column-choice guard at Laboratorio.py:59. The page only runs the pass when both column lists are non-empty. The model also accepts empty lists, where the key is the empty string.
- The sensitivity slider (Laboratorio.py:61-64). It becomes the `cutoff` of `Matcher.Run`, which must lie in [0, 1], the range the close-match search accepts.
- The comparison-count and time-estimate display and the progress bar (Laboratorio.py:66-75, 109-111): float arithmetic for display only.
- The internals of `difflib`: the ratio and its junk heuristics are the abstract parameter `sim`. The search's `real_quick_ratio`/`quick_ratio` prefilters are not modelled, because they are upper bounds of the ratio and so never drop a candidate the ratio keeps.
- Matcher.FindMatches: the stored similarity is the exact ratio; rounding it to two decimals (Laboratorio.py:102) is float formatting and is left out.
- Selection.Label: the printed similarity (`str` of the rounded float) is the parameter `render`.
- Cell text is taken as given. pandas' `str` of non-text cells, `"nan"` for missing values, and the dtype upcasting of `iterrows` (which can print an A-side integer as `1.0`) are left out.
- The candidate list when no B row is free, or B has no rows (Laboratorio.py:79-80), is modelled as the empty list, so that A row records nothing (the second A row of `Scenarios.Consumption`). In pandas, `agg` with `axis=1` on a frame with no rows may instead return the empty frame, depending on the pandas version, and `.tolist()` at line 80 would then fail. That library behaviour is not modelled.
- Row indices are positions. This assumes the default `0..n-1` index that `read_csv` gives, so index labels and positions coincide.
- The column order of a joined row (a dict keeps insertion order); rows are maps.
- The detail table and the CSV download (Laboratorio.py:129-153, 164-174): display and export.
- The multiselect widget itself (Laboratorio.py:122-125) is the parameter `chosen`. That it only returns offered labels, each once, is the precondition of `Selection.SelectCount`.
- GEIH6LAB.py is not part of this model. It loads, concatenates, plots and exports survey files; none of it is matching logic.
