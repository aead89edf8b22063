/** The single-best close-match search the matcher asks for:
    `difflib.get_close_matches(word, possibilities, n=1, cutoff)`.
    The similarity ratio itself is a library routine and stays abstract: it is
    the parameter `sim`. The library scores a candidate `x` against `word` as
    `sim(x, word)`, keeps the candidates scoring at least `cutoff`, and returns
    the largest `(score, x)` pair, so equal scores go to the larger string. */
module CloseMatches {

  import opened Wrappers
  import opened Text

  /** A similarity ratio between two strings. */
  type Similarity = (string, string) -> real

  /** `top` ranks at least as high as `other` as a match for `word`: a higher
      score, or the same score and a string not smaller in code-point order. */
  predicate AtLeast(sim: Similarity, word: string, top: string, other: string)
  {
    || sim(top, word) > sim(other, word)
    || (sim(top, word) == sim(other, word) && (other == top || LexLess(other, top)))
  }

  lemma AtLeastTransitive(sim: Similarity, word: string, x: string, y: string, z: string)
    requires AtLeast(sim, word, x, y) && AtLeast(sim, word, y, z)
    ensures AtLeast(sim, word, x, z)
  {
    if sim(x, word) == sim(z, word) && z != x && y != x && z != y {
      LexLessTransitive(z, y, x);
    }
  }

  lemma AtLeastTotal(sim: Similarity, word: string, x: string, y: string)
    ensures AtLeast(sim, word, x, y) || AtLeast(sim, word, y, x)
  {
    LexLessTotal(x, y);
  }

  /** Two candidates that each rank at least as high as the other are the same string. */
  lemma AtLeastAntisymmetric(sim: Similarity, word: string, x: string, y: string)
    requires AtLeast(sim, word, x, y) && AtLeast(sim, word, y, x)
    ensures x == y
  {
    if x != y && LexLess(x, y) {
      LexLessAsymmetric(x, y);
    }
  }

  /** A candidate ranking above one that ranks above a whole list ranks above that list too. */
  lemma AtLeastAll(sim: Similarity, word: string, x: string, y: string, ys: seq<string>)
    requires AtLeast(sim, word, x, y)
    requires forall z :: z in ys ==> AtLeast(sim, word, y, z)
    ensures forall z :: z in ys ==> AtLeast(sim, word, x, z)
  {
    forall z | z in ys
      ensures AtLeast(sim, word, x, z)
    {
      AtLeastTransitive(sim, word, x, y, z);
    }
  }

  /** The best candidate clearing `cutoff`, or `None` when no candidate does. */
  function CloseMatch(sim: Similarity, word: string, candidates: seq<string>, cutoff: real): (r: Option<string>)
    ensures r.None? <==> forall x :: x in candidates ==> sim(x, word) < cutoff
    ensures r.Some? ==> r.value in candidates && sim(r.value, word) >= cutoff
    ensures r.Some? ==> forall x :: x in candidates ==> AtLeast(sim, word, r.value, x)
  {
    if |candidates| == 0 then None
    else
      var x := candidates[0];
      var rest := CloseMatch(sim, word, candidates[1..], cutoff);
      if sim(x, word) < cutoff then rest
      else if rest.None? then Some(x)
      else if AtLeast(sim, word, rest.value, x) then rest
      else
        AtLeastTotal(sim, word, x, rest.value);
        AtLeastAll(sim, word, x, rest.value, candidates[1..]);
        Some(x)
  }

  /** The search result is determined: a candidate clearing the cutoff that
      ranks at least as high as every candidate is the one returned. */
  lemma CloseMatchUnique(sim: Similarity, word: string, candidates: seq<string>, cutoff: real, y: string)
    requires y in candidates && sim(y, word) >= cutoff
    requires forall x :: x in candidates ==> AtLeast(sim, word, y, x)
    ensures CloseMatch(sim, word, candidates, cutoff) == Some(y)
  {
    var r := CloseMatch(sim, word, candidates, cutoff);
    AtLeastAntisymmetric(sim, word, r.value, y);
  }
}
