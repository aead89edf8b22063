/** Plain string helpers the matcher relies on: Python's `" ".join`, and the
    code-point ordering Python uses when it compares two `str` values. */
module Text {

  /** `" ".join(parts)`: the parts in order, a single space between neighbours. */
  function Join(parts: seq<string>): string
  {
    if |parts| == 0 then ""
    else if |parts| == 1 then parts[0]
    else parts[0] + " " + Join(parts[1..])
  }

  /** Where part `k` begins inside `Join(parts)`: every earlier part plus its separator. */
  function Offset(parts: seq<string>, k: nat): nat
    requires k <= |parts|
  {
    if k == 0 then 0 else Offset(parts, k - 1) + |parts[k - 1]| + 1
  }

  lemma {:induction false} OffsetCons(parts: seq<string>, k: nat)
    requires 1 <= k <= |parts|
    ensures Offset(parts, k) == |parts[0]| + 1 + Offset(parts[1..], k - 1)
  {
    if k > 1 {
      OffsetCons(parts, k - 1);
    }
  }

  /** Every part but the last is followed by one space in the joined string. */
  lemma {:induction false} JoinPartAt(parts: seq<string>, k: nat)
    requires k < |parts| - 1
    ensures Offset(parts, k) + |parts[k]| < |Join(parts)|
    ensures Join(parts)[Offset(parts, k)..Offset(parts, k) + |parts[k]| + 1] == parts[k] + " "
  {
    var rest := parts[1..];
    var tail := Join(rest);
    assert Join(parts) == (parts[0] + " ") + tail;
    if k > 0 {
      JoinPartAt(rest, k - 1);
      OffsetCons(parts, k);
      assert parts[k] == rest[k - 1];
      var h := |parts[0]| + 1;
      var o := Offset(rest, k - 1);
      assert Join(parts)[h + o..h + o + |parts[k]| + 1] == tail[o..o + |parts[k]| + 1];
    }
  }

  lemma SuffixOfAppend(a: string, b: string, o: nat)
    requires o <= |b|
    ensures (a + b)[|a| + o..] == b[o..]
  {
  }

  /** The joined string ends with the last part. */
  lemma {:induction false} JoinLastPart(parts: seq<string>)
    requires |parts| > 0
    ensures Offset(parts, |parts| - 1) <= |Join(parts)|
    ensures Join(parts)[Offset(parts, |parts| - 1)..] == parts[|parts| - 1]
  {
    if |parts| > 1 {
      var rest := parts[1..];
      var tail := Join(rest);
      assert Join(parts) == (parts[0] + " ") + tail;
      JoinLastPart(rest);
      OffsetCons(parts, |parts| - 1);
      SuffixOfAppend(parts[0] + " ", tail, Offset(rest, |rest| - 1));
    }
  }

  /** The layout of a joined string, independently of how `Join` builds it:
      cut at the offsets, the string falls apart into every part but the last
      followed by a single space, and the last part, verbatim. */
  lemma {:induction false} JoinLayout(parts: seq<string>)
    requires |parts| > 0
    ensures forall k :: 0 <= k < |parts| - 1 ==>
              Offset(parts, k) + |parts[k]| < |Join(parts)| &&
              Join(parts)[Offset(parts, k)..Offset(parts, k) + |parts[k]| + 1] == parts[k] + " "
    ensures Offset(parts, |parts| - 1) <= |Join(parts)|
    ensures Join(parts)[Offset(parts, |parts| - 1)..] == parts[|parts| - 1]
  {
    JoinLastPart(parts);
    forall k | 0 <= k < |parts| - 1
      ensures Offset(parts, k) + |parts[k]| < |Join(parts)|
      ensures Join(parts)[Offset(parts, k)..Offset(parts, k) + |parts[k]| + 1] == parts[k] + " "
    {
      JoinPartAt(parts, k);
    }
  }

  /** Joining two non-empty lists is joining each and putting one space between. */
  lemma {:induction false} JoinAppend(xs: seq<string>, ys: seq<string>)
    requires |xs| > 0 && |ys| > 0
    ensures Join(xs + ys) == Join(xs) + " " + Join(ys)
  {
    if |xs| == 1 {
      assert (xs + ys)[1..] == ys;
    } else {
      assert (xs + ys)[1..] == xs[1..] + ys;
      JoinAppend(xs[1..], ys);
    }
  }

  /** Python's `a < b` on `str`: code point by code point, a proper prefix first. */
  predicate LexLess(a: string, b: string)
  {
    if |a| == 0 then |b| > 0
    else if |b| == 0 then false
    else if a[0] != b[0] then a[0] < b[0]
    else LexLess(a[1..], b[1..])
  }

  lemma {:induction false} LexLessTotal(a: string, b: string)
    ensures a == b || LexLess(a, b) || LexLess(b, a)
  {
    if |a| > 0 && |b| > 0 && a[0] == b[0] {
      LexLessTotal(a[1..], b[1..]);
      if a[1..] == b[1..] {
        assert a == [a[0]] + a[1..] && b == [b[0]] + b[1..];
      }
    }
  }

  /** Two strings are never each below the other; in particular no string is below itself. */
  lemma {:induction false} LexLessAsymmetric(a: string, b: string)
    requires LexLess(a, b)
    ensures !LexLess(b, a)
  {
    if |a| > 0 && |b| > 0 && a[0] == b[0] {
      LexLessAsymmetric(a[1..], b[1..]);
    }
  }

  lemma {:induction false} LexLessTransitive(a: string, b: string, c: string)
    requires LexLess(a, b) && LexLess(b, c)
    ensures LexLess(a, c)
  {
    if |a| > 0 && a[0] == b[0] && b[0] == c[0] {
      LexLessTransitive(a[1..], b[1..], c[1..]);
    }
  }
}
