/** Rows as the matcher sees them: a mapping from column name to the text of
    the cell, the comparison key built from the chosen columns, and the merge
    of a matched pair of rows. */
module Records {

  import opened Text

  /** One row of a loaded table, column name to cell text. */
  type Record = map<string, string>

  /** Every chosen column exists in the row (a missing one is a `KeyError`). */
  predicate HasFields(row: Record, fields: seq<string>)
  {
    forall f :: f in fields ==> f in row
  }

  /** Every row of a table carries the chosen columns. */
  predicate Table(rows: seq<Record>, fields: seq<string>)
  {
    forall k :: 0 <= k < |rows| ==> HasFields(rows[k], fields)
  }

  /** The cell texts of the chosen columns, in the order they were chosen. */
  function Cells(row: Record, fields: seq<string>): seq<string>
    requires HasFields(row, fields)
  {
    seq(|fields|, k requires 0 <= k < |fields| => row[fields[k]])
  }

  /** The comparison key of a row: the chosen cells joined by single spaces. */
  function Compose(row: Record, fields: seq<string>): string
    requires HasFields(row, fields)
  {
    Join(Cells(row, fields))
  }

  /** A single chosen column gives its cell text unchanged, and choosing one
      column list after another gives the two keys with one space between. */
  lemma {:induction false} ComposeSplit(row: Record, fs: seq<string>, gs: seq<string>)
    requires HasFields(row, fs + gs)
    ensures |fs| == 1 ==> Compose(row, fs) == row[fs[0]]
    ensures |fs| > 0 && |gs| > 0 ==>
              Compose(row, fs + gs) == Compose(row, fs) + " " + Compose(row, gs)
  {
    assert HasFields(row, fs) && HasFields(row, gs);
    if |fs| > 0 && |gs| > 0 {
      assert Cells(row, fs + gs) == Cells(row, fs) + Cells(row, gs);
      JoinAppend(Cells(row, fs), Cells(row, gs));
    }
  }

  /** `{**a, **b}`: every column of either row; on a column both rows have,
      the value of `b`; on a column only `a` has, the value of `a`. */
  function Merge(a: Record, b: Record): (r: Record)
    ensures r.Keys == a.Keys + b.Keys
    ensures forall c :: c in b ==> r[c] == b[c]
    ensures forall c :: c in a && c !in b ==> r[c] == a[c]
  {
    a + b
  }
}
