/**
 * The data the pipeline moves around.
 *
 * A `Frame` is one table as `pandas.read_html` parses it: column labels and
 * rows of cells, by position, where `None` is a NaN cell (an empty or
 * missing `<td>`). Once frames are concatenated, a row of the merged `Table`
 * is a map from column name to cell; a NaN cell, and a column that a row's
 * frame did not have (which pandas fills with NaN), is absent from that
 * row's map.
 */
module Tables {
  import opened Wrappers
  import Text

  datatype Frame = Frame(columns: seq<string>, rows: seq<seq<Option<string>>>)

  type Row = map<string, string>

  datatype Table = Table(columns: seq<string>, rows: seq<Row>)

  /** The `pd.DataFrame()` returned when no page held a table. */
  const EmptyTable := Table([], [])

  /** No element occurs twice. */
  predicate NoDup<T(==)>(s: seq<T>) {
    forall i, j :: 0 <= i < j < |s| ==> s[i] != s[j]
  }

  /** The cell of `row` in column `c`; `None` stands for NaN. */
  function Get(row: Row, c: string): Option<string> {
    if c in row then Some(row[c]) else None
  }

  /** `[str(c).strip() for c in columns]`. */
  function StripAll(columns: seq<string>): (r: seq<string>) {
    seq(|columns|, i requires 0 <= i < |columns| => Text.Strip(columns[i]))
  }

  /** `df.columns = [str(c).strip() for c in df.columns]`. */
  function StripColumns(f: Frame): Frame {
    f.(columns := StripAll(f.columns))
  }

  /** Normalising the labels a second time changes nothing. */
  lemma StripColumnsIdempotent(f: Frame)
    ensures StripColumns(StripColumns(f)) == StripColumns(f)
  {
    forall i | 0 <= i < |f.columns|
      ensures Text.Strip(Text.Strip(f.columns[i])) == Text.Strip(f.columns[i])
    {
      Text.StripIdempotent(f.columns[i]);
    }
  }

  /** pandas' `df.empty`: one of the two axes has length zero. */
  predicate IsEmpty(f: Frame) {
    |f.columns| == 0 || |f.rows| == 0
  }
}
