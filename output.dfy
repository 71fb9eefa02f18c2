/**
 * Output normalisation: materialise every requested column, clean the
 * Name column, and project the table onto the requested columns in their
 * fixed order.
 */
module Output {
  import opened Wrappers
  import opened Tables
  import Text

  /** The columns of the output file, in this order. */
  const RequestedColumns: seq<string> := [
    "Pos", "No", "Name", "Year of Birth", "Time", "Diff", "Cat", "Cat Pos", "Cat Diff",
    "⚤", "⚤ Pos", "⚤ Diff", "Club", "Pace", "City", "Status", "UCI-ID"
  ]

  /** The cleaned Name: the text before the first run of two or more
      whitespace characters, stripped (`.str.split(r"\s{2,}", n=1).str[0].str.strip()`). */
  function CleanName(s: string): (r: string)
    ensures |r| <= |s|
    ensures Text.HasNoGap(r)
    ensures r == [] || (!Text.IsSpace(r[0]) && !Text.IsSpace(r[|r| - 1]))
  {
    var prefix := s[..Text.FirstGap(s)];
    assert Text.HasNoGap(prefix) by {
      assert forall j: nat :: j < |prefix| ==> (Text.GapAt(prefix, j) ==> Text.GapAt(s, j));
    }
    Text.StripNoGap(prefix);
    Text.Strip(prefix)
  }

  /** A cleaned Name holds no run of two or more whitespace characters and
      has no surrounding whitespace; a Name without such a run is only
      stripped. */
  lemma CleanNameSpec(s: string)
    ensures Text.HasNoGap(CleanName(s))
    ensures Text.Strip(CleanName(s)) == CleanName(s)
    ensures Text.HasNoGap(s) ==> CleanName(s) == Text.Strip(s)
  {
    var g := Text.FirstGap(s);
    var prefix := s[..g];
    Text.StripIdempotent(prefix);
    Text.NoGapIffFirstGapAtEnd(s);
    if Text.HasNoGap(s) {
      assert prefix == s;
    }
  }

  /** Cleaning a cleaned Name changes nothing. */
  lemma CleanNameIdempotent(s: string)
    ensures CleanName(CleanName(s)) == CleanName(s)
  {
    var r := CleanName(s);
    CleanNameSpec(s);
    CleanNameSpec(r);
  }

  /** The examples of the Name cleanup's documentation. */
  lemma CleanNameAlice()
    ensures CleanName("Alice Smith  Cycling Club ABC") == "Alice Smith"
  {
    AliceGap();
    AlicePrefix();
    assert Text.TrimStart("Alice Smith") == "Alice Smith";
    assert Text.TrimEnd("Alice Smith") == "Alice Smith";
  }

  /** The club follows the name after two spaces, at index 11. */
  lemma AliceGap()
    ensures Text.FirstGap("Alice Smith  Cycling Club ABC") == 11
  {
    var s := "Alice Smith  Cycling Club ABC";
    assert s[11] == ' ';
    assert s[12] == ' ';
    assert Text.FirstGapFrom(s, 11) == 11;
    assert Text.FirstGapFrom(s, 10) == 11 by { assert s[10] == 'h'; }
    assert Text.FirstGapFrom(s, 9) == 11 by { assert s[9] == 't'; }
    assert Text.FirstGapFrom(s, 8) == 11 by { assert s[8] == 'i'; }
    assert Text.FirstGapFrom(s, 7) == 11 by { assert s[7] == 'm'; }
    assert Text.FirstGapFrom(s, 6) == 11 by { assert s[6] == 'S'; }
    assert Text.FirstGapFrom(s, 5) == 11 by { assert s[5] == ' '; }
    assert Text.FirstGapFrom(s, 4) == 11 by { assert s[4] == 'e'; }
    assert Text.FirstGapFrom(s, 3) == 11 by { assert s[3] == 'c'; }
    assert Text.FirstGapFrom(s, 2) == 11 by { assert s[2] == 'i'; }
    assert Text.FirstGapFrom(s, 1) == 11 by { assert s[1] == 'l'; }
    assert Text.FirstGapFrom(s, 0) == 11 by { assert s[0] == 'A'; }
  }

  lemma AlicePrefix()
    ensures "Alice Smith  Cycling Club ABC"[..11] == "Alice Smith"
  {
  }

  lemma CleanNameBob()
    ensures CleanName("Bob Jones") == "Bob Jones"
  {
    assert "Bob Jones"[..9] == "Bob Jones";
  }

  /** `astype(str)` of a Name cell: a missing cell (NaN) reads "nan". */
  function NameText(row: Row): string {
    if "Name" in row then row["Name"] else "nan"
  }

  /** `df[col] = ""`: a new last column, empty in every row. */
  function MaterializeColumn(t: Table, col: string): Table {
    Table(t.columns + [col], seq(|t.rows|, i requires 0 <= i < |t.rows| => t.rows[i][col := ""]))
  }

  /** `normalize_name_column`: clean every Name cell when the column exists.
      Columns, row count and every other cell stay as they are; each Name is
      the cleaned text of the old one, so no Name holds a run of whitespace. */
  function NormalizeNameColumn(t: Table): (r: Table)
    ensures r.columns == t.columns && |r.rows| == |t.rows|
    ensures forall i, c :: 0 <= i < |r.rows| && c != "Name" ==> Get(r.rows[i], c) == Get(t.rows[i], c)
    ensures "Name" !in t.columns ==> r == t
    ensures "Name" in t.columns ==>
      forall i :: 0 <= i < |r.rows| ==> Get(r.rows[i], "Name") == Some(CleanName(NameText(t.rows[i])))
    ensures "Name" in t.columns ==>
      forall i :: 0 <= i < |r.rows| ==> "Name" in r.rows[i] && Text.HasNoGap(r.rows[i]["Name"])
  {
    if "Name" in t.columns then
      t.(rows := seq(|t.rows|, i requires 0 <= i < |t.rows| =>
        t.rows[i]["Name" := CleanName(NameText(t.rows[i]))]))
    else t
  }

  /** `df[columns]`: the given columns, in the given order; each row keeps
      its cells in those columns and loses all others. */
  function Project(t: Table, columns: seq<string>): (r: Table)
    ensures r.columns == columns && |r.rows| == |t.rows|
    ensures forall i, c :: 0 <= i < |r.rows| ==>
      Get(r.rows[i], c) == (if c in columns then Get(t.rows[i], c) else None)
  {
    Table(columns, seq(|t.rows|, i requires 0 <= i < |t.rows| =>
      map c | c in columns && c in t.rows[i] :: t.rows[i][c]))
  }

  /** The cell the output holds in column `c` for an input row of `t`. */
  function OutputCell(t: Table, row: Row, c: string): Option<string> {
    if c == "Name" then Some(CleanName(if "Name" in t.columns then NameText(row) else ""))
    else if c in t.columns then Get(row, c)
    else Some("")
  }

  /** The output row for one input row of `t`, over `columns`. */
  function OutputRow(t: Table, row: Row, columns: seq<string>): Row {
    map c | c in columns && OutputCell(t, row, c).Some? :: OutputCell(t, row, c).value
  }

  /** `t` normalised and projected onto `columns`: exactly those columns,
      one output row per input row. */
  function NormalizedTo(t: Table, columns: seq<string>): (r: Table)
    ensures r.columns == columns && |r.rows| == |t.rows|
  {
    Table(columns, seq(|t.rows|, i requires 0 <= i < |t.rows| => OutputRow(t, t.rows[i], columns)))
  }

  /** The table `select_and_order_columns` returns for `t`: exactly the
      requested columns, one output row per input row. */
  function Normalized(t: Table): (r: Table)
    ensures r.columns == RequestedColumns && |r.rows| == |t.rows|
  {
    NormalizedTo(t, RequestedColumns)
  }

  /** The output has exactly the requested columns, in order, and as many
      rows as the input; a requested column absent from the input is "" in
      every row; a present one other than Name keeps its cells; every Name
      is the cleaned input Name and holds no run of whitespace. */
  lemma NormalizedShape(t: Table)
    ensures Normalized(t).columns == RequestedColumns
    ensures |Normalized(t).rows| == |t.rows|
    ensures forall i, c :: 0 <= i < |t.rows| && c in RequestedColumns && c !in t.columns ==>
      Get(Normalized(t).rows[i], c) == Some("")
    ensures forall i, c :: 0 <= i < |t.rows| && c in RequestedColumns && c in t.columns && c != "Name" ==>
      Get(Normalized(t).rows[i], c) == Get(t.rows[i], c)
    ensures forall i :: 0 <= i < |t.rows| && "Name" in t.columns ==>
      Get(Normalized(t).rows[i], "Name") == Some(CleanName(NameText(t.rows[i])))
    ensures forall i :: 0 <= i < |t.rows| ==>
      "Name" in Normalized(t).rows[i] && Text.HasNoGap(Normalized(t).rows[i]["Name"])
  {
    assert RequestedColumns[2] == "Name";
    NormalizedToShape(t, RequestedColumns);
  }

  /** `NormalizedShape` for any column list that includes Name. */
  lemma NormalizedToShape(t: Table, columns: seq<string>)
    requires "Name" in columns
    ensures NormalizedTo(t, columns).columns == columns
    ensures |NormalizedTo(t, columns).rows| == |t.rows|
    ensures forall i, c :: 0 <= i < |t.rows| && c in columns && c !in t.columns ==>
      Get(NormalizedTo(t, columns).rows[i], c) == Some("")
    ensures forall i, c :: 0 <= i < |t.rows| && c in columns && c in t.columns && c != "Name" ==>
      Get(NormalizedTo(t, columns).rows[i], c) == Get(t.rows[i], c)
    ensures forall i :: 0 <= i < |t.rows| && "Name" in t.columns ==>
      Get(NormalizedTo(t, columns).rows[i], "Name") == Some(CleanName(NameText(t.rows[i])))
    ensures forall i :: 0 <= i < |t.rows| ==>
      "Name" in NormalizedTo(t, columns).rows[i] && Text.HasNoGap(NormalizedTo(t, columns).rows[i]["Name"])
  {
    forall i | 0 <= i < |t.rows|
      ensures "Name" in NormalizedTo(t, columns).rows[i] && Text.HasNoGap(NormalizedTo(t, columns).rows[i]["Name"])
    {
      CleanNameSpec(if "Name" in t.columns then NameText(t.rows[i]) else "");
    }
  }

  /** Normalising an already normalised table changes nothing. */
  lemma NormalizedIdempotent(t: Table)
    ensures Normalized(Normalized(t)) == Normalized(t)
  {
    NormalizedToIdempotent(t, RequestedColumns);
  }

  lemma NormalizedToIdempotent(t: Table, columns: seq<string>)
    ensures NormalizedTo(NormalizedTo(t, columns), columns) == NormalizedTo(t, columns)
  {
    var n := NormalizedTo(t, columns);
    assert |NormalizedTo(n, columns).rows| == |n.rows|;
    forall i | 0 <= i < |n.rows|
      ensures NormalizedTo(n, columns).rows[i] == n.rows[i]
    {
      var row := t.rows[i];
      var out := n.rows[i];
      CleanNameIdempotent(if "Name" in t.columns then NameText(row) else "");
      forall c | c in columns
        ensures OutputCell(n, out, c) == OutputCell(t, row, c)
      {
      }
      assert OutputRow(n, out, columns) == out;
    }
  }

  /** The labels of `cols` that `have` lacks, each once, in the order of
      their first appearance in `cols`. */
  function Missing(have: seq<string>, cols: seq<string>): (m: seq<string>)
    ensures |m| <= |cols|
  {
    if cols == [] then []
    else
      var m := Missing(have, cols[..|cols| - 1]);
      var c := cols[|cols| - 1];
      if c in have || c in m then m else m + [c]
  }

  /** The missing labels are exactly the listed labels `have` lacks, each
      once. */
  lemma {:induction false} MissingMembers(have: seq<string>, cols: seq<string>)
    ensures forall c :: c in Missing(have, cols) <==> c in cols && c !in have
    ensures NoDup(Missing(have, cols))
  {
    if cols != [] {
      var init := cols[..|cols| - 1];
      var c := cols[|cols| - 1];
      MissingMembers(have, init);
      assert forall d :: d in cols <==> d in init || d == c;
    }
  }

  /** Extending the list by one label appends it to the missing labels when
      it is new. */
  lemma MissingStep(have: seq<string>, cols: seq<string>, k: nat)
    requires k < |cols|
    ensures Missing(have, cols[..k + 1])
         == var m := Missing(have, cols[..k]);
            if cols[k] in have || cols[k] in m then m else m + [cols[k]]
  {
    assert cols[..k + 1][..k] == cols[..k];
  }

  /** `t` is `df` with every column of `columns` it lacked appended once, in
      list order, after the existing ones, empty in every row, and nothing
      else changed. */
  ghost predicate Materialized(df: Table, t: Table, columns: seq<string>) {
    Extended(df, t, Missing(df.columns, columns))
  }

  /** `t` is `df` with the columns `added` appended, empty in every row. */
  ghost predicate Extended(df: Table, t: Table, added: seq<string>) {
    && |t.rows| == |df.rows|
    && t.columns == df.columns + added
    && (forall i, c :: 0 <= i < |t.rows| ==>
          Get(t.rows[i], c) == (if c in added then Some("") else Get(df.rows[i], c)))
  }

  /** After materialising, the columns are exactly the old ones and the
      listed ones, each once when the old ones were distinct. */
  lemma MaterializedColumns(df: Table, t: Table, columns: seq<string>)
    requires Materialized(df, t, columns)
    ensures forall c :: c in t.columns <==> c in df.columns || c in columns
    ensures NoDup(df.columns) ==> NoDup(t.columns)
  {
    MissingMembers(df.columns, columns);
    var m := Missing(df.columns, columns);
    if NoDup(df.columns) {
      forall i, j | 0 <= i < j < |t.columns|
        ensures t.columns[i] != t.columns[j]
      {
        if j >= |df.columns| {
          assert t.columns[j] == m[j - |df.columns|];
          if i >= |df.columns| {
            assert t.columns[i] == m[i - |df.columns|];
          } else {
            assert t.columns[i] in df.columns;
          }
        }
      }
    }
  }

  /** After materialising, a listed column `df` lacked is "" in every row
      and every other cell is `df`'s. */
  lemma MaterializedCell(df: Table, t: Table, columns: seq<string>, i: int, c: string)
    requires Materialized(df, t, columns) && 0 <= i < |t.rows|
    ensures Get(t.rows[i], c) == (if c in columns && c !in df.columns then Some("") else Get(df.rows[i], c))
  {
    MissingMembers(df.columns, columns);
  }

  /** Once every requested column exists, cleaning Name and projecting
      yields the normalised table. */
  lemma CleanAndProject(df: Table, t: Table, columns: seq<string>)
    requires "Name" in columns
    requires Materialized(df, t, columns)
    ensures Project(NormalizeNameColumn(t), columns) == NormalizedTo(df, columns)
  {
    var out := Project(NormalizeNameColumn(t), columns);
    assert "Name" in t.columns by {
      MaterializedColumns(df, t, columns);
    }
    forall i | 0 <= i < |df.rows|
      ensures out.rows[i] == OutputRow(df, df.rows[i], columns)
    {
      MaterializedCell(df, t, columns, i, "Name");
      forall c | c in columns
        ensures Get(out.rows[i], c) == OutputCell(df, df.rows[i], c)
      {
        MaterializedCell(df, t, columns, i, c);
      }
    }
  }

  /** A listed column the table already has leaves what has been
      materialised unchanged. */
  lemma MaterializeKeep(df: Table, t: Table, columns: seq<string>, k: nat)
    requires k < |columns| && Materialized(df, t, columns[..k])
    requires columns[k] in t.columns
    ensures Materialized(df, t, columns[..k + 1])
  {
    MissingStep(df.columns, columns, k);
    assert columns[k] in df.columns || columns[k] in Missing(df.columns, columns[..k]);
  }

  /** A listed column the table lacks is appended, empty in every row. */
  lemma MaterializeAdd(df: Table, t: Table, columns: seq<string>, k: nat)
    requires k < |columns| && Materialized(df, t, columns[..k])
    requires columns[k] !in t.columns
    ensures Materialized(df, MaterializeColumn(t, columns[k]), columns[..k + 1])
  {
    MissingStep(df.columns, columns, k);
    ExtendedAdd(df, t, Missing(df.columns, columns[..k]), columns[k]);
  }

  /** Appending a column the table lacks extends the appended list by it. */
  lemma ExtendedAdd(df: Table, t: Table, added: seq<string>, col: string)
    requires Extended(df, t, added) && col !in t.columns
    ensures Extended(df, MaterializeColumn(t, col), added + [col])
  {
    var t' := MaterializeColumn(t, col);
    assert t'.columns == df.columns + (added + [col]);
    forall i, c | 0 <= i < |t'.rows|
      ensures Get(t'.rows[i], c) == (if c in added + [col] then Some("") else Get(df.rows[i], c))
    {
      assert t'.rows[i] == t.rows[i][col := ""];
      if c != col {
        assert Get(t'.rows[i], c) == Get(t.rows[i], c);
        assert (c in added + [col]) == (c in added);
      }
    }
  }

  /** `for col in columns: if col not in df.columns: df[col] = ""`. */
  method MaterializeColumns(df: Table, columns: seq<string>) returns (t: Table)
    ensures Materialized(df, t, columns)
  {
    t := df;
    assert Materialized(df, t, columns[..0]);
    for k := 0 to |columns|
      invariant Materialized(df, t, columns[..k])
    {
      var col := columns[k];
      if col !in t.columns {
        MaterializeAdd(df, t, columns, k);
        t := MaterializeColumn(t, col);
      } else {
        MaterializeKeep(df, t, columns, k);
      }
    }
    assert columns[..|columns|] == columns;
  }

  /** `select_and_order_columns`: add the missing requested columns, clean
      Name, and keep only the requested columns, in order. */
  method SelectAndOrderColumns(df: Table) returns (out: Table)
    ensures out == Normalized(df)
  {
    var t := MaterializeColumns(df, RequestedColumns);
    assert RequestedColumns[2] == "Name";
    CleanAndProject(df, t, RequestedColumns);
    t := NormalizeNameColumn(t);
    out := Project(t, RequestedColumns);
  }
}
