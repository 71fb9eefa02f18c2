/**
 * Merging the tables of all visited pages: `pd.concat` of the frames in
 * visit order, then `drop_duplicates` on the identity columns (those whose
 * lower-cased label is `pos`, `no` or `name`), keeping first occurrences.
 */
module Merge {
  import opened Wrappers
  import opened Tables
  import Text

  /** Appends to `acc` the labels of `cols` it lacks, in order of first
      appearance: the ordered union pandas builds for differing columns. */
  function AppendNew(acc: seq<string>, cols: seq<string>): (r: seq<string>)
    ensures forall c :: c in r <==> c in acc || c in cols
    ensures |acc| <= |r| && r[..|acc|] == acc
    ensures NoDup(acc) ==> NoDup(r)
    decreases cols
  {
    if cols == [] then acc
    else AppendNew(if cols[0] in acc then acc else acc + [cols[0]], cols[1..])
  }

  /** The columns of `pd.concat(frames)`. */
  function UnionColumns(frames: seq<Frame>): (r: seq<string>)
    ensures forall c :: c in r <==> exists f :: f in frames && c in f.columns
    ensures NoDup(r)
  {
    if frames == [] then []
    else
      var init := frames[..|frames| - 1];
      var r := AppendNew(UnionColumns(init), frames[|frames| - 1].columns);
      assert forall f :: f in frames <==> f in init || f == frames[|frames| - 1];
      r
  }

  /** `row` with cell `v` in column `c`; a NaN cell removes the entry. */
  function Put(row: Row, c: string, v: Option<string>): (r: Row)
    ensures forall d :: Get(r, d) == (if d == c then v else Get(row, d))
    ensures |r| <= |row| + 1
  {
    if v.Some? then row[c := v.value]
    else
      var r := row - {c};
      assert r.Keys <= row.Keys;
      r
  }

  /** One parsed row as a map from label to cell; NaN cells have no entry. */
  function RowOf(cols: seq<string>, cells: seq<Option<string>>): (row: Row)
    ensures forall c :: c in row ==> c in cols
    ensures |row| <= |cells|
  {
    if cols == [] || cells == [] then map[]
    else
      var rest := RowOf(cols[1..], cells[1..]);
      var row := Put(rest, cols[0], cells[0]);
      assert forall c :: c in row ==> c == cols[0] || c in rest by {
        forall c | c in row ensures c == cols[0] || c in rest {
          assert Get(row, c).Some?;
        }
      }
      row
  }

  /** With distinct labels, a converted row holds exactly the row's cells
      under their labels: a label is a key exactly when its cell is not NaN
      (and `RowOf` has no other keys). */
  lemma {:induction false} RowOfCells(cols: seq<string>, cells: seq<Option<string>>)
    requires NoDup(cols) && |cells| == |cols|
    ensures forall i :: 0 <= i < |cols| ==> Get(RowOf(cols, cells), cols[i]) == cells[i]
  {
    if cols != [] {
      var rest := cols[1..];
      assert NoDup(rest) by {
        forall i, j | 0 <= i < j < |rest| ensures rest[i] != rest[j] {
          assert rest[i] == cols[i + 1] && rest[j] == cols[j + 1];
        }
      }
      var row := RowOf(cols, cells);
      var row' := RowOf(rest, cells[1..]);
      RowOfCells(rest, cells[1..]);
      forall i | 1 <= i < |cols|
        ensures Get(row, cols[i]) == cells[i]
      {
        assert cols[i] == rest[i - 1] && cells[i] == cells[1..][i - 1];
        assert cols[i] != cols[0];
      }
    }
  }

  /** The rows of one frame, as maps. */
  function FrameRows(f: Frame): seq<Row> {
    seq(|f.rows|, i requires 0 <= i < |f.rows| => RowOf(f.columns, f.rows[i]))
  }

  /** The rows of `pd.concat(frames, ignore_index=True)`. */
  function ConcatRows(frames: seq<Frame>): (rows: seq<Row>)
    ensures forall x :: x in rows <==> exists i :: 0 <= i < |frames| && x in FrameRows(frames[i])
  {
    if frames == [] then []
    else
      var init := frames[..|frames| - 1];
      var rows := ConcatRows(init) + FrameRows(frames[|frames| - 1]);
      assert forall i :: 0 <= i < |init| ==> init[i] == frames[i];
      rows
  }

  /** Concatenation keeps the frames' order and, within each frame, the
      rows' order. */
  lemma {:induction false} ConcatRowsAppend(a: seq<Frame>, b: seq<Frame>)
    ensures ConcatRows(a + b) == ConcatRows(a) + ConcatRows(b)
    decreases |b|
  {
    if b != [] {
      var b' := b[..|b| - 1];
      assert (a + b)[..|a + b| - 1] == a + b';
      assert (a + b)[|a + b| - 1] == b[|b| - 1];
      ConcatRowsAppend(a, b');
    } else {
      assert a + b == a;
    }
  }

  /** The lower-cased labels that identify a row. */
  const IdentityNames: seq<string> := ["pos", "no", "name"]

  /** `[c for c in columns if c.lower() in ("pos", "no", "name")]`. */
  function IdentityColumns(columns: seq<string>): (ids: seq<string>)
    ensures forall c :: c in ids <==> c in columns && Text.Lower(c) in IdentityNames
  {
    if columns == [] then []
    else
      (if Text.Lower(columns[0]) in IdentityNames then [columns[0]] else [])
      + IdentityColumns(columns[1..])
  }

  /** The identity tuple of a row. */
  function Key(row: Row, ids: seq<string>): seq<Option<string>> {
    seq(|ids|, i requires 0 <= i < |ids| => Get(row, ids[i]))
  }

  /** No earlier row has the same identity tuple as `rows[i]`
      (`not duplicated(keep="first")`). */
  predicate IsFirstOccurrence(rows: seq<Row>, ids: seq<string>, i: nat)
    requires i < |rows|
  {
    forall j :: 0 <= j < i ==> Key(rows[j], ids) != Key(rows[i], ids)
  }

  /** `a` is `b` with some elements left out, the rest in the same order. */
  predicate IsSubsequence<T(==)>(a: seq<T>, b: seq<T>) {
    if a == [] then true
    else if b == [] then false
    else
      (a[|a| - 1] == b[|b| - 1] && IsSubsequence(a[..|a| - 1], b[..|b| - 1]))
      || IsSubsequence(a, b[..|b| - 1])
  }

  /** `drop_duplicates(subset=ids)`: keeps, in order, exactly the rows that
      are the first with their identity tuple. */
  function DropDuplicates(rows: seq<Row>, ids: seq<string>): (r: seq<Row>)
    ensures IsSubsequence(r, rows)
    ensures forall k :: 0 <= k < |r| ==> r[k] in rows
  {
    if rows == [] then []
    else
      var init := rows[..|rows| - 1];
      var r' := DropDuplicates(init, ids);
      if IsFirstOccurrence(rows, ids, |rows| - 1) then
        var r := r' + [rows[|rows| - 1]];
        assert r[..|r| - 1] == r';
        r
      else
        r'
  }

  /** Whether a row counts as a first occurrence depends only on the rows
      before it. */
  lemma FirstOccurrencePrefix(rows: seq<Row>, ids: seq<string>, n: nat, i: nat)
    requires i < n <= |rows|
    ensures IsFirstOccurrence(rows[..n], ids, i) <==> IsFirstOccurrence(rows, ids, i)
  {
    assert forall j :: 0 <= j <= i ==> rows[..n][j] == rows[j];
  }

  /** No two rows share an identity tuple. */
  predicate DistinctKeys(rows: seq<Row>, ids: seq<string>) {
    forall k, l :: 0 <= k < l < |rows| ==> Key(rows[k], ids) != Key(rows[l], ids)
  }

  /** `kept` is, in input order, exactly the rows of `rows` that are the
      first with their identity tuple: `kept[k]` is `rows[m[k]]`, the
      positions `m` increase strictly, and every first occurrence has its
      position in `m`. */
  predicate FirstOccurrencesAt(kept: seq<Row>, rows: seq<Row>, ids: seq<string>, m: seq<nat>) {
    && |m| == |kept|
    && (forall k :: 0 <= k < |m| ==>
          m[k] < |rows| && kept[k] == rows[m[k]] && IsFirstOccurrence(rows, ids, m[k]))
    && (forall k, l :: 0 <= k < l < |m| ==> m[k] < m[l])
    && (forall i :: 0 <= i < |rows| && IsFirstOccurrence(rows, ids, i) ==> i in m)
  }

  /** The kept rows have pairwise distinct identity tuples. */
  lemma {:induction false} DropDuplicatesDistinct(rows: seq<Row>, ids: seq<string>)
    ensures DistinctKeys(DropDuplicates(rows, ids), ids)
  {
    if rows != [] {
      var init := rows[..|rows| - 1];
      var last := rows[|rows| - 1];
      var r' := DropDuplicates(init, ids);
      DropDuplicatesDistinct(init, ids);
      assert DistinctKeys(r', ids);
      if IsFirstOccurrence(rows, ids, |rows| - 1) {
        var r := r' + [last];
        assert DropDuplicates(rows, ids) == r;
        forall k | 0 <= k < |r'|
          ensures Key(r'[k], ids) != Key(last, ids)
        {
          var j :| 0 <= j < |init| && init[j] == r'[k];
          assert rows[j] == init[j];
        }
        forall k, l | 0 <= k < l < |r|
          ensures Key(r[k], ids) != Key(r[l], ids)
        {
          if l < |r'| {
            assert r[k] == r'[k] && r[l] == r'[l];
          } else {
            assert r[k] == r'[k] && r[l] == last;
          }
        }
      } else {
        assert DropDuplicates(rows, ids) == r';
      }
    }
  }

  /** The first occurrences of `rows` are those of all rows but the last,
      followed by the last row when it is one itself. */
  lemma FirstOccurrencesExtend(rows: seq<Row>, ids: seq<string>, kept: seq<Row>, m: seq<nat>)
    requires rows != []
    requires FirstOccurrencesAt(kept, rows[..|rows| - 1], ids, m)
    ensures IsFirstOccurrence(rows, ids, |rows| - 1) ==>
      FirstOccurrencesAt(kept + [rows[|rows| - 1]], rows, ids, m + [|rows| - 1])
    ensures !IsFirstOccurrence(rows, ids, |rows| - 1) ==> FirstOccurrencesAt(kept, rows, ids, m)
  {
    var n := |rows| - 1;
    forall k | 0 <= k < |m|
      ensures m[k] < n && kept[k] == rows[m[k]] && IsFirstOccurrence(rows, ids, m[k])
    {
      FirstOccurrencePrefix(rows, ids, n, m[k]);
    }
    forall i | 0 <= i < n && IsFirstOccurrence(rows, ids, i)
      ensures i in m
    {
      FirstOccurrencePrefix(rows, ids, n, i);
    }
  }

  /** The kept rows are exactly the first occurrences, at their positions
      and in input order. */
  lemma {:induction false} DropDuplicatesKeepsFirst(rows: seq<Row>, ids: seq<string>) returns (m: seq<nat>)
    ensures FirstOccurrencesAt(DropDuplicates(rows, ids), rows, ids, m)
  {
    if rows == [] {
      m := [];
    } else {
      var n := |rows| - 1;
      var r' := DropDuplicates(rows[..n], ids);
      var m' := DropDuplicatesKeepsFirst(rows[..n], ids);
      FirstOccurrencesExtend(rows, ids, r', m');
      if IsFirstOccurrence(rows, ids, n) {
        m := m' + [n];
        assert DropDuplicates(rows, ids) == r' + [rows[n]];
      } else {
        m := m';
        assert DropDuplicates(rows, ids) == r';
      }
    }
  }

  /** A last row that repeats an earlier identity tuple is dropped. */
  lemma DropLastRepeat(rows: seq<Row>, ids: seq<string>, j: nat)
    requires j < |rows| - 1 && Key(rows[j], ids) == Key(rows[|rows| - 1], ids)
    ensures DropDuplicates(rows, ids) == DropDuplicates(rows[..|rows| - 1], ids)
  {
    assert !IsFirstOccurrence(rows, ids, |rows| - 1);
  }

  /** Rows whose identity tuples were all seen before add nothing: a page
      that returns rows already collected leaves the deduplicated rows
      unchanged. */
  lemma {:induction false} RepeatedRowsDropped(rows: seq<Row>, ids: seq<string>, extra: seq<Row>)
    requires forall x :: x in extra ==> exists j :: 0 <= j < |rows| && Key(rows[j], ids) == Key(x, ids)
    ensures DropDuplicates(rows + extra, ids) == DropDuplicates(rows, ids)
    decreases |extra|
  {
    if extra == [] {
      assert rows + extra == rows;
    } else {
      var init := extra[..|extra| - 1];
      var x := extra[|extra| - 1];
      var prev := rows + init;
      var all := prev + [x];
      assert rows + extra == all;
      var j :| 0 <= j < |rows| && Key(rows[j], ids) == Key(x, ids);
      assert all[j] == rows[j];
      DropLastRepeat(all, ids, j);
      assert all[..|all| - 1] == prev;
      assert forall y :: y in init ==> y in extra;
      RepeatedRowsDropped(rows, ids, init);
    }
  }

  /** The table `scrape_all_pages` returns for the collected frames. */
  function MergeFrames(frames: seq<Frame>): (t: Table)
    ensures frames == [] ==> t == EmptyTable
    ensures frames != [] ==> t.columns == UnionColumns(frames)
    ensures frames != [] ==> IsSubsequence(t.rows, ConcatRows(frames))
  {
    if frames == [] then EmptyTable
    else
      var columns := UnionColumns(frames);
      var big := ConcatRows(frames);
      var ids := IdentityColumns(columns);
      if ids == [] then
        SubsequenceRefl(big);
        Table(columns, big)
      else
        Table(columns, DropDuplicates(big, ids))
  }

  /** Deduplication of the merged rows: without an identity column the
      concatenated rows are returned unchanged; with one, the identity tuples
      of the result are pairwise distinct and the result is exactly the
      first row carrying each tuple, in concatenation order, at the
      positions `m`. */
  lemma MergeFramesDedup(frames: seq<Frame>) returns (m: seq<nat>)
    requires frames != []
    ensures var t := MergeFrames(frames);
      var ids := IdentityColumns(t.columns);
      var big := ConcatRows(frames);
      && (ids == [] ==> t.rows == big)
      && (ids != [] ==> DistinctKeys(t.rows, ids) && FirstOccurrencesAt(t.rows, big, ids, m))
  {
    var big := ConcatRows(frames);
    var ids := IdentityColumns(UnionColumns(frames));
    m := [];
    if ids != [] {
      DropDuplicatesDistinct(big, ids);
      m := DropDuplicatesKeepsFirst(big, ids);
    }
  }

  /** Every sequence is a subsequence of itself. */
  lemma {:induction false} SubsequenceRefl<T>(s: seq<T>)
    ensures IsSubsequence(s, s)
  {
    if s != [] {
      SubsequenceRefl(s[..|s| - 1]);
    }
  }
}
