/**
 * Results-table selection: among the tables parsed from one page, pick the
 * one whose column labels mention the most typical race-result headers.
 */
module Selection {
  import opened Wrappers
  import opened Tables
  import Text

  /** The header tokens a race-results table typically carries. */
  const TypicalHeaders: seq<string> :=
    ["Pos", "No", "Name", "Year of Birth", "Time", "Status", "Club", "UCI-ID", "Pace"]

  /** `any(token in col for col in columns)`. */
  predicate Mentions(columns: seq<string>, token: string) {
    exists c :: c in columns && Text.IsSubstring(token, c)
  }

  /** How many of `tokens` some column mentions. */
  function CountMentioned(tokens: seq<string>, columns: seq<string>): (n: nat)
    ensures n <= |tokens|
  {
    if tokens == [] then 0
    else (if Mentions(columns, tokens[0]) then 1 else 0) + CountMentioned(tokens[1..], columns)
  }

  /** The count is 0 exactly when no column mentions any token. */
  lemma {:induction false} CountZero(tokens: seq<string>, columns: seq<string>)
    ensures CountMentioned(tokens, columns) == 0
        <==> forall i :: 0 <= i < |tokens| ==> !Mentions(columns, tokens[i])
  {
    if tokens != [] {
      CountZero(tokens[1..], columns);
      assert forall i :: 1 <= i < |tokens| ==> tokens[i] == tokens[1..][i - 1];
    }
  }

  /** The tokens of `tokens` that some column mentions, as a set. */
  function MentionedSet(tokens: seq<string>, columns: seq<string>): set<string> {
    set t | t in tokens && Mentions(columns, t)
  }

  /** Counting along a duplicate-free token list counts each mentioned
      token exactly once. */
  lemma {:induction false} CountIsCardinality(tokens: seq<string>, columns: seq<string>)
    requires NoDup(tokens)
    ensures CountMentioned(tokens, columns) == |MentionedSet(tokens, columns)|
  {
    if tokens != [] {
      var rest := tokens[1..];
      assert NoDup(rest) by {
        forall i, j | 0 <= i < j < |rest| ensures rest[i] != rest[j] {
          assert rest[i] == tokens[i + 1] && rest[j] == tokens[j + 1];
        }
      }
      CountIsCardinality(rest, columns);
      assert tokens[0] !in rest by {
        forall j | 0 <= j < |rest| ensures rest[j] != tokens[0] {
          assert rest[j] == tokens[j + 1];
        }
      }
      if Mentions(columns, tokens[0]) {
        assert MentionedSet(tokens, columns) == {tokens[0]} + MentionedSet(rest, columns);
      } else {
        assert MentionedSet(tokens, columns) == MentionedSet(rest, columns);
      }
    }
  }

  /** The score of a table whose labels are `columns` (already stripped):
      one point per typical header some label contains. */
  function Score(columns: seq<string>): (n: nat)
    ensures n <= |TypicalHeaders|
  {
    CountMentioned(TypicalHeaders, columns)
  }

  /** A table scores 0 exactly when none of its labels contains a typical
      header. */
  lemma ScoreZero(columns: seq<string>)
    ensures Score(columns) == 0 <==> forall i :: 0 <= i < |TypicalHeaders| ==> !Mentions(columns, TypicalHeaders[i])
  {
    CountZero(TypicalHeaders, columns);
  }

  /** A table's score is the number of distinct typical headers mentioned
      by at least one column, hence between 0 and 9. */
  lemma ScoreCountsDistinctHeaders(columns: seq<string>)
    ensures Score(columns) == |MentionedSet(TypicalHeaders, columns)|
    ensures Score(columns) <= 9
  {
    assert NoDup(TypicalHeaders);
    CountIsCardinality(TypicalHeaders, columns);
  }

  /** The score of a parsed table, computed on its stripped labels. */
  function FrameScore(f: Frame): nat {
    Score(StripColumns(f).columns)
  }

  /** The index of the first table with the highest score. */
  function BestIndex(tables: seq<Frame>): (k: nat)
    requires |tables| > 0
    ensures k < |tables|
    ensures forall j :: 0 <= j < |tables| ==> FrameScore(tables[j]) <= FrameScore(tables[k])
    ensures forall j :: 0 <= j < k ==> FrameScore(tables[j]) < FrameScore(tables[k])
  {
    if |tables| == 1 then 0
    else
      var k := BestIndex(tables[..|tables| - 1]);
      if FrameScore(tables[|tables| - 1]) > FrameScore(tables[k]) then |tables| - 1 else k
  }

  /** The table `extract_results_table` returns for the parsed `tables`
      (an empty list stands for `read_html` finding no table). */
  function SelectTable(tables: seq<Frame>): (r: Option<Frame>)
    ensures r.None? <==> tables == []
  {
    if tables == [] then None else Some(StripColumns(tables[BestIndex(tables)]))
  }

  /** The scoring loop of `extract_results_table`. A table replaces the
      current best only when it scores strictly higher. */
  method ExtractResultsTable(tables: seq<Frame>) returns (best: Option<Frame>)
    ensures best == SelectTable(tables)
  {
    best := None;
    var bestScore: int := -1;
    var i := 0;
    while i < |tables|
      invariant 0 <= i <= |tables|
      invariant i == 0 ==> best == None && bestScore == -1
      invariant i > 0 ==> best == Some(StripColumns(tables[BestIndex(tables[..i])]))
      invariant i > 0 ==> bestScore == FrameScore(tables[BestIndex(tables[..i])])
    {
      var df := StripColumns(tables[i]);
      var score := Score(df.columns);
      assert tables[..i + 1][..i] == tables[..i];
      if score > bestScore {
        best := Some(df);
        bestScore := score;
      }
      i := i + 1;
    }
    assert tables[..i] == tables;
    if best == None && |tables| > 0 {
      // The largest-table fallback cannot run: the first table always
      // beats the initial score of -1.
      assert false;
    }
  }
}
