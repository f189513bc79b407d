/**
 * `extract_gameweek_scores` (scripts/player_score_plot.py): the
 * `(gameweeks, scores)` series plotted for one player, read from the
 * `history` rows of a saved player file, kept only where the event is a
 * number and ordered by gameweek.
 */
module ScorePlot {
  import opened Wrappers
  import opened Collections

  /**
   * What Python's `int()` makes of a JSON value: `None` for `null` or an
   * absent key, a number it converts, or a value it rejects.
   */
  datatype Coercion = Null | Converts(n: int) | Fails

  /** One history row, as far as the plot reads it: `event` and `total_score`. */
  datatype Entry = Entry(event: Coercion, totalScore: Coercion)

  /** `(event_i, score_i)`. */
  type Row = (int, int)

  /** `score_i`: the converted score, or 0 when it is missing or `int()` rejects it. */
  function ScoreOf(c: Coercion): (r: int)
    ensures c.Converts? ==> r == c.n
    ensures !c.Converts? ==> r == 0
  {
    match c
    case Converts(n) => n
    case _ => 0
  }

  /** The row an entry contributes: none when the event is `null` or `int()` rejects it. */
  function RowOf(e: Entry): Option<Row> {
    match e.event
    case Null => None
    case Fails => None
    case Converts(n) => Some((n, ScoreOf(e.totalScore)))
  }

  /** `rows` after the loop over `history`. */
  function Rows(history: seq<Entry>): seq<Row> {
    if history == [] then []
    else
      var last := RowOf(history[|history| - 1]);
      Rows(history[..|history| - 1]) + (if last.Some? then [last.value] else [])
  }

  lemma RowsSnoc(history: seq<Entry>, i: int)
    requires 0 <= i < |history|
    ensures var last := RowOf(history[i]);
      Rows(history[..i + 1]) == Rows(history[..i]) + (if last.Some? then [last.value] else [])
  {
    assert history[..i + 1][..i] == history[..i];
  }

  /** `x` placed after every row at the end of `s` whose event is not greater than its own. */
  function Insert(s: seq<Row>, x: Row): seq<Row> {
    if s == [] || s[|s| - 1].0 <= x.0 then s + [x]
    else Insert(s[..|s| - 1], x) + [s[|s| - 1]]
  }

  /** `rows.sort(key=lambda x: x[0])`: Python's sort is stable; this reference sort is insertion sort. */
  function SortByEvent(rows: seq<Row>): seq<Row> {
    if rows == [] then []
    else Insert(SortByEvent(rows[..|rows| - 1]), rows[|rows| - 1])
  }

  predicate Ascending(s: seq<Row>) {
    forall i, j :: 0 <= i < j < |s| ==> s[i].0 <= s[j].0
  }

  function EventIs(e: int): Row -> bool {
    (r: Row) => r.0 == e
  }

  /** `extract_gameweek_scores(player)`, given `player.get("history", [])`. */
  method ExtractGameweekScores(history: Option<seq<Entry>>) returns (gameweeks: seq<int>, scores: seq<int>)
    ensures var sorted := SortByEvent(Rows(history.GetOr([])));
      && |gameweeks| == |sorted| && |scores| == |sorted|
      && forall i :: 0 <= i < |sorted| ==> gameweeks[i] == sorted[i].0 && scores[i] == sorted[i].1
  {
    var hs := history.GetOr([]);
    var rows: seq<Row> := [];
    for i := 0 to |hs|
      invariant rows == Rows(hs[..i])
    {
      RowsSnoc(hs, i);
      var entry := hs[i];
      if entry.event.Converts? {
        var eventI := entry.event.n;
        var scoreI := if entry.totalScore.Converts? then entry.totalScore.n else 0;
        rows := rows + [(eventI, scoreI)];
      }
    }
    assert hs[..|hs|] == hs;
    rows := SortByEvent(rows);
    if rows == [] {
      return [], [];
    }
    gameweeks := seq(|rows|, i requires 0 <= i < |rows| => rows[i].0);
    scores := seq(|rows|, i requires 0 <= i < |rows| => rows[i].1);
  }

  /**
   * The rows are exactly the entries with a convertible event, each paired
   * with its score or 0.
   */
  lemma {:induction false} RowsMembers(history: seq<Entry>)
    ensures forall r :: r in Rows(history) <==> exists i :: 0 <= i < |history| && RowOf(history[i]) == Some(r)
  {
    if history != [] {
      var init := history[..|history| - 1];
      RowsMembers(init);
      forall r | r in Rows(history) ensures exists i :: 0 <= i < |history| && RowOf(history[i]) == Some(r) {
        if r in Rows(init) {
          var i :| 0 <= i < |init| && RowOf(init[i]) == Some(r);
          assert history[i] == init[i];
        } else {
          assert RowOf(history[|history| - 1]) == Some(r);
        }
      }
      forall r, i | 0 <= i < |history| && RowOf(history[i]) == Some(r) ensures r in Rows(history) {
        if i < |init| {
          assert init[i] == history[i];
        }
      }
    }
  }

  lemma {:induction false} InsertPermutes(s: seq<Row>, x: Row)
    ensures multiset(Insert(s, x)) == multiset(s) + multiset{x}
  {
    if s != [] && s[|s| - 1].0 > x.0 {
      var init := s[..|s| - 1];
      InsertPermutes(init, x);
      assert s == init + [s[|s| - 1]];
    }
  }

  lemma {:induction false} InsertAscending(s: seq<Row>, x: Row)
    requires Ascending(s)
    ensures Ascending(Insert(s, x))
  {
    if s != [] && s[|s| - 1].0 > x.0 {
      var init := s[..|s| - 1];
      var last := s[|s| - 1];
      InsertAscending(init, x);
      InsertPermutes(init, x);
      var r := Insert(init, x);
      forall i | 0 <= i < |r| ensures r[i].0 <= last.0 {
        assert r[i] in multiset(r);
        if r[i] != x {
          assert r[i] in init;
        }
      }
    }
  }

  /** Rows with one event keep their relative order when inserting. */
  lemma {:induction false} InsertStable(s: seq<Row>, x: Row, e: int)
    ensures Filter(Insert(s, x), EventIs(e)) == Filter(s, EventIs(e)) + (if x.0 == e then [x] else [])
  {
    if s == [] || s[|s| - 1].0 <= x.0 {
      FilterSnoc(s, x, EventIs(e));
    } else {
      var init := s[..|s| - 1];
      var last := s[|s| - 1];
      InsertStable(init, x, e);
      FilterSnoc(Insert(init, x), last, EventIs(e));
      assert s == init + [last];
      FilterSnoc(init, last, EventIs(e));
    }
  }

  /** The sorted rows are in ascending order of event. */
  lemma {:induction false} SortAscending(rows: seq<Row>)
    ensures Ascending(SortByEvent(rows))
  {
    if rows != [] {
      SortAscending(rows[..|rows| - 1]);
      InsertAscending(SortByEvent(rows[..|rows| - 1]), rows[|rows| - 1]);
    }
  }

  /** Sorting neither drops nor adds a row. */
  lemma {:induction false} SortPermutes(rows: seq<Row>)
    ensures multiset(SortByEvent(rows)) == multiset(rows)
  {
    if rows != [] {
      var init := rows[..|rows| - 1];
      SortPermutes(init);
      InsertPermutes(SortByEvent(init), rows[|rows| - 1]);
      assert rows == init + [rows[|rows| - 1]];
    }
  }

  /** The sort is stable: the rows of any one event appear in history order. */
  lemma {:induction false} SortStable(rows: seq<Row>, e: int)
    ensures Filter(SortByEvent(rows), EventIs(e)) == Filter(rows, EventIs(e))
  {
    if rows != [] {
      var init := rows[..|rows| - 1];
      var last := rows[|rows| - 1];
      SortStable(init, e);
      InsertStable(SortByEvent(init), last, e);
      assert rows == init + [last];
      FilterSnoc(init, last, EventIs(e));
    }
  }

  /** With no convertible event the two series are empty. */
  lemma {:induction false} NoRowsNoSeries(history: seq<Entry>)
    requires forall i :: 0 <= i < |history| ==> !history[i].event.Converts?
    ensures Rows(history) == [] && SortByEvent(Rows(history)) == []
  {
    if history != [] {
      var init := history[..|history| - 1];
      assert forall i :: 0 <= i < |init| ==> init[i] == history[i];
      NoRowsNoSeries(init);
    }
  }
}
