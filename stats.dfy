/**
 * `_extract_gameweek_stats` (src/myfpl/player.py): the rows of an
 * `element-summary` history turned into per-gameweek stats. JSON numbers are
 * integers here and an absent or `null` field is `None`; Python's `or` treats
 * `None` and `0` as false.
 */
module GameweekStats {
  import opened Wrappers
  import opened Fixtures

  datatype HistoryRow = HistoryRow(
    round: Option<int>,
    event: Option<int>,
    fixture: Option<int>,
    totalPoints: Option<int>,
    eventPoints: Option<int>,
    points: Option<int>,
    total: Option<int>,
    goalsScored: Option<int>,
    assists: Option<int>,
    yellowCards: Option<int>,
    redCards: Option<int>,
    goalsConceded: Option<int>)

  /** One item of the result. */
  datatype Stats = Stats(
    event: Option<int>,
    goals: int,
    assists: int,
    yellowCards: int,
    redCards: int,
    goalsConceded: int,
    totalScore: int)

  predicate Truthy(x: Option<int>) { x.Some? && x.value != 0 }

  /** `a or b`. */
  function OrInt(a: Option<int>, b: Option<int>): Option<int> {
    if Truthy(a) then a else b
  }

  /** `x or 0`: the value when present, else 0 (a present 0 gives 0 either way). */
  function OrZero(x: Option<int>): (r: int)
    ensures x.Some? ==> r == x.value
    ensures x.None? ==> r == 0
  {
    if Truthy(x) then x.value else 0
  }

  /** `ev`: `round or event`, replaced by the fixture's `event` when the fixture id is truthy and in the map. */
  function EventOf(h: HistoryRow, fixturesMap: map<Option<int>, FixtureInfo>): Option<int> {
    if Truthy(h.fixture) && fixturesMap != map[] && h.fixture in fixturesMap then fixturesMap[h.fixture].event
    else OrInt(h.round, h.event)
  }

  /** The score fields in the order they are tried. */
  function ScoreFields(h: HistoryRow): seq<Option<int>> {
    [h.totalPoints, h.eventPoints, h.points, h.total]
  }

  /** `total_points or event_points or points or total or 0`. */
  function TotalScore(h: HistoryRow): int {
    OrZero(OrInt(h.totalPoints, OrInt(h.eventPoints, OrInt(h.points, h.total))))
  }

  /** The item built from one history row. */
  function StatsOf(h: HistoryRow, fixturesMap: map<Option<int>, FixtureInfo>): Stats {
    Stats(
      EventOf(h, fixturesMap),
      OrZero(h.goalsScored),
      OrZero(h.assists),
      OrZero(h.yellowCards),
      OrZero(h.redCards),
      OrZero(h.goalsConceded),
      TotalScore(h))
  }

  /** `_extract_gameweek_stats(history, fixtures_map)`: one item per row of `history or []`, in order. */
  method ExtractGameweekStats(history: Option<seq<HistoryRow>>, fixturesMap: Option<map<Option<int>, FixtureInfo>>)
    returns (out: seq<Stats>)
    ensures var hs := history.GetOr([]);
      |out| == |hs| && forall i :: 0 <= i < |hs| ==> out[i] == StatsOf(hs[i], fixturesMap.GetOr(map[]))
  {
    var fm := fixturesMap.GetOr(map[]);
    var hs := history.GetOr([]);
    out := [];
    for i := 0 to |hs|
      invariant |out| == i
      invariant forall j :: 0 <= j < i ==> out[j] == StatsOf(hs[j], fm)
    {
      var h := hs[i];
      var ev := OrInt(h.round, h.event);
      if Truthy(h.fixture) && fm != map[] && h.fixture in fm {
        ev := fm[h.fixture].event;
      }
      var item := Stats(
        ev,
        OrZero(h.goalsScored),
        OrZero(h.assists),
        OrZero(h.yellowCards),
        OrZero(h.redCards),
        OrZero(h.goalsConceded),
        TotalScore(h));
      out := out + [item];
    }
  }

  /**
   * The event comes from the fixture map when the row's fixture id is
   * truthy and a key of it, else from `round` when that is truthy, else from
   * `event`.
   */
  lemma EventResolution(h: HistoryRow, fixturesMap: map<Option<int>, FixtureInfo>)
    ensures Truthy(h.fixture) && h.fixture in fixturesMap ==> EventOf(h, fixturesMap) == fixturesMap[h.fixture].event
    ensures !(Truthy(h.fixture) && h.fixture in fixturesMap) && Truthy(h.round) ==> EventOf(h, fixturesMap) == h.round
    ensures !(Truthy(h.fixture) && h.fixture in fixturesMap) && !Truthy(h.round) ==> EventOf(h, fixturesMap) == h.event
  {
    // The source's `fixtures_map and` test adds nothing: a map with the key is not empty.
  }

  /**
   * Against a map built by `build_fixtures_map`: the event is the one of
   * the last fixture with the row's (truthy) fixture id.
   */
  lemma EventFromFixtures(h: HistoryRow, fixtures: Option<seq<Fixture>>, parseKickoff: string -> string, k: int)
    requires var fxs := fixtures.GetOr([]);
      0 <= k < |fxs| && forall j :: k < j < |fxs| ==> fxs[j].id != fxs[k].id
    requires Truthy(h.fixture) && h.fixture == fixtures.GetOr([])[k].id
    ensures EventOf(h, FixturesMap(fixtures, parseKickoff)) == fixtures.GetOr([])[k].event
  {
    FixturesMapLast(fixtures, parseKickoff, k);
    EventResolution(h, FixturesMap(fixtures, parseKickoff));
  }

  /**
   * `total_score` is the first truthy field among `total_points`,
   * `event_points`, `points` and `total`, or 0 when none is truthy.
   */
  lemma TotalScoreMeaning(h: HistoryRow)
    ensures var fs := ScoreFields(h);
      forall k :: 0 <= k < |fs| && Truthy(fs[k]) && (forall j :: 0 <= j < k ==> !Truthy(fs[j])) ==> TotalScore(h) == fs[k].value
    ensures (forall f :: f in ScoreFields(h) ==> !Truthy(f)) ==> TotalScore(h) == 0
  {
    var fs := ScoreFields(h);
    forall k | 0 <= k < |fs| && Truthy(fs[k]) && (forall j :: 0 <= j < k ==> !Truthy(fs[j]))
      ensures TotalScore(h) == fs[k].value
    {
      if k > 0 { assert !Truthy(fs[0]); }
      if k > 1 { assert !Truthy(fs[1]); }
      if k > 2 { assert !Truthy(fs[2]); }
    }
    if forall f :: f in fs ==> !Truthy(f) {
      assert !Truthy(fs[0]) && !Truthy(fs[1]) && !Truthy(fs[2]) && !Truthy(fs[3]);
    }
  }
}
