/**
 * `build_fixtures_map` (src/myfpl/fixtures.py): the fixture list from the FPL
 * `fixtures` endpoint turned into a dictionary from fixture id to the few
 * fields the history commands read. Every JSON field is read with `.get`, so
 * it may be absent; absent and `null` are both `None`.
 */
module Fixtures {
  import opened Wrappers
  import opened Collections

  datatype Fixture = Fixture(
    id: Option<int>,
    event: Option<int>,
    kickoffTime: Option<string>,
    teamH: Option<int>,
    teamA: Option<int>)

  /** The value stored for one fixture: `event`, `kickoff_time`, `team_h`, `team_a`. */
  datatype FixtureInfo = FixtureInfo(
    event: Option<int>,
    kickoffTime: Option<string>,
    teamH: Option<int>,
    teamA: Option<int>)

  /**
   * `parse_kickoff(k) if k else None`. `parse_kickoff` (ISO-8601 through
   * `datetime`, falling back to its input) is the parameter `parseKickoff`.
   */
  function KickoffOf(raw: Option<string>, parseKickoff: string -> string): Option<string> {
    if raw.Some? && raw.value != "" then Some(parseKickoff(raw.value)) else None
  }

  /** The dictionary stored under `fx.get("id")`; both arms of each `team_*` conditional read the same field. */
  function InfoOf(fx: Fixture, parseKickoff: string -> string): FixtureInfo {
    FixtureInfo(fx.event, KickoffOf(fx.kickoffTime, parseKickoff), fx.teamH, fx.teamA)
  }

  /** The assignments `m[fx.get("id")] = ...`, in order. */
  function FixtureAssignments(fxs: seq<Fixture>, parseKickoff: string -> string): seq<(Option<int>, FixtureInfo)> {
    seq(|fxs|, i requires 0 <= i < |fxs| => (fxs[i].id, InfoOf(fxs[i], parseKickoff)))
  }

  /** `m` after the loop over `fixtures or []`. */
  function FixturesMap(fixtures: Option<seq<Fixture>>, parseKickoff: string -> string): map<Option<int>, FixtureInfo> {
    Assoc(FixtureAssignments(fixtures.GetOr([]), parseKickoff))
  }

  /** `build_fixtures_map(fixtures)`. */
  method BuildFixturesMap(fixtures: Option<seq<Fixture>>, parseKickoff: string -> string)
    returns (m: map<Option<int>, FixtureInfo>)
    ensures m == FixturesMap(fixtures, parseKickoff)
  {
    var fxs := fixtures.GetOr([]);
    ghost var pairs := FixtureAssignments(fxs, parseKickoff);
    m := map[];
    for i := 0 to |fxs|
      invariant m == Assoc(pairs[..i])
    {
      var fx := fxs[i];
      var kickoff := if fx.kickoffTime.Some? && fx.kickoffTime.value != "" then Some(parseKickoff(fx.kickoffTime.value)) else None;
      var info := FixtureInfo(fx.event, kickoff, fx.teamH, fx.teamA);
      assert pairs[..i + 1] == pairs[..i] + [(fx.id, info)];
      AssocSnoc(pairs[..i], fx.id, info);
      m := m[fx.id := info];
    }
    assert pairs[..|fxs|] == pairs;
  }

  /** The keys are exactly the fixture ids (a fixture without one is filed under `None`). */
  lemma FixturesMapKeys(fixtures: Option<seq<Fixture>>, parseKickoff: string -> string)
    ensures var fxs := fixtures.GetOr([]);
      forall id :: id in FixturesMap(fixtures, parseKickoff) <==> exists k :: 0 <= k < |fxs| && fxs[k].id == id
  {
    var fxs := fixtures.GetOr([]);
    var pairs := FixtureAssignments(fxs, parseKickoff);
    forall id | id in FixturesMap(fixtures, parseKickoff) ensures exists k :: 0 <= k < |fxs| && fxs[k].id == id {
      var k :| 0 <= k < |pairs| && pairs[k].0 == id;
      assert fxs[k].id == id;
    }
    forall id, k | 0 <= k < |fxs| && fxs[k].id == id ensures id in FixturesMap(fixtures, parseKickoff) {
      assert pairs[k].0 == id;
    }
  }

  /** No fixtures (`None` or an empty list) give an empty map, and only they do. */
  lemma FixturesMapEmpty(fixtures: Option<seq<Fixture>>, parseKickoff: string -> string)
    ensures FixturesMap(fixtures, parseKickoff) == map[] <==> fixtures.None? || fixtures.value == []
  {
    var fxs := fixtures.GetOr([]);
    if fxs != [] {
      assert FixtureAssignments(fxs, parseKickoff)[0].0 == fxs[0].id;
      assert fxs[0].id in FixturesMap(fixtures, parseKickoff);
    }
  }

  /**
   * The last fixture with an id decides its entry: its `event`, `team_h` and
   * `team_a` unchanged, and its kickoff parsed when it is non-empty, else
   * `None`.
   */
  lemma FixturesMapLast(fixtures: Option<seq<Fixture>>, parseKickoff: string -> string, k: int)
    requires var fxs := fixtures.GetOr([]);
      0 <= k < |fxs| && forall j :: k < j < |fxs| ==> fxs[j].id != fxs[k].id
    ensures var fx := fixtures.GetOr([])[k]; var m := FixturesMap(fixtures, parseKickoff);
      && fx.id in m
      && m[fx.id].event == fx.event
      && m[fx.id].teamH == fx.teamH
      && m[fx.id].teamA == fx.teamA
      && (fx.kickoffTime.None? || fx.kickoffTime == Some("") ==> m[fx.id].kickoffTime.None?)
      && (fx.kickoffTime.Some? && fx.kickoffTime.value != "" ==> m[fx.id].kickoffTime == Some(parseKickoff(fx.kickoffTime.value)))
  {
    var pairs := FixtureAssignments(fixtures.GetOr([]), parseKickoff);
    assert IsLastAssignment(pairs, k);
    AssocLastWins(pairs, k);
  }
}
