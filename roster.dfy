/**
 * The FPL `bootstrap-static` snapshot as the engine reads it, and the flat
 * player records `build_players_index` (src/myfpl/validate.py) makes of it.
 *
 * A JSON field that may be absent or `null` is an `Option`; a collection that
 * may be absent is an `Option<seq<...>>`, read with `.get(..., [])`.
 */
module Bootstrap {
  import opened Wrappers

  datatype ElementType = ElementType(
    id: int,
    singularName: Option<string>,
    singularNameShort: Option<string>)

  datatype Team = Team(
    id: int,
    name: Option<string>,
    shortName: Option<string>,
    code: Option<int>)

  /** `now_cost`: an integer number of tenths of a million, or anything that is not a number (absent, `null`, text). */
  datatype Cost = Tenths(tenths: int) | NotNumeric

  datatype Element = Element(
    id: int,
    webName: Option<string>,
    firstName: Option<string>,
    secondName: Option<string>,
    elementType: Option<int>,
    nowCost: Cost,
    team: Option<int>)

  datatype Snapshot = Snapshot(
    elementTypes: Option<seq<ElementType>>,
    teams: Option<seq<Team>>,
    elements: Option<seq<Element>>)

  /** `ets[k]` is the last element type with its id. */
  ghost predicate IsLastElementType(ets: seq<ElementType>, k: int) {
    0 <= k < |ets| && forall j :: k < j < |ets| ==> ets[j].id != ets[k].id
  }

  /** `ts[k]` is the last team with its id. */
  ghost predicate IsLastTeam(ts: seq<Team>, k: int) {
    0 <= k < |ts| && forall j :: k < j < |ts| ==> ts[j].id != ts[k].id
  }

  function ElementTypesOf(b: Snapshot): seq<ElementType> { b.elementTypes.GetOr([]) }
  function TeamsOf(b: Snapshot): seq<Team> { b.teams.GetOr([]) }
  function ElementsOf(b: Snapshot): seq<Element> { b.elements.GetOr([]) }

  /** Python's `a or b` on two optional strings: `a` unless it is `None` or empty. */
  function OrString(a: Option<string>, b: Option<string>): (r: Option<string>)
    ensures a.Some? && a.value != "" ==> r == a
    ensures (a.None? || a.value == "") ==> r == b
  {
    if a.Some? && a.value != "" then a else b
  }
}

module Roster {
  import opened Wrappers
  import opened Text
  import opened Names
  import opened Collections
  import opened Bootstrap

  /**
   * One record of `build_players_index`. A `name`, `short_name` or
   * `singular_name_short` that is `null` is kept as `""`: every reader of the
   * record (`normalize`, `or ""`, `or "UNKNOWN"`) treats the two alike. The
   * cached normalised names are functions of the record's other fields.
   */
  datatype Player = Player(
    id: int,
    webName: Option<string>,
    firstName: string,
    secondName: string,
    nowCost: Cost,
    position: string,
    teamId: Option<int>,
    teamName: string,
    teamShort: string,
    teamCode: Option<int>)
  {
    /** `norm_web`: the normalised web name, `""` when there is none. */
    function NormWeb(): string { NormalizeOpt(webName) }

    /** `norm_full`: the normalised `"first second"`, stripped first. */
    function NormFull(): string { Normalize(Strip(firstName + " " + secondName)) }

    /** `norm_second`: the normalised second name. */
    function NormSecond(): string { Normalize(secondName) }
  }

  /** The team fields a player record copies. */
  datatype TeamFields = TeamFields(name: string, shortName: string, code: Option<int>)

  /** `et_map`: element type id to `singular_name_short`, the last type with an id winning. */
  function PositionTable(b: Snapshot): map<int, string> {
    var ets := ElementTypesOf(b);
    Assoc(seq(|ets|, i requires 0 <= i < |ets| => (ets[i].id, ets[i].singularNameShort.GetOr(""))))
  }

  /** `team_map`: team id to its name, short name and code, the last team with an id winning. */
  function TeamTable(b: Snapshot): map<int, TeamFields> {
    var ts := TeamsOf(b);
    Assoc(seq(|ts|, i requires 0 <= i < |ts| => (ts[i].id, TeamFields(ts[i].name.GetOr(""), ts[i].shortName.GetOr(""), ts[i].code))))
  }

  /** `et_map.get(el.get("element_type"), "")`. */
  function PositionOf(elementType: Option<int>, positions: map<int, string>): string {
    if elementType.Some? && elementType.value in positions then positions[elementType.value] else ""
  }

  /** `team_map.get(el.get("team"), {})`, with each field read with default `""`. */
  function TeamFieldsOf(team: Option<int>, teams: map<int, TeamFields>): TeamFields {
    if team.Some? && team.value in teams then teams[team.value] else TeamFields("", "", None)
  }

  /** The record made of one element. */
  function PlayerOf(el: Element, positions: map<int, string>, teams: map<int, TeamFields>): Player {
    var first := el.firstName.GetOr("");
    var second := el.secondName.GetOr("");
    var tf := TeamFieldsOf(el.team, teams);
    Player(el.id, el.webName, first, second, el.nowCost, PositionOf(el.elementType, positions), el.team,
           tf.name, tf.shortName, tf.code)
  }

  /** The records made of a list of elements, one per element, in order. */
  function PlayersOf(els: seq<Element>, positions: map<int, string>, teams: map<int, TeamFields>): (r: seq<Player>)
    ensures |r| == |els|
    ensures forall i :: 0 <= i < |els| ==> r[i] == PlayerOf(els[i], positions, teams)
  {
    if els == [] then []
    else PlayersOf(els[..|els| - 1], positions, teams) + [PlayerOf(els[|els| - 1], positions, teams)]
  }

  /** The records `build_players_index` is built to return. */
  function PlayersIndex(b: Snapshot): seq<Player> {
    PlayersOf(ElementsOf(b), PositionTable(b), TeamTable(b))
  }

  /** `build_players_index`: one record per element, in input order. */
  method BuildPlayersIndex(b: Snapshot) returns (players: seq<Player>)
    ensures players == PlayersIndex(b)
  {
    var positions := PositionTable(b);
    var teams := TeamTable(b);
    var els := ElementsOf(b);
    players := [];
    for i := 0 to |els|
      invariant players == PlayersOf(els[..i], positions, teams)
    {
      assert els[..i + 1][..i] == els[..i];
      players := players + [PlayerOf(els[i], positions, teams)];
    }
    assert els[..|els|] == els;
  }

  /** Absent collections give no records. */
  lemma EmptySnapshot(b: Snapshot)
    requires b.elements.None? || b.elements == Some([])
    ensures PlayersIndex(b) == []
  {
  }

  /**
   * What a record holds of its element: its id and names; its position is the
   * short name of the last element type with the element's type id, or `""`
   * when there is none; its team fields are those of the last team with the
   * element's team id, or empty when there is none; its cached names are normal.
   */
  lemma PlayerOfFields(b: Snapshot, i: int)
    requires 0 <= i < |ElementsOf(b)|
    ensures var p := PlayersIndex(b)[i]; var el := ElementsOf(b)[i];
      && p.id == el.id && p.webName == el.webName && p.teamId == el.team
      && (forall k :: IsLastElementType(ElementTypesOf(b), k) && el.elementType == Some(ElementTypesOf(b)[k].id)
            ==> p.position == ElementTypesOf(b)[k].singularNameShort.GetOr(""))
      && (forall k :: IsLastTeam(TeamsOf(b), k) && el.team == Some(TeamsOf(b)[k].id)
            ==> p.teamName == TeamsOf(b)[k].name.GetOr("") && p.teamShort == TeamsOf(b)[k].shortName.GetOr("")
                && p.teamCode == TeamsOf(b)[k].code)
      && ((forall k :: 0 <= k < |ElementTypesOf(b)| ==> el.elementType != Some(ElementTypesOf(b)[k].id)) ==> p.position == "")
      && ((forall k :: 0 <= k < |TeamsOf(b)| ==> el.team != Some(TeamsOf(b)[k].id))
            ==> p.teamName == "" && p.teamShort == "" && p.teamCode == None)
      && IsNormal(p.NormWeb()) && IsNormal(p.NormFull()) && IsNormal(p.NormSecond())
  {
    RecordPosition(b, i);
    RecordTeam(b, i);
    RecordNames(b, i);
  }

  lemma RecordPosition(b: Snapshot, i: int)
    requires 0 <= i < |ElementsOf(b)|
    ensures var p := PlayersIndex(b)[i]; var el := ElementsOf(b)[i];
      && (forall k :: IsLastElementType(ElementTypesOf(b), k) && el.elementType == Some(ElementTypesOf(b)[k].id)
            ==> p.position == ElementTypesOf(b)[k].singularNameShort.GetOr(""))
      && ((forall k :: 0 <= k < |ElementTypesOf(b)| ==> el.elementType != Some(ElementTypesOf(b)[k].id)) ==> p.position == "")
  {
    var el := ElementsOf(b)[i];
    var ets := ElementTypesOf(b);
    assert PlayersIndex(b)[i].position == PositionOf(el.elementType, PositionTable(b));
    forall k | IsLastElementType(ets, k) ensures ets[k].id in PositionTable(b) && PositionTable(b)[ets[k].id] == ets[k].singularNameShort.GetOr("") {
      PositionTableLast(b, k);
    }
    if el.elementType.Some? && forall k :: 0 <= k < |ets| ==> el.elementType != Some(ets[k].id) {
      PositionTableAbsent(b, el.elementType.value);
    }
  }

  lemma RecordTeam(b: Snapshot, i: int)
    requires 0 <= i < |ElementsOf(b)|
    ensures var p := PlayersIndex(b)[i]; var el := ElementsOf(b)[i];
      && p.id == el.id && p.webName == el.webName && p.teamId == el.team
      && (forall k :: IsLastTeam(TeamsOf(b), k) && el.team == Some(TeamsOf(b)[k].id)
            ==> p.teamName == TeamsOf(b)[k].name.GetOr("") && p.teamShort == TeamsOf(b)[k].shortName.GetOr("")
                && p.teamCode == TeamsOf(b)[k].code)
      && ((forall k :: 0 <= k < |TeamsOf(b)| ==> el.team != Some(TeamsOf(b)[k].id))
            ==> p.teamName == "" && p.teamShort == "" && p.teamCode == None)
  {
    var el := ElementsOf(b)[i];
    var ts := TeamsOf(b);
    assert PlayersIndex(b)[i] == PlayerOf(el, PositionTable(b), TeamTable(b));
    forall k | IsLastTeam(ts, k)
      ensures ts[k].id in TeamTable(b) && TeamTable(b)[ts[k].id] == TeamFields(ts[k].name.GetOr(""), ts[k].shortName.GetOr(""), ts[k].code)
    {
      TeamTableLast(b, k);
    }
    if el.team.Some? && forall k :: 0 <= k < |ts| ==> el.team != Some(ts[k].id) {
      TeamTableAbsent(b, el.team.value);
    }
  }

  lemma RecordNames(b: Snapshot, i: int)
    requires 0 <= i < |ElementsOf(b)|
    ensures var p := PlayersIndex(b)[i];
      IsNormal(p.NormWeb()) && IsNormal(p.NormFull()) && IsNormal(p.NormSecond())
  {
    var el := ElementsOf(b)[i];
    assert PlayersIndex(b)[i] == PlayerOf(el, PositionTable(b), TeamTable(b));
    NormalizeIsNormal(el.webName.GetOr(""));
    NormalizeIsNormal(Strip(el.firstName.GetOr("") + " " + el.secondName.GetOr("")));
    NormalizeIsNormal(el.secondName.GetOr(""));
    assert IsNormal(NormalizeOpt(el.webName)) by {
      if el.webName.None? {
        assert NormalizeOpt(el.webName) == "";
      }
    }
  }

  /** An id no element type has is not a key of `et_map`. */
  lemma PositionTableAbsent(b: Snapshot, id: int)
    requires forall k :: 0 <= k < |ElementTypesOf(b)| ==> ElementTypesOf(b)[k].id != id
    ensures id !in PositionTable(b)
  {
    var ets := ElementTypesOf(b);
    var pairs := seq(|ets|, j requires 0 <= j < |ets| => (ets[j].id, ets[j].singularNameShort.GetOr("")));
    assert forall j :: 0 <= j < |pairs| ==> pairs[j].0 != id;
    assert id !in AssignedKeys(pairs);
  }

  /** An id no team has is not a key of `team_map`. */
  lemma TeamTableAbsent(b: Snapshot, id: int)
    requires forall k :: 0 <= k < |TeamsOf(b)| ==> TeamsOf(b)[k].id != id
    ensures id !in TeamTable(b)
  {
    var ts := TeamsOf(b);
    var pairs := seq(|ts|, j requires 0 <= j < |ts| => (ts[j].id, TeamFields(ts[j].name.GetOr(""), ts[j].shortName.GetOr(""), ts[j].code)));
    assert forall j :: 0 <= j < |pairs| ==> pairs[j].0 != id;
    assert id !in AssignedKeys(pairs);
  }

  /** The last element type with an id gives `et_map` its entry for that id. */
  lemma PositionTableLast(b: Snapshot, k: int)
    requires IsLastElementType(ElementTypesOf(b), k)
    ensures var et := ElementTypesOf(b)[k]; et.id in PositionTable(b) && PositionTable(b)[et.id] == et.singularNameShort.GetOr("")
  {
    var ets := ElementTypesOf(b);
    var pairs := seq(|ets|, j requires 0 <= j < |ets| => (ets[j].id, ets[j].singularNameShort.GetOr("")));
    assert IsLastAssignment(pairs, k);
    AssocLastWins(pairs, k);
  }

  /** The last team with an id gives `team_map` its entry for that id. */
  lemma TeamTableLast(b: Snapshot, k: int)
    requires IsLastTeam(TeamsOf(b), k)
    ensures var t := TeamsOf(b)[k];
      t.id in TeamTable(b) && TeamTable(b)[t.id] == TeamFields(t.name.GetOr(""), t.shortName.GetOr(""), t.code)
  {
    var ts := TeamsOf(b);
    var pairs := seq(|ts|, j requires 0 <= j < |ts| => (ts[j].id, TeamFields(ts[j].name.GetOr(""), ts[j].shortName.GetOr(""), ts[j].code)));
    assert IsLastAssignment(pairs, k);
    AssocLastWins(pairs, k);
  }
}
