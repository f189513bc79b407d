/**
 * The lookup tables `build_position_map` and `build_team_map`
 * (src/myfpl/player.py and its copy player_data.py): one dictionary entry per
 * element type or team, filled by assignment in input order, so a later
 * duplicate id overwrites an earlier one.
 */
module Tables {
  import opened Wrappers
  import opened Collections
  import opened Bootstrap

  /** `et.get("singular_name") or et.get("singular_name_short")`. */
  function PositionName(et: ElementType): Option<string> {
    OrString(et.singularName, et.singularNameShort)
  }

  /** The assignments `pos_map[et["id"]] = ...`, in order. */
  function PositionAssignments(ets: seq<ElementType>): seq<(int, Option<string>)> {
    seq(|ets|, i requires 0 <= i < |ets| => (ets[i].id, PositionName(ets[i])))
  }

  /** `pos_map` after the loop. */
  function PositionMap(b: Snapshot): map<int, Option<string>> {
    Assoc(PositionAssignments(ElementTypesOf(b)))
  }

  /** `build_position_map(bootstrap)`. */
  method BuildPositionMap(b: Snapshot) returns (posMap: map<int, Option<string>>)
    ensures posMap == PositionMap(b)
  {
    var ets := ElementTypesOf(b);
    ghost var pairs := PositionAssignments(ets);
    posMap := map[];
    for i := 0 to |ets|
      invariant posMap == Assoc(pairs[..i])
    {
      var et := ets[i];
      assert pairs[..i + 1] == pairs[..i] + [(et.id, PositionName(et))];
      AssocSnoc(pairs[..i], et.id, PositionName(et));
      posMap := posMap[et.id := OrString(et.singularName, et.singularNameShort)];
    }
    assert pairs[..|ets|] == pairs;
  }

  /** The keys of `pos_map` are exactly the element type ids. */
  lemma PositionMapKeys(b: Snapshot)
    ensures forall id :: id in PositionMap(b) <==> exists k :: 0 <= k < |ElementTypesOf(b)| && ElementTypesOf(b)[k].id == id
  {
    var ets := ElementTypesOf(b);
    var pairs := PositionAssignments(ets);
    forall id | id in PositionMap(b) ensures exists k :: 0 <= k < |ets| && ets[k].id == id {
      var k :| 0 <= k < |pairs| && pairs[k].0 == id;
      assert ets[k].id == id;
    }
    forall id, k | 0 <= k < |ets| && ets[k].id == id ensures id in PositionMap(b) {
      assert pairs[k].0 == id;
    }
  }

  /**
   * The last element type with an id decides its entry: its `singular_name`
   * when that is present and non-empty, else its `singular_name_short`.
   */
  lemma PositionMapLast(b: Snapshot, k: int)
    requires IsLastElementType(ElementTypesOf(b), k)
    ensures var et := ElementTypesOf(b)[k]; var m := PositionMap(b);
      && et.id in m
      && (et.singularName.Some? && et.singularName.value != "" ==> m[et.id] == et.singularName)
      && (et.singularName.None? || et.singularName == Some("") ==> m[et.id] == et.singularNameShort)
  {
    var ets := ElementTypesOf(b);
    var pairs := PositionAssignments(ets);
    assert IsLastAssignment(pairs, k);
    AssocLastWins(pairs, k);
  }

  /** The record `build_team_map` stores per team: `id`, `name`, `short_name` and `code`, each as read. */
  datatype TeamRecord = TeamRecord(id: int, name: Option<string>, shortName: Option<string>, code: Option<int>)

  function RecordOf(t: Team): TeamRecord {
    TeamRecord(t.id, t.name, t.shortName, t.code)
  }

  /** The assignments `tm[t["id"]] = {...}`, in order. */
  function TeamAssignments(ts: seq<Team>): seq<(int, TeamRecord)> {
    seq(|ts|, i requires 0 <= i < |ts| => (ts[i].id, RecordOf(ts[i])))
  }

  /** `tm` after the loop. */
  function TeamMap(b: Snapshot): map<int, TeamRecord> {
    Assoc(TeamAssignments(TeamsOf(b)))
  }

  /** `build_team_map(bootstrap)`. */
  method BuildTeamMap(b: Snapshot) returns (tm: map<int, TeamRecord>)
    ensures tm == TeamMap(b)
  {
    var ts := TeamsOf(b);
    ghost var pairs := TeamAssignments(ts);
    tm := map[];
    for i := 0 to |ts|
      invariant tm == Assoc(pairs[..i])
    {
      var t := ts[i];
      assert pairs[..i + 1] == pairs[..i] + [(t.id, RecordOf(t))];
      AssocSnoc(pairs[..i], t.id, RecordOf(t));
      tm := tm[t.id := TeamRecord(t.id, t.name, t.shortName, t.code)];
    }
    assert pairs[..|ts|] == pairs;
  }

  /** Every team id is a key, there are no other keys, and every record carries its own key as `id`. */
  lemma TeamMapKeys(b: Snapshot)
    ensures forall id :: id in TeamMap(b) <==> exists k :: 0 <= k < |TeamsOf(b)| && TeamsOf(b)[k].id == id
    ensures forall id :: id in TeamMap(b) ==> TeamMap(b)[id].id == id
  {
    var ts := TeamsOf(b);
    var pairs := TeamAssignments(ts);
    forall id | id in TeamMap(b) ensures exists k :: 0 <= k < |ts| && ts[k].id == id {
      var k :| 0 <= k < |pairs| && pairs[k].0 == id;
      assert ts[k].id == id;
    }
    forall id, k | 0 <= k < |ts| && ts[k].id == id ensures id in TeamMap(b) {
      assert pairs[k].0 == id;
    }
    forall id | id in TeamMap(b) ensures TeamMap(b)[id].id == id {
      var k :| 0 <= k < |pairs| && pairs[k].0 == id;
      var j := LastWith(pairs, k);
      AssocLastWins(pairs, j);
    }
  }

  /** The last team with an id decides its record: that team's id, name, short name and code. */
  lemma TeamMapLast(b: Snapshot, k: int)
    requires IsLastTeam(TeamsOf(b), k)
    ensures var t := TeamsOf(b)[k];
      t.id in TeamMap(b) && TeamMap(b)[t.id] == TeamRecord(t.id, t.name, t.shortName, t.code)
  {
    var pairs := TeamAssignments(TeamsOf(b));
    assert IsLastAssignment(pairs, k);
    AssocLastWins(pairs, k);
  }
}
