/**
 * The two squad passes of src/myfpl/validate.py: sorting each input line
 * into missing, ambiguous or validated (the loop in `main`), and the FPL
 * squad rules (`validate_rules`, lifted out of `main`). Prices and the budget
 * are integer tenths of a million.
 */
module Squad {
  import opened Wrappers
  import opened Names
  import opened Collections
  import opened Bootstrap
  import opened Roster
  import opened Matcher

  /** One validated line: name as typed, position, price, player id, team id, team name. */
  datatype Entry = Entry(
    name: string,
    position: string,
    price: int,
    playerId: int,
    teamId: Option<int>,
    teamName: string)

  datatype Outcome = Outcome(
    missing: seq<string>,
    ambiguous: seq<(string, seq<string>)>,
    validated: seq<Entry>)

  /** The f-string value of a possibly missing web name: `None` prints as "None". */
  function WebNameText(w: Option<string>): string {
    match w
    case None => "None"
    case Some(s) => s
  }

  /** `f"{first_name} {second_name} ({web_name})"`, how an ambiguous option is shown. */
  function Describe(p: Player): string {
    p.firstName + " " + p.secondName + " (" + WebNameText(p.webName) + ")"
  }

  function Descriptions(ms: seq<Player>): (r: seq<string>)
    ensures |r| == |ms|
    ensures forall i :: 0 <= i < |ms| ==> r[i] == Describe(ms[i])
  {
    if ms == [] then [] else Descriptions(ms[..|ms| - 1]) + [Describe(ms[|ms| - 1])]
  }

  /** The price of a validated player: `now_cost` in tenths when it is a number, else 0. */
  function Price(c: Cost): int {
    match c
    case Tenths(t) => t
    case NotNumeric => 0
  }

  /** The entry of a line that matched exactly one player; an empty position becomes "UNKNOWN". */
  function EntryOf(candidate: string, p: Player): Entry {
    Entry(candidate, if p.position == "" then "UNKNOWN" else p.position, Price(p.nowCost), p.id, p.teamId, p.teamName)
  }

  /** The players `match_candidate_with_team` returns for one input line. */
  function LineMatches(line: string, players: seq<Player>): seq<Player> {
    var parsed := ParseInputLine(line);
    NarrowByTeam(Filter(players, MatchesName(Normalize(parsed.0))), parsed.1)
  }

  /** One step of the loop: where a candidate with these matches goes. */
  function ClassifyStep(o: Outcome, candidate: string, matches: seq<Player>): Outcome {
    if |matches| == 0 then o.(missing := o.missing + [candidate])
    else if |matches| > 1 then o.(ambiguous := o.ambiguous + [(candidate, Descriptions(matches))])
    else o.(validated := o.validated + [EntryOf(candidate, matches[0])])
  }

  /** A line read: its candidate name and the players it matched. */
  datatype Resolution = Resolution(candidate: string, matches: seq<Player>)

  function ResolveLine(line: string, players: seq<Player>): Resolution {
    Resolution(ParseInputLine(line).0, LineMatches(line, players))
  }

  /** Each line read by `resolve`, in order. */
  function ResolveEach(lines: seq<string>, resolve: string -> Resolution): seq<Resolution> {
    seq(|lines|, i requires 0 <= i < |lines| => resolve(lines[i]))
  }

  lemma ResolveEachSnoc(lines: seq<string>, resolve: string -> Resolution, i: int)
    requires 0 <= i < |lines|
    ensures ResolveEach(lines[..i + 1], resolve) == ResolveEach(lines[..i], resolve) + [resolve(lines[i])]
  {
  }

  /** `ResolveLine` against a fixed roster, as a value. */
  function LineResolver(players: seq<Player>): string -> Resolution {
    line => ResolveLine(line, players)
  }

  /** Every line read, in order. */
  function Resolve(lines: seq<string>, players: seq<Player>): seq<Resolution> {
    ResolveEach(lines, LineResolver(players))
  }

  /** The three lists after the loop has placed each resolved line in turn. */
  function ClassifyAll(rs: seq<Resolution>): Outcome {
    if rs == [] then Outcome([], [], [])
    else
      var r := rs[|rs| - 1];
      ClassifyStep(ClassifyAll(rs[..|rs| - 1]), r.candidate, r.matches)
  }

  lemma ClassifyAllSnoc(rs: seq<Resolution>, r: Resolution)
    ensures ClassifyAll(rs + [r]) == ClassifyStep(ClassifyAll(rs), r.candidate, r.matches)
  {
    assert (rs + [r])[..|rs|] == rs;
  }

  /** The three lists after the loop has read `lines`. */
  function Classify(lines: seq<string>, players: seq<Player>): Outcome {
    ClassifyAll(Resolve(lines, players))
  }

  /** The classification loop of `main`. */
  method ClassifyLines(lines: seq<string>, players: seq<Player>)
    returns (missing: seq<string>, ambiguous: seq<(string, seq<string>)>, validated: seq<Entry>)
    ensures Outcome(missing, ambiguous, validated) == Classify(lines, players)
  {
    missing, ambiguous, validated := [], [], [];
    for i := 0 to |lines|
      invariant Outcome(missing, ambiguous, validated) == ClassifyAll(Resolve(lines[..i], players))
    {
      var rawLine := lines[i];
      ResolveEachSnoc(lines, LineResolver(players), i);
      var candidate, hint := ParseInputLine(rawLine).0, ParseInputLine(rawLine).1;
      var matches := MatchCandidateWithTeam(candidate, hint, players);
      ClassifyAllSnoc(Resolve(lines[..i], players), Resolution(candidate, matches));
      if |matches| == 0 {
        missing := missing + [candidate];
      } else if |matches| > 1 {
        ambiguous := ambiguous + [(candidate, Descriptions(matches))];
      } else {
        var p := matches[0];
        validated := validated + [EntryOf(candidate, p)];
      }
    }
    assert lines[..|lines|] == lines;
  }

  /** How many matches a line gets, as a kind: none, exactly one, or several. */
  datatype Kind = NoMatch | Unique | Several

  function KindOf(r: Resolution): Kind {
    if |r.matches| == 0 then NoMatch else if |r.matches| == 1 then Unique else Several
  }

  function CountKind(rs: seq<Resolution>, k: Kind): nat {
    if rs == [] then 0
    else CountKind(rs[..|rs| - 1], k) + (if KindOf(rs[|rs| - 1]) == k then 1 else 0)
  }

  /**
   * Every line lands in exactly one list: the missing list holds the lines
   * with no match, the ambiguous list those with several and the validated
   * list those with exactly one; every validated entry has a position.
   */
  lemma {:induction false} ClassifyPartition(lines: seq<string>, players: seq<Player>)
    ensures var o := Classify(lines, players); var rs := Resolve(lines, players);
      && |o.missing| == CountKind(rs, NoMatch)
      && |o.ambiguous| == CountKind(rs, Several)
      && |o.validated| == CountKind(rs, Unique)
      && |o.missing| + |o.ambiguous| + |o.validated| == |lines|
      && forall e :: e in o.validated ==> e.position != ""
  {
    PartitionAll(Resolve(lines, players));
  }

  lemma {:induction false} PartitionAll(rs: seq<Resolution>)
    ensures var o := ClassifyAll(rs);
      && |o.missing| == CountKind(rs, NoMatch)
      && |o.ambiguous| == CountKind(rs, Several)
      && |o.validated| == CountKind(rs, Unique)
      && |o.missing| + |o.ambiguous| + |o.validated| == |rs|
      && forall e :: e in o.validated ==> e.position != ""
  {
    if rs != [] {
      PartitionAll(rs[..|rs| - 1]);
    }
  }

  /** With no missing or ambiguous resolution, entry `i` is resolution `i`'s single match. */
  lemma {:induction false} AllResolved(rs: seq<Resolution>)
    requires ClassifyAll(rs).missing == [] && ClassifyAll(rs).ambiguous == []
    ensures var v := ClassifyAll(rs).validated;
      && |v| == |rs|
      && forall i :: 0 <= i < |rs| ==>
           |rs[i].matches| == 1 && v[i] == EntryOf(rs[i].candidate, rs[i].matches[0])
  {
    if rs != [] {
      var init := rs[..|rs| - 1];
      var o := ClassifyAll(init);
      var r := rs[|rs| - 1];
      assert |r.matches| == 1;
      AllResolved(init);
      forall i | 0 <= i < |rs| - 1 ensures rs[i] == init[i] {
      }
    }
  }

  /**
   * When no line is missing or ambiguous, entry `i` is line `i`'s candidate
   * name with its single match.
   */
  lemma ClassifyAllResolved(lines: seq<string>, players: seq<Player>, i: int)
    requires Classify(lines, players).missing == [] && Classify(lines, players).ambiguous == []
    requires 0 <= i < |lines|
    ensures var v := Classify(lines, players).validated;
      && |v| == |lines|
      && |LineMatches(lines[i], players)| == 1
      && v[i] == EntryOf(ParseInputLine(lines[i]).0, LineMatches(lines[i], players)[0])
  {
    var rs := Resolve(lines, players);
    AllResolved(rs);
    assert rs[i] == ResolveLine(lines[i], players);
  }

  // ---------------------------------------------------------------- rules

  datatype Violation =
    | SquadSize(found: int)
    | PositionCount(position: string, expected: int, found: int)
    | ClubLimit(teamId: int, count: int)
    | OverBudget(total: int, budget: int)

  datatype Summary = Summary(
    totalPlayers: int,
    totalCost: int,
    counts: map<string, int>,
    clubOrder: seq<int>,
    clubCounts: map<int, int>)

  datatype Report = Report(summary: Summary, violations: seq<Violation>)

  /** The required number of players per position, in the order they are checked. */
  const Expected: seq<(string, int)> := [("GK", 2), ("DEF", 5), ("MID", 5), ("FWD", 3)]

  const SquadSizeRequired := 15
  const ClubMaximum := 3

  /** The position counters before any entry is counted. */
  function InitialCounts(): map<string, int> {
    map["GK" := 0, "DEF" := 0, "MID" := 0, "FWD" := 0, "UNKNOWN" := 0]
  }

  function CountPosition(es: seq<Entry>, pos: string): nat {
    if es == [] then 0
    else CountPosition(es[..|es| - 1], pos) + (if es[|es| - 1].position == pos then 1 else 0)
  }

  /** `sum((p[2] or 0.0) for p in validated_list)`. */
  function TotalCost(es: seq<Entry>): int {
    if es == [] then 0 else TotalCost(es[..|es| - 1]) + es[|es| - 1].price
  }

  /** The number of entries whose team id is `t`; entries without a team count for no club. */
  function ClubCount(es: seq<Entry>, t: int): nat {
    if es == [] then 0
    else ClubCount(es[..|es| - 1], t) + (if es[|es| - 1].teamId == Some(t) then 1 else 0)
  }

  /** The clubs of the entries in order of first appearance: the insertion order of `club_counts`. */
  function ClubOrder(es: seq<Entry>): seq<int> {
    if es == [] then []
    else
      var order := ClubOrder(es[..|es| - 1]);
      var last := es[|es| - 1];
      if last.teamId.Some? && last.teamId.value !in order then order + [last.teamId.value] else order
  }

  function PositionsOf(es: seq<Entry>): set<string> {
    set i | 0 <= i < |es| :: es[i].position
  }

  function PositionViolations(es: seq<Entry>, expected: seq<(string, int)>): seq<Violation> {
    if expected == [] then []
    else
      var (k, v) := expected[|expected| - 1];
      PositionViolations(es, expected[..|expected| - 1])
        + (if CountPosition(es, k) != v then [PositionCount(k, v, CountPosition(es, k))] else [])
  }

  function ClubViolations(es: seq<Entry>, order: seq<int>): seq<Violation> {
    if order == [] then []
    else
      var t := order[|order| - 1];
      ClubViolations(es, order[..|order| - 1]) + (if ClubCount(es, t) > ClubMaximum then [ClubLimit(t, ClubCount(es, t))] else [])
  }

  /** The violations `validate_rules` reports, in the order it appends them. */
  function Violations(es: seq<Entry>, budget: int): seq<Violation> {
    (if |es| != SquadSizeRequired then [SquadSize(|es|)] else [])
      + PositionViolations(es, Expected)
      + ClubViolations(es, ClubOrder(es))
      + (if TotalCost(es) > budget then [OverBudget(TotalCost(es), budget)] else [])
  }

  /** `validate_rules(validated_list, budget)`. */
  method ValidateRules(es: seq<Entry>, budget: int) returns (report: Report)
    ensures report.summary.totalPlayers == |es|
    ensures report.summary.totalCost == TotalCost(es)
    ensures report.summary.counts.Keys == InitialCounts().Keys + PositionsOf(es)
    ensures forall k :: k in report.summary.counts ==> report.summary.counts[k] == CountPosition(es, k)
    ensures report.summary.clubOrder == ClubOrder(es)
    ensures forall t :: t in report.summary.clubCounts <==> t in ClubOrder(es)
    ensures forall t :: t in report.summary.clubCounts ==> report.summary.clubCounts[t] == ClubCount(es, t)
    ensures report.violations == Violations(es, budget)
  {
    var totalCost := SumPrices(es);
    var counts, clubOrder, clubCounts := Tally(es);
    var sizePart: seq<Violation> := if |es| != SquadSizeRequired then [SquadSize(|es|)] else [];
    var positionPart := CheckPositions(es, counts);
    var clubPart := CheckClubs(es, clubOrder, clubCounts);
    var budgetPart: seq<Violation> := if totalCost > budget then [OverBudget(totalCost, budget)] else [];
    report := Report(Summary(|es|, totalCost, counts, clubOrder, clubCounts), sizePart + positionPart + clubPart + budgetPart);
  }

  /** `total_cost`: the sum of the prices. */
  method SumPrices(es: seq<Entry>) returns (totalCost: int)
    ensures totalCost == TotalCost(es)
  {
    totalCost := 0;
    for i := 0 to |es|
      invariant totalCost == TotalCost(es[..i])
    {
      assert es[..i + 1] == es[..i] + [es[i]];
      EntrySnoc(es[..i], es[i]);
      totalCost := totalCost + es[i].price;
    }
    assert es[..|es|] == es;
  }

  /** The counters are exact for `es`: per position (every expected position present), per club, clubs in first-appearance order. */
  ghost predicate Tallied(es: seq<Entry>, counts: map<string, int>, clubOrder: seq<int>, clubCounts: map<int, int>) {
    && counts.Keys == InitialCounts().Keys + PositionsOf(es)
    && (forall k :: k in counts ==> counts[k] == CountPosition(es, k))
    && clubOrder == ClubOrder(es)
    && (forall t :: t in clubCounts <==> t in clubOrder)
    && (forall t :: t in clubCounts ==> clubCounts[t] == ClubCount(es, t))
  }

  /** The counting loop: entries per position and per club, clubs in first-appearance order. */
  method Tally(es: seq<Entry>) returns (counts: map<string, int>, clubOrder: seq<int>, clubCounts: map<int, int>)
    ensures counts.Keys == InitialCounts().Keys + PositionsOf(es)
    ensures forall k :: k in counts ==> counts[k] == CountPosition(es, k)
    ensures clubOrder == ClubOrder(es)
    ensures forall t :: t in clubCounts <==> t in clubOrder
    ensures forall t :: t in clubCounts ==> clubCounts[t] == ClubCount(es, t)
  {
    counts := InitialCounts();
    clubOrder := [];
    clubCounts := map[];
    for i := 0 to |es|
      invariant Tallied(es[..i], counts, clubOrder, clubCounts)
    {
      var e := es[i];
      TallyStep(es[..i], e, counts, clubOrder, clubCounts);
      assert es[..i + 1] == es[..i] + [e];
      counts := counts[e.position := (if e.position in counts then counts[e.position] else 0) + 1];
      if e.teamId.Some? {
        var t := e.teamId.value;
        if t !in clubCounts {
          clubOrder := clubOrder + [t];
        }
        clubCounts := clubCounts[t := (if t in clubCounts then clubCounts[t] else 0) + 1];
      }
    }
    assert es[..|es|] == es;
  }

  /** Counting one more entry keeps every counter exact. */
  lemma TallyStep(es: seq<Entry>, e: Entry, counts: map<string, int>, clubOrder: seq<int>, clubCounts: map<int, int>)
    requires Tallied(es, counts, clubOrder, clubCounts)
    ensures Tallied(es + [e],
      counts[e.position := (if e.position in counts then counts[e.position] else 0) + 1],
      if e.teamId.Some? && e.teamId.value !in clubCounts then clubOrder + [e.teamId.value] else clubOrder,
      if e.teamId.Some? then clubCounts[e.teamId.value := (if e.teamId.value in clubCounts then clubCounts[e.teamId.value] else 0) + 1]
      else clubCounts)
  {
    CountsStep(es, e, counts);
    if e.teamId.Some? {
      ClubsStep(es, e, clubOrder, clubCounts);
    } else {
      NoClubStep(es, e);
    }
  }

  /** Counting one more entry's position keeps the position counters exact. */
  lemma CountsStep(es: seq<Entry>, e: Entry, counts: map<string, int>)
    requires counts.Keys == InitialCounts().Keys + PositionsOf(es)
    requires forall k :: k in counts ==> counts[k] == CountPosition(es, k)
    ensures var c := counts[e.position := (if e.position in counts then counts[e.position] else 0) + 1];
      && c.Keys == InitialCounts().Keys + PositionsOf(es + [e])
      && forall k :: k in c ==> c[k] == CountPosition(es + [e], k)
  {
    EntrySnoc(es, e);
    CountPositionSeen(es, e.position);
  }

  /** Counting one more entry's club keeps the club order and counters exact. */
  lemma ClubsStep(es: seq<Entry>, e: Entry, clubOrder: seq<int>, clubCounts: map<int, int>)
    requires e.teamId.Some?
    requires clubOrder == ClubOrder(es)
    requires forall t :: t in clubCounts <==> t in clubOrder
    requires forall t :: t in clubCounts ==> clubCounts[t] == ClubCount(es, t)
    ensures var t := e.teamId.value;
      var order := if t !in clubCounts then clubOrder + [t] else clubOrder;
      var c := clubCounts[t := (if t in clubCounts then clubCounts[t] else 0) + 1];
      && order == ClubOrder(es + [e])
      && (forall u :: u in c <==> u in order)
      && forall u :: u in c ==> c[u] == ClubCount(es + [e], u)
  {
    EntrySnoc(es, e);
    ClubOrderCounts(es, e.teamId.value);
  }

  /** An entry without a team changes no club tally. */
  lemma NoClubStep(es: seq<Entry>, e: Entry)
    requires e.teamId.None?
    ensures ClubOrder(es + [e]) == ClubOrder(es)
    ensures forall u :: ClubCount(es + [e], u) == ClubCount(es, u)
  {
    EntrySnoc(es, e);
  }

  /** The position checks, in the order of `Expected`. */
  method CheckPositions(es: seq<Entry>, counts: map<string, int>) returns (violations: seq<Violation>)
    requires InitialCounts().Keys <= counts.Keys
    requires forall k :: k in counts ==> counts[k] == CountPosition(es, k)
    ensures violations == PositionViolations(es, Expected)
  {
    violations := [];
    for j := 0 to |Expected|
      invariant violations == PositionViolations(es, Expected[..j])
    {
      var (k, v) := Expected[j];
      assert Expected[..j + 1][..j] == Expected[..j];
      assert k in InitialCounts();
      var found := if k in counts then counts[k] else 0;
      if found != v {
        violations := violations + [PositionCount(k, v, found)];
      }
    }
    assert Expected[..|Expected|] == Expected;
  }

  /** The club checks, clubs in first-appearance order. */
  method CheckClubs(es: seq<Entry>, clubOrder: seq<int>, clubCounts: map<int, int>) returns (violations: seq<Violation>)
    requires forall t :: t in clubOrder ==> t in clubCounts && clubCounts[t] == ClubCount(es, t)
    ensures violations == ClubViolations(es, clubOrder)
  {
    violations := [];
    for j := 0 to |clubOrder|
      invariant violations == ClubViolations(es, clubOrder[..j])
    {
      var t := clubOrder[j];
      assert clubOrder[..j + 1][..j] == clubOrder[..j];
      if clubCounts[t] > ClubMaximum {
        violations := violations + [ClubLimit(t, clubCounts[t])];
      }
    }
    assert clubOrder[..|clubOrder|] == clubOrder;
  }

  /** What one more entry adds to each tally. */
  lemma EntrySnoc(es: seq<Entry>, e: Entry)
    ensures TotalCost(es + [e]) == TotalCost(es) + e.price
    ensures forall k :: CountPosition(es + [e], k) == CountPosition(es, k) + (if e.position == k then 1 else 0)
    ensures forall t :: ClubCount(es + [e], t) == ClubCount(es, t) + (if e.teamId == Some(t) then 1 else 0)
    ensures ClubOrder(es + [e]) == if e.teamId.Some? && e.teamId.value !in ClubOrder(es) then ClubOrder(es) + [e.teamId.value] else ClubOrder(es)
    ensures PositionsOf(es + [e]) == PositionsOf(es) + {e.position}
  {
    var s := es + [e];
    assert s[..|es|] == es;
    forall k | k in PositionsOf(s) ensures k in PositionsOf(es) + {e.position} {
      var j :| 0 <= j < |s| && s[j].position == k;
      if j < |es| {
        assert es[j] == s[j];
      }
    }
    forall k | k in PositionsOf(es) ensures k in PositionsOf(s) {
      var j :| 0 <= j < |es| && es[j].position == k;
      assert s[j] == es[j];
    }
    assert s[|es|] == e;
  }

  lemma {:induction false} CountPositionSeen(es: seq<Entry>, pos: string)
    ensures pos !in PositionsOf(es) ==> CountPosition(es, pos) == 0
  {
    if es != [] {
      var init := es[..|es| - 1];
      CountPositionSeen(init, pos);
      assert es == init + [es[|es| - 1]];
      EntrySnoc(init, es[|es| - 1]);
    }
  }

  /** A club is in the first-appearance order exactly when some entry belongs to it. */
  lemma {:induction false} ClubOrderCounts(es: seq<Entry>, t: int)
    ensures t in ClubOrder(es) <==> ClubCount(es, t) > 0
  {
    if es != [] {
      ClubOrderCounts(es[..|es| - 1], t);
    }
  }

  /** Clubs appear once each in the first-appearance order. */
  lemma {:induction false} ClubOrderDistinct(es: seq<Entry>)
    ensures forall i, j :: 0 <= i < j < |ClubOrder(es)| ==> ClubOrder(es)[i] != ClubOrder(es)[j]
  {
    if es != [] {
      ClubOrderDistinct(es[..|es| - 1]);
    }
  }

  /** All four rules hold. */
  ghost predicate RulesHold(es: seq<Entry>, budget: int) {
    && |es| == SquadSizeRequired
    && CountPosition(es, "GK") == 2 && CountPosition(es, "DEF") == 5
    && CountPosition(es, "MID") == 5 && CountPosition(es, "FWD") == 3
    && (forall t :: ClubCount(es, t) <= ClubMaximum)
    && TotalCost(es) <= budget
  }

  lemma {:induction false} ClubViolationsEmpty(es: seq<Entry>, order: seq<int>)
    ensures ClubViolations(es, order) == [] <==> forall t :: t in order ==> ClubCount(es, t) <= ClubMaximum
  {
    if order != [] {
      var init := order[..|order| - 1];
      var t := order[|order| - 1];
      ClubViolationsEmpty(es, init);
      assert order == init + [t];
      assert forall u :: u in order <==> u in init || u == t;
      assert ClubViolations(es, order) == ClubViolations(es, init)
        + (if ClubCount(es, t) > ClubMaximum then [ClubLimit(t, ClubCount(es, t))] else []);
    }
  }

  lemma {:induction false} PositionViolationsEmpty(es: seq<Entry>, expected: seq<(string, int)>)
    ensures PositionViolations(es, expected) == [] <==>
      forall i :: 0 <= i < |expected| ==> CountPosition(es, expected[i].0) == expected[i].1
  {
    if expected != [] {
      var init := expected[..|expected| - 1];
      PositionViolationsEmpty(es, init);
      assert forall i :: 0 <= i < |init| ==> init[i] == expected[i];
    }
  }

  /** There is no violation exactly when all four rules hold. */
  lemma ViolationsEmptyIff(es: seq<Entry>, budget: int)
    ensures Violations(es, budget) == [] <==> RulesHold(es, budget)
  {
    ClubViolationsEmpty(es, ClubOrder(es));
    forall t ensures t !in ClubOrder(es) ==> ClubCount(es, t) == 0 {
      ClubOrderCounts(es, t);
    }
    PositionViolationsEmpty(es, Expected);
    assert (forall i :: 0 <= i < |Expected| ==> CountPosition(es, Expected[i].0) == Expected[i].1) <==>
      CountPosition(es, "GK") == 2 && CountPosition(es, "DEF") == 5 && CountPosition(es, "MID") == 5 && CountPosition(es, "FWD") == 3 by {
      assert Expected[0] == ("GK", 2) && Expected[1] == ("DEF", 5) && Expected[2] == ("MID", 5) && Expected[3] == ("FWD", 3);
    }
  }

  /** The four kinds of violation, in the order `validate_rules` checks them. */
  function Rank(v: Violation): nat {
    match v
    case SquadSize(_) => 0
    case PositionCount(_, _, _) => 1
    case ClubLimit(_, _) => 2
    case OverBudget(_, _) => 3
  }

  lemma {:induction false} PositionViolationsRank(es: seq<Entry>, expected: seq<(string, int)>)
    ensures forall v :: v in PositionViolations(es, expected) ==> Rank(v) == 1
  {
    if expected != [] {
      PositionViolationsRank(es, expected[..|expected| - 1]);
    }
  }

  lemma {:induction false} ClubViolationsRank(es: seq<Entry>, order: seq<int>)
    ensures forall v :: v in ClubViolations(es, order) ==> Rank(v) == 2
  {
    if order != [] {
      ClubViolationsRank(es, order[..|order| - 1]);
    }
  }

  /** Violations come in a fixed order: size, then positions, then clubs, then budget. */
  lemma ViolationsOrdered(es: seq<Entry>, budget: int)
    ensures var vs := Violations(es, budget);
      forall i, j :: 0 <= i < j < |vs| ==> Rank(vs[i]) <= Rank(vs[j])
  {
    PositionViolationsRank(es, Expected);
    ClubViolationsRank(es, ClubOrder(es));
    var vs := Violations(es, budget);
    var a := if |es| != SquadSizeRequired then [SquadSize(|es|)] else [];
    var b := PositionViolations(es, Expected);
    var c := ClubViolations(es, ClubOrder(es));
    var d := if TotalCost(es) > budget then [OverBudget(TotalCost(es), budget)] else [];
    assert vs == a + b + c + d;
    forall i | 0 <= i < |vs| ensures Rank(vs[i]) == (if i < |a| then 0 else if i < |a| + |b| then 1 else if i < |a| + |b| + |c| then 2 else 3) {
      if i < |a| {
        assert vs[i] == a[i];
      } else if i < |a| + |b| {
        assert vs[i] == b[i - |a|];
        assert b[i - |a|] in b;
      } else if i < |a| + |b| + |c| {
        assert vs[i] == c[i - |a| - |b|];
        assert c[i - |a| - |b|] in c;
      } else {
        assert vs[i] == d[i - |a| - |b| - |c|];
      }
    }
  }

  /** The budget check is strict: a total equal to the budget is fine, one tenth more is not. */
  lemma BudgetBoundary(es: seq<Entry>, budget: int)
    ensures TotalCost(es) == budget ==> forall v :: v in Violations(es, budget) ==> !v.OverBudget?
    ensures TotalCost(es) == budget + 1 ==> OverBudget(budget + 1, budget) in Violations(es, budget)
  {
    PositionViolationsRank(es, Expected);
    ClubViolationsRank(es, ClubOrder(es));
    var vs := Violations(es, budget);
    if TotalCost(es) == budget + 1 {
      assert vs[|vs| - 1] == OverBudget(budget + 1, budget);
    }
  }

  /** A club with more than three players is reported with its count. */
  lemma ClubCapFlagged(es: seq<Entry>, budget: int, t: int)
    requires ClubCount(es, t) > ClubMaximum
    ensures ClubLimit(t, ClubCount(es, t)) in Violations(es, budget)
  {
    ClubOrderCounts(es, t);
    ClubLimitListed(es, ClubOrder(es), t);
  }

  lemma {:induction false} ClubLimitListed(es: seq<Entry>, order: seq<int>, t: int)
    requires t in order && ClubCount(es, t) > ClubMaximum
    ensures ClubLimit(t, ClubCount(es, t)) in ClubViolations(es, order)
  {
    var init := order[..|order| - 1];
    if order[|order| - 1] != t {
      assert order == init + [order[|order| - 1]];
      ClubLimitListed(es, init, t);
    }
  }

  /**
   * The rules look for "GK": a squad whose goalkeepers carry the position
   * "GKP" (the short name in the sample snapshot) always has a GK violation.
   */
  lemma GkpSquadFlagged(es: seq<Entry>, budget: int)
    requires forall e :: e in es ==> e.position != "GK"
    ensures PositionCount("GK", 2, 0) in Violations(es, budget)
  {
    NoPositionCount(es, "GK");
    var b := PositionViolations(es, Expected);
    assert Expected[..1] == [("GK", 2)];
    assert Expected[..3][..2] == Expected[..2];
    assert Expected[..2][..1] == Expected[..1];
    assert Expected[..1][..0] == [];
    assert PositionViolations(es, Expected[..1]) == [PositionCount("GK", 2, 0)];
    assert PositionCount("GK", 2, 0) in PositionViolations(es, Expected[..2]);
    assert PositionCount("GK", 2, 0) in PositionViolations(es, Expected[..3]);
    assert PositionCount("GK", 2, 0) in b;
  }

  lemma {:induction false} NoPositionCount(es: seq<Entry>, pos: string)
    requires forall e :: e in es ==> e.position != pos
    ensures CountPosition(es, pos) == 0
  {
    if es != [] {
      assert es[|es| - 1] in es;
      NoPositionCount(es[..|es| - 1], pos);
    }
  }
}
