/**
 * Resolving one line of the team file against the roster
 * (src/myfpl/validate.py): `parse_input_line`, `match_candidate` and
 * `match_candidate_with_team`. There is no substring and no fuzzy tier here.
 */
module Matcher {
  import opened Wrappers
  import opened Text
  import opened Names
  import opened Collections
  import opened Roster

  /** `p["first_name"][:1]`. */
  function FirstInitial(p: Player): (r: string)
    ensures |r| <= 1 && (p.firstName != [] ==> r == [p.firstName[0]])
  {
    if |p.firstName| >= 1 then p.firstName[..1] else p.firstName
  }

  /** The normalised query equals one of the player's cached normalised names. */
  predicate ExactName(n: string, p: Player) {
    n == p.NormWeb() || n == p.NormFull() || n == p.NormSecond()
  }

  /** Two or more tokens, the first of them `first`, the rest joined by one space equal to `norm_second`. */
  predicate SurnameAfter(n: string, p: Player) {
    var parts := Words(n);
    |parts| >= 2 && Join(parts[1..], " ") == p.NormSecond()
  }

  /** The initial-plus-surname form "M Salah": a one-character first token equal to the normalised initial. */
  predicate InitialForm(n: string, p: Player) {
    var parts := Words(n);
    SurnameAfter(n, p) && |parts[0]| == 1 && parts[0] == Normalize(FirstInitial(p))
  }

  /** The dotted form "M. Salah": a two-character first token ending in `.` whose first character is the normalised initial. */
  predicate DottedForm(n: string, p: Player) {
    var parts := Words(n);
    SurnameAfter(n, p) && |parts[0]| == 2 && parts[0][1] == '.' && [parts[0][0]] == Normalize(FirstInitial(p))
  }

  /** The loop body of `match_candidate` for one player, branch by branch, including the repeated surname check. */
  predicate MatchStep(n: string, p: Player) {
    ExactName(n, p) || InitialForm(n, p) || DottedForm(n, p) || n == p.NormSecond()
  }

  function MatchesName(n: string): Player -> bool {
    p => MatchStep(n, p)
  }

  /** The dotted branch can never fire on a normalised query: `normalize` has removed every `.`. */
  lemma DottedFormUnreachable(candidate: string, p: Player)
    ensures !DottedForm(Normalize(candidate), p)
  {
    var n := Normalize(candidate);
    NormalizeIsNormal(candidate);
    var parts := Words(n);
    if |parts| >= 2 && |parts[0]| == 2 {
      WordsChars(n);
      assert parts[0] in parts;
      assert parts[0][1] in parts[0];
    }
  }

  /**
   * On a normalised query the loop body accepts exactly the exact names and
   * the initial-plus-surname form; the dotted branch and the repeated surname
   * check add nothing.
   */
  lemma MatchStepMeaning(candidate: string, p: Player)
    ensures MatchStep(Normalize(candidate), p) <==> ExactName(Normalize(candidate), p) || InitialForm(Normalize(candidate), p)
  {
    DottedFormUnreachable(candidate, p);
  }

  /** `match_candidate`: the players the loop body accepts, in roster order. */
  method MatchCandidate(candidate: string, players: seq<Player>) returns (matches: seq<Player>)
    ensures matches == Filter(players, MatchesName(Normalize(candidate)))
    ensures IsSubsequence(matches, players)
  {
    var n := Normalize(candidate);
    matches := [];
    for i := 0 to |players|
      invariant matches == Filter(players[..i], MatchesName(n))
    {
      var p := players[i];
      FilterPrefixSnoc(players, i, MatchesName(n));
      if ExactName(n, p) {
        matches := matches + [p];
        continue;
      }
      if InitialForm(n, p) {
        matches := matches + [p];
        continue;
      }
      if DottedForm(n, p) {
        matches := matches + [p];
        continue;
      }
      if n == p.NormSecond() {
        matches := matches + [p];
      }
    }
    assert players[..|players|] == players;
    FilterIsSubsequence(players, MatchesName(n));
  }

  /** What `match_candidate` keeps: a subsequence of the roster, exactly the exact-name and initial-form matches. */
  lemma MatchingMeaning(candidate: string, players: seq<Player>)
    ensures var matches := Filter(players, MatchesName(Normalize(candidate)));
      && IsSubsequence(matches, players) && multiset(matches) <= multiset(players)
      && forall p :: p in matches <==> p in players && (ExactName(Normalize(candidate), p) || InitialForm(Normalize(candidate), p))
  {
    var n := Normalize(candidate);
    FilterIsSubsequence(players, MatchesName(n));
    FilterMembers(players, MatchesName(n));
    forall p ensures MatchesName(n)(p) <==> ExactName(n, p) || InitialForm(n, p) {
      MatchStepMeaning(candidate, p);
    }
  }

  /** `str(code)` for the team code, `""` when there is none. */
  function CodeText(code: Option<int>): string {
    match code
    case None => ""
    case Some(c) => IntToString(c)
  }

  /** The normalised hint equals the player's normalised team name, short name or code. */
  predicate OnTeam(th: string, p: Player) {
    NamesTeam(th, p) || ShortNamesTeam(th, p) || CodesTeam(th, p)
  }

  predicate NamesTeam(th: string, p: Player) { th == Normalize(p.teamName) }
  predicate ShortNamesTeam(th: string, p: Player) { th == Normalize(p.teamShort) }
  predicate CodesTeam(th: string, p: Player) { th == Normalize(CodeText(p.teamCode)) }

  function OnTeamFilter(th: string): Player -> bool {
    p => OnTeam(th, p)
  }

  /** Python truthiness of an optional hint: present and non-empty. */
  predicate IsTruthy(hint: Option<string>) {
    hint.Some? && hint.value != ""
  }

  /** What `match_candidate_with_team` returns, given the untouched match list. */
  function NarrowByTeam(matches: seq<Player>, hint: Option<string>): seq<Player> {
    if IsTruthy(hint) && matches != [] then
      var filtered := Filter(matches, OnTeamFilter(Normalize(hint.value)));
      if filtered != [] then filtered else matches
    else matches
  }

  /**
   * The team hint only ever narrows: the result is a subsequence of the
   * matches, it is the matches themselves without a hint or without matches,
   * and it is empty exactly when the matches are.
   */
  lemma NarrowByTeamIsSubsequence(matches: seq<Player>, hint: Option<string>)
    ensures IsSubsequence(NarrowByTeam(matches, hint), matches)
    ensures !IsTruthy(hint) || matches == [] ==> NarrowByTeam(matches, hint) == matches
    ensures NarrowByTeam(matches, hint) == [] <==> matches == []
  {
    SubsequenceReflexive(matches);
    if IsTruthy(hint) && matches != [] {
      FilterIsSubsequence(matches, OnTeamFilter(Normalize(hint.value)));
    }
  }

  /** When some match is on the hinted team, the result is exactly the matches on that team. */
  lemma NarrowByTeamKeepsTeam(matches: seq<Player>, hint: Option<string>, q: Player)
    requires IsTruthy(hint) && q in matches && OnTeam(Normalize(hint.value), q)
    ensures forall p :: p in NarrowByTeam(matches, hint) <==> p in matches && OnTeam(Normalize(hint.value), p)
  {
    var f := OnTeamFilter(Normalize(hint.value));
    FilterMembers(matches, f);
    assert f(q);
    forall p ensures f(p) <==> OnTeam(Normalize(hint.value), p) {
    }
  }

  /** A hint that matches none of the candidates leaves the match list unchanged. */
  lemma NarrowByTeamFallsBack(matches: seq<Player>, hint: Option<string>)
    requires hint.Some? ==> forall p :: p in matches ==> !OnTeam(Normalize(hint.value), p)
    ensures NarrowByTeam(matches, hint) == matches
  {
    if IsTruthy(hint) && matches != [] {
      var f := OnTeamFilter(Normalize(hint.value));
      forall p | p in matches ensures !f(p) {
      }
      FilterNoneKept(matches, f);
    }
  }

  /** The filtering loop of `match_candidate_with_team`: the matches on the hinted team, in order. */
  method KeepOnTeam(matches: seq<Player>, th: string) returns (filtered: seq<Player>)
    ensures filtered == Filter(matches, OnTeamFilter(th))
  {
    filtered := [];
    for i := 0 to |matches|
      invariant filtered == Filter(matches[..i], OnTeamFilter(th))
    {
      var p := matches[i];
      FilterPrefixSnoc(matches, i, OnTeamFilter(th));
      if NamesTeam(th, p) {
        filtered := filtered + [p];
        continue;
      }
      if ShortNamesTeam(th, p) {
        filtered := filtered + [p];
        continue;
      }
      if CodesTeam(th, p) {
        filtered := filtered + [p];
        continue;
      }
    }
    assert matches[..|matches|] == matches;
  }

  /** `match_candidate_with_team`. */
  method MatchCandidateWithTeam(candidate: string, hint: Option<string>, players: seq<Player>) returns (r: seq<Player>)
    ensures r == NarrowByTeam(Filter(players, MatchesName(Normalize(candidate))), hint)
    ensures IsSubsequence(r, players)
  {
    var matches := MatchCandidate(candidate, players);
    r := matches;
    if IsTruthy(hint) && matches != [] {
      var th := Normalize(hint.value);
      var filtered := KeepOnTeam(matches, th);
      if filtered != [] {
        r := filtered;
      }
    }
    NarrowByTeamIsSubsequence(matches, hint);
    SubsequenceTransitive(NarrowByTeam(matches, hint), matches, players);
  }

  /** `""` becomes `None`, as `parts[1] if ... and parts[1] else None`. */
  function NonEmpty(s: string): (r: Option<string>)
    ensures r.None? <==> s == ""
    ensures r.Some? ==> r.value == s
  {
    if s == "" then None else Some(s)
  }

  /**
   * `parse_input_line`: without `;` the stripped line and no hint; otherwise
   * the line is cut at its first `;` only, both halves stripped, and an empty
   * hint is `None`.
   */
  function ParseInputLine(line: string): (r: (string, Option<string>))
    ensures ';' !in line ==> r == (Strip(line), None)
    ensures forall k :: 0 <= k < |line| && line[k] == ';' && ';' !in line[..k] ==>
      r == (Strip(line[..k]), NonEmpty(Strip(line[k + 1..])))
  {
    match IndexOf(line, ';')
    case None => (Strip(line), None)
    case Some(k) => (Strip(line[..k]), NonEmpty(Strip(line[k + 1..])))
  }

  /** The name part holds no `;`, and a hint is never empty and never padded. */
  lemma ParseInputLineShape(line: string)
    ensures ';' !in ParseInputLine(line).0 || ';' !in line
    ensures var h := ParseInputLine(line).1; h.Some? ==> h.value != "" && !IsSpace(h.value[0]) && !IsSpace(h.value[|h.value| - 1])
    ensures var name := ParseInputLine(line).0; name == [] || (!IsSpace(name[0]) && !IsSpace(name[|name| - 1]))
  {
    match IndexOf(line, ';')
    case None =>
    case Some(k) =>
      StripKeepsOut(line[..k], ';');
  }

  /** "Harry Kane" has no hint. */
  lemma ParseInputLineNoHintExample()
    ensures ParseInputLine("Harry Kane") == ("Harry Kane", None)
  {
    assert ';' !in "Harry Kane";
    StripStripped("Harry Kane");
  }

  /** "White; Arsenal" names White of Arsenal. */
  lemma ParseInputLineHintExample()
    ensures ParseInputLine("White; Arsenal") == ("White", Some("Arsenal"))
  {
    var line := "White; Arsenal";
    assert line[..5] == "White" && line[6..] == " Arsenal";
    assert line[5] == ';' && ';' !in line[..5];
    StripStripped("White");
    StripArsenal();
  }

  lemma StripArsenal()
    ensures Strip(" Arsenal") == "Arsenal"
  {
    StripLeadingSpace(' ', "Arsenal");
    assert [' '] + "Arsenal" == " Arsenal";
    StripStripped("Arsenal");
  }

  /** An empty hint after the `;` is no hint. */
  lemma ParseInputLineEmptyHintExample()
    ensures ParseInputLine("Kane;") == ("Kane", None)
  {
    var line := "Kane;";
    assert line[..4] == "Kane" && line[5..] == "";
    assert line[4] == ';' && ';' !in line[..4];
    StripStripped("Kane");
  }
}
