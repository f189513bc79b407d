# myfpl in Dafny

A verified model of the data-handling core of **myfpl**, a set of command-line
tools for Fantasy Premier League (FPL). The tools read the FPL
`bootstrap-static` snapshot (element types, teams and player "elements"),
fixtures and per-player histories.

The model covers:

- **The squad validator** (`src/myfpl/validate.py`, identical to the top-level
  `validate.py`):
  - the name normaliser `normalize`;
  - the flat player records of `build_players_index`;
  - resolving one line of the team file: `parse_input_line`,
    `match_candidate` and `match_candidate_with_team`;
  - the loop in `main` that sorts the lines into missing, ambiguous and
    validated;
  - the squad rules of `validate_rules`: 15 players, 2/5/5/3 per position, at
    most 3 per club, and the budget.
- **The player extractor** (`src/myfpl/player.py`, whose copy `player_data.py`
  has the same `find_players`, `sanitize_filename` and map builders):
  - the three-tier free-text lookup `find_players`: exact key, then
    substring, then closest key, with duplicate ids removed;
  - `sanitize_filename`;
  - `build_position_map` and `build_team_map`;
  - `_extract_gameweek_stats`;
  - the interactive selection among several matches in `player_data.py`.
- **Fixtures**: `build_fixtures_map` (`src/myfpl/fixtures.py`).
- **The score plot's data**: `extract_gameweek_scores`
  (`scripts/player_score_plot.py`).
- **The team list**: `extract_teams` and the CSV output (`teams_list.py`).

Model conventions:

- JSON objects are datatypes. A field that may be missing or `null` is an
  `Option`. A collection read with `.get(..., [])` is an `Option<seq<...>>`.
- Python's `or` is written out: `None`, `""` and `0` are false.
- Loops that build lists or dictionaries are methods with loop invariants.
  Each method is proved equal to a specification function, and the
  properties are proved about that function. Dictionary filling is `Assoc`,
  where the last assignment to a key wins.
- Prices and the budget are integer tenths of a million.
- Two pieces of library code are parameters:
  - the `difflib` closest-match answer (`close`), which must be one of the
    candidate keys;
  - `parse_kickoff` (`parseKickoff`).

Where a comment in the source disagrees with its code, the code is followed:

- The CSV branch's comment speaks of escaping commas. The code quotes each
  field and doubles `"`.
- `build_players_index`'s comment calls the positions GK/DEF/MID/FWD, which
  is what `validate_rules` counts. The sample snapshot in the tests uses
  `GKP`. The rules are modelled as written, and `Squad.GkpSquadFlagged`
  proves the consequence: a squad whose goalkeepers are tagged `GKP` always
  gets a GK violation.

## Model

| member | source | states |
|---|---|---|
| Names.NormCharIsNormal | src/myfpl/validate.py:21-25 | the per-character steps (accent fold, `.`/`-` to space, lower-case) yield a character they leave alone, never `.`, `-` or upper case |
| Names.NormalizeIsNormal | src/myfpl/validate.py:18-26 | the output has no `.`, `-`, upper case or combining mark, whitespace only as single plain spaces, and no leading or trailing space |
| Names.NormalIsFixedPoint | src/myfpl/validate.py:18-26 | a string already in normal form is returned unchanged |
| Names.NormalizeIdempotent | src/myfpl/validate.py:18-26 | normalising twice equals normalising once |
| Names.NormalizeCharwise | src/myfpl/validate.py:21-25 | strings that agree character by character up to accents, case and `.`/`-` normalise identically |
| Names.DottedInitialExample | tests/test_validate.py:74-75 | `normalize("J.Timber") == normalize("J Timber")` |
| Names.AccentExample | src/myfpl/validate.py:21-24 | "Raya Martín" and "raya martin" normalise identically |
| Names.DecomposedAccentExample | src/myfpl/validate.py:22-23 | a combining mark already present in the input is dropped: "Marti" + U+0301 + "n" normalises like "Martín" |
| Names.DropMarkBetween | src/myfpl/validate.py:22-23 | a combining mark between two texts without marks is dropped and nothing else changes |
| Roster.BuildPlayersIndex | src/myfpl/validate.py:29-62 | the loop yields one record per element, in input order |
| Roster.PlayersOf | src/myfpl/validate.py:45-61 | record `i` is made of element `i` |
| Roster.PlayerOfFields | src/myfpl/validate.py:29-61 | a record copies id, web name and team id; its position is the last matching element type's short name, else `""`; its team fields are the last matching team's, else empty; its cached names are normal |
| Roster.EmptySnapshot | src/myfpl/validate.py:45 | a missing or empty `elements` list gives no records |
| Roster.PositionTableLast | src/myfpl/validate.py:31-34 | `et_map` maps each id to the short name of the last element type with that id |
| Roster.TeamTableLast | src/myfpl/validate.py:36-43 | `team_map` maps each id to the last team with that id, with missing fields as `""` |
| Matcher.MatchCandidate | src/myfpl/validate.py:65-94 | the matches are the players the loop body accepts, in roster order, and they form a subsequence of the roster |
| Matcher.FirstInitial | src/myfpl/validate.py:79 | `first_name[:1]`: at most one character, the first one when the name is non-empty |
| Matcher.MatchStepMeaning | src/myfpl/validate.py:69-93 | on a normalised query the loop accepts exactly the exact-name hits and the "initial surname" form |
| Matcher.DottedFormUnreachable | src/myfpl/validate.py:83-90 | the dotted-initial branch can never fire, because `normalize` has removed every `.` |
| Matcher.MatchingMeaning | src/myfpl/validate.py:65-94 | a player is matched iff it is in the roster and equals the query exactly or in initial-plus-surname form; the matches form a subsequence of the roster and are a sub-multiset of it |
| Matcher.KeepOnTeam | src/myfpl/validate.py:105-117 | the filtered list is the matches whose normalised team name, short name or code equals the hint, in order |
| Matcher.MatchCandidateWithTeam | src/myfpl/validate.py:97-120 | the result is the name matches narrowed by the hint, and it is a subsequence of the roster |
| Matcher.NarrowByTeamIsSubsequence | src/myfpl/validate.py:103-120 | the hint only narrows; with no hint or no matches the matches are returned; the result is empty iff the matches are |
| Matcher.NarrowByTeamKeepsTeam | src/myfpl/validate.py:103-119 | when some match is on the hinted team, the result is exactly the matches on that team |
| Matcher.NarrowByTeamFallsBack | src/myfpl/validate.py:118-120 | a hint that fits no match leaves the matches unchanged |
| Matcher.ParseInputLine | src/myfpl/validate.py:131-142 | with no `;` the result is the stripped line and no hint; otherwise the line is cut at its first `;`, both halves are stripped, and an empty hint is `None` |
| Matcher.NonEmpty | src/myfpl/validate.py:140 | an empty hint becomes `None`, any other is kept as it is |
| Matcher.ParseInputLineShape | src/myfpl/validate.py:131-142 | the name has no `;` (when the line has one) and no surrounding whitespace; a hint is never empty or padded |
| Matcher.ParseInputLineHintExample | src/myfpl/validate.py:137-141 | "White; Arsenal" gives ("White", "Arsenal") |
| Matcher.ParseInputLineEmptyHintExample | src/myfpl/validate.py:140 | "Kane;" gives ("Kane", no hint) |
| Matcher.ParseInputLineNoHintExample | src/myfpl/validate.py:142 | "Harry Kane" gives no hint |
| Squad.ClassifyLines | src/myfpl/validate.py:238-269 | the loop's three lists are those of `Classify`, the lines placed in turn |
| Squad.ClassifyPartition | src/myfpl/validate.py:238-269 | every line lands in exactly one list, chosen by its match count (0, several, 1), and every validated entry has a position |
| Squad.ClassifyAllResolved | src/myfpl/validate.py:238-269 | with nothing missing or ambiguous, entry `i` is line `i`'s name with its single match |
| Squad.Descriptions | src/myfpl/validate.py:243-250 | one description per ambiguous option, in order |
| Squad.ValidateRules | src/myfpl/validate.py:283-330 | the summary holds the player count, the total cost, the exact per-position and per-club counts (clubs in first-appearance order), and the violations of `Violations` |
| Squad.SumPrices | src/myfpl/validate.py:287 | the total is the sum of the entry prices |
| Squad.Tally | src/myfpl/validate.py:289-295 | the position counters (expected keys seeded) and the club counters are exact for the squad, with clubs in first-appearance order |
| Squad.TallyStep | src/myfpl/validate.py:291-295 | counting one more entry keeps every counter exact |
| Squad.CheckPositions | src/myfpl/validate.py:312-317 | one position violation per expected position whose count is off, in the order GK, DEF, MID, FWD |
| Squad.CheckClubs | src/myfpl/validate.py:319-323 | one club violation per club with more than three players, in first-appearance order |
| Squad.ViolationsEmptyIff | src/myfpl/validate.py:305-328 | no violation iff the squad has 15 players, exactly 2/5/5/3 per position, at most 3 per club, and cost within budget |
| Squad.ViolationsOrdered | src/myfpl/validate.py:305-328 | violations are reported size first, then positions, then clubs, then budget |
| Squad.BudgetBoundary | src/myfpl/validate.py:325-328 | on exact tenths the budget test is strict: a cost equal to the budget passes, one tenth more fails (the float sum of the source can differ, see Left out) |
| Squad.ClubCapFlagged | src/myfpl/validate.py:319-323 | a club with more than three players is reported with its count |
| Squad.ClubOrderDistinct | src/myfpl/validate.py:291-295 | each club appears once in the club order |
| Squad.ClubOrderCounts | src/myfpl/validate.py:291-295 | a club is in the club order iff some entry belongs to it |
| Squad.GkpSquadFlagged | tests/test_validate.py:10 | a squad with no position "GK" (e.g. goalkeepers tagged "GKP") always gets the GK count violation |
| Search.KeysOfNames | src/myfpl/player.py:88-97 | an element is filed under exactly the lower-cased forms of its non-empty stripped names |
| Search.DistinctKeys | src/myfpl/player.py:94 | iterating the set of names instead of the list loses no key |
| Search.BuildNameIndex | src/myfpl/player.py:87-99 | the index and the candidate list are those of filing each element under its keys, in order |
| Search.FileNames | src/myfpl/player.py:94-99 | the inner loop files the element under each non-empty lower-cased name and appends each key to the candidates |
| Search.IndexLookup | src/myfpl/player.py:98 | the index files an element under a key iff the element has that key |
| Search.CollectSeen | src/myfpl/player.py:104-108 | the `seen` loop gives the elements under the substring keys, deduplicated by id |
| Search.FindPlayers | src/myfpl/player.py:82-112 | on `bootstrap.get("elements", [])`, the result is the tiered lookup `FindResult` |
| Search.ExactTier | src/myfpl/player.py:100-101 | when the query is a key, the result is exactly the elements with that key, one per id |
| Search.SubstringTier | src/myfpl/player.py:102-108 | when no key equals the query but some key contains it, the result is the elements with such a key, one per id |
| Search.FuzzyTier | src/myfpl/player.py:109-111 | when no key contains the query, the result is the non-empty set of elements under the closest key, one per id |
| Search.NotFound | src/myfpl/player.py:82-112 | nothing is found iff no key contains the query and there is no closest key |
| Search.FoundDistinct | src/myfpl/player.py:82-112 | whatever the tier, no two results share an id |
| Search.DedupDistinct | src/myfpl/player.py:101 | `{el["id"]: el ...}.values()` keeps one element per id |
| Search.DedupMembers | src/myfpl/player.py:101 | dedup keeps only input elements, loses no id, and keeps the last element per id |
| Search.PutAllShape | src/myfpl/player.py:104-107 | the `seen` dictionary lists each id once, in insertion order, with the last element assigned to it |
| Filenames.SanitizeAlphabet | src/myfpl/player.py:21-27 | a sanitised name contains only `[a-z0-9_]` |
| Filenames.SanitizeFileName | src/myfpl/player.py:21-27 | a name made only of `[a-z0-9_]` is unchanged |
| Filenames.SanitizeIdempotent | src/myfpl/player.py:21-27 | sanitising twice equals sanitising once |
| Filenames.SanitizeRunSplits | src/myfpl/player.py:22-26 | a whitespace run splits the name: the file name of `a + run + b` is that of `a`, one `_`, and that of `b`, when neither side touches the run with whitespace or a combining mark |
| Filenames.SanitizeSpaceRun | src/myfpl/player.py:25 | two words separated by any whitespace run become the words joined by one `_` |
| Filenames.AccentedLetterExample | src/myfpl/player.py:22-24 | "É" becomes "e" |
| Filenames.UndecomposedLetterExample | src/myfpl/player.py:22-26 | "Ø" (no canonical decomposition) is removed, not folded |
| Tables.BuildPositionMap | src/myfpl/player.py:63-67 | the loop's map is the assignment of each element type in order |
| Tables.PositionMapKeys | src/myfpl/player.py:63-67 | the keys are exactly the element type ids |
| Tables.PositionMapLast | src/myfpl/player.py:66 | the last type with an id decides its entry: `singular_name` when non-empty, else `singular_name_short` |
| Tables.BuildTeamMap | src/myfpl/player.py:70-79 | the loop's map is the assignment of each team in order |
| Tables.TeamMapKeys | src/myfpl/player.py:70-79 | the keys are exactly the team ids, and each record's `id` is its key |
| Tables.TeamMapLast | src/myfpl/player.py:72-78 | the last team with an id decides its record: id, name, short name, code |
| Choice.ParseSelectionMeaning | player_data.py:153-171 | after stripping: `a`/`A` selects everything; empty cancels; a piece `int()` rejects makes the answer invalid; a list with no number from 1 to n selects nothing valid; otherwise the selection is exactly the in-range numbers made 0-based, and it is never empty. Each outcome is stated both ways |
| Choice.ZeroBasedEmpty | player_data.py:165-168 | nothing is kept exactly when no number lies from 1 to n |
| Choice.ZeroBasedMembers | player_data.py:165 | the kept indices are exactly `p - 1` for the numbers `p` with `1 <= p <= n` |
| Choice.ParseIntRoundTrip | player_data.py:163 | `int(str(i)) == i` for every integer |
| Choice.ParseOnePart | player_data.py:163 | a single accepted piece gives a single number |
| Choice.SelectionExample | player_data.py:160-165 | " 2" among three matches selects index 1 |
| Choice.OutOfRangeExample | player_data.py:165-168 | "9" among three matches selects nothing valid |
| Choice.InvalidExample | player_data.py:162-171 | "1,x" is invalid even though "1" is a number |
| Fixtures.BuildFixturesMap | src/myfpl/fixtures.py:47-57 | the loop's map is the assignment of each fixture under its id, in order |
| Fixtures.FixturesMapKeys | src/myfpl/fixtures.py:47-57 | the keys are exactly the fixture ids (`None` for a fixture without one) |
| Fixtures.FixturesMapEmpty | src/myfpl/fixtures.py:50 | the map is empty iff the input is `None` or empty |
| Fixtures.FixturesMapLast | src/myfpl/fixtures.py:51-56 | the last fixture with an id decides its entry: event and teams copied, kickoff parsed when non-empty, else `None` |
| GameweekStats.ExtractGameweekStats | src/myfpl/player.py:115-141 | one item per history row, in order, each built from its row |
| GameweekStats.EventResolution | src/myfpl/player.py:121-123 | the event is the fixture's event when the fixture id is truthy and in the map, else `round` when truthy, else `event` |
| GameweekStats.EventFromFixtures | src/myfpl/player.py:121-123 | against a map from `build_fixtures_map`, the event is that of the last fixture with the row's id |
| GameweekStats.TotalScoreMeaning | src/myfpl/player.py:124-130 | the score is the first truthy of total_points, event_points, points, total; 0 when none is truthy |
| GameweekStats.OrZero | src/myfpl/player.py:131-139 | a counter is the row's value when present and 0 when missing |
| ScorePlot.ExtractGameweekScores | scripts/player_score_plot.py:25-54 | the two lists have equal length and are pairwise the sorted rows |
| ScorePlot.RowsMembers | scripts/player_score_plot.py:33-48 | the rows are exactly the entries whose event `int()` converts, paired with their score |
| ScorePlot.ScoreOf | scripts/player_score_plot.py:43-47 | a missing or non-integer score becomes 0 |
| ScorePlot.SortAscending | scripts/player_score_plot.py:50 | the sorted rows are in ascending event order |
| ScorePlot.SortPermutes | scripts/player_score_plot.py:50 | sorting is a permutation of the rows |
| ScorePlot.SortStable | scripts/player_score_plot.py:50 | the sort is stable: rows with the same event keep their history order |
| ScorePlot.NoRowsNoSeries | scripts/player_score_plot.py:51-52 | with no convertible event there are no rows and both lists are empty |
| TeamsList.ExtractTeams | teams_list.py:19-28 | one record per team, in input order, with id, name, short name and code; a missing `teams` list gives `[]` |
| TeamsList.Escape | teams_list.py:54-55 | escaping introduces no new character and never shortens |
| TeamsList.EscapeMeaning | teams_list.py:54-55 | `replace('"', '""')`: the pieces of the text between its quotes, joined by doubled quotes |
| TeamsList.EscapeAppend | teams_list.py:54-55 | escaping a concatenation escapes each part |
| TeamsList.CsvRow | teams_list.py:56 | a row contains only characters of the id, the two fields, `,` and `"` |
| TeamsList.CsvText | teams_list.py:51-57 | the text is the header followed by one row per team, in order, joined by newlines |
| TeamsList.ReadEscaped | teams_list.py:54-56 | a field with `"` doubled, then a closing quote, reads back as the field (RFC 4180, section 2, rule 7) |
| TeamsList.RowRoundTrip | teams_list.py:54-56 | every row reads back as the team's id, short name and name, with `None` read as empty |
| TeamsList.CsvLines | teams_list.py:51-57 | when no name contains a newline, the text splits into exactly the header and the team rows: 1 + n lines |

## Left out

- I/O: file reads and writes, JSON and YAML parsing, `os.path.exists`, and directory creation.
- The network: `fetch_json` and `get_fixtures_map`.
- CLI: argument parsing, printing and exit codes. The exit codes of the selection prompt appear only as `Choice.Selection` outcomes.
- `write_validated_yaml` and `read_team_input`: PyYAML and file handling.
- The write loop of the `player_data.py` command, which writes one JSON file per selected player.
- `src/myfpl/player_history.py` is not part of this model: its row assembly is mixed with fetching and CSV file writing.
- matplotlib plotting in `scripts/player_score_plot.py`.
- Unicode NFKD: modelled by a fixed table that folds the precomposed letters of Latin-1 and Latin Extended-A to their base letter. Compatibility decompositions, such as ligatures and the Kelvin sign, are not modelled.
- `unicodedata.combining`: the marks of the Combining Diacritical Marks block (U+0300 to U+036F, except U+034F) are dropped wherever they occur, in `normalize` and in `sanitize_filename`. Combining marks of other blocks (for example U+1DC0 to U+1DFF, U+20D0 to U+20FF) are kept by `normalize`; `sanitize_filename` removes them anyway with its final `[^a-z0-9_]` filter, except where one stands between two whitespace runs.
- `str.lower()` is modelled on ASCII and Latin-1 letters only.
- `difflib.get_close_matches`: floating-point similarity inside a library. It is the parameter `close`, `None` or one candidate key.
- `datetime.fromisoformat` inside `parse_kickoff`: the parameter `parseKickoff`.
- Floating point: costs and the budget are integer tenths of a million, summed exactly. The source sums `now_cost / 10.0` as floats, so for a budget that is not a whole number a squad whose cost equals the budget can be reported over it; `Squad.BudgetBoundary` and `Squad.ViolationsEmptyIff` hold for exact sums only. Violations are a datatype, not the formatted messages.
- Python `int()` of arbitrary JSON values: fields are typed options, and in the score plot a `Coercion` tag says what `int()` would do. `int()` of text accepts ASCII digits only, not other Unicode digits.
- Set iteration order in `find_players` (`{web, full, alt, first}`) depends on string hashes. It is modelled as first-occurrence order. That choice fixes the order of `candidates`, and through it the order of the substring tier's result, which the `seen` dictionary fills key by key, and so the numbering of the matches at the selection prompt. In Python both change with string hashing. The exact tier's order does not depend on it, and every lemma about a tier's members holds for any order.
- `null` names, short names and position names in `build_players_index` are read as `""`. Every reader of those fields treats the two alike.
- The cached names `norm_web`, `norm_full` and `norm_second` of a player record are member functions of the record, not stored fields.
- `build_players_index` reads `el.get("id")`, so an element without an id would give `None`. The model's elements always carry an integer id, as `find_players`' `el["id"]` requires.
- `extract_teams` reads `t.get("id")`, so a team without an id would give `None`. The model's teams always carry an integer id, as `build_team_map`'s `t["id"]` requires.
- A list that is present but `null` makes the source raise `TypeError`, since `.get(key, [])` then gives `None` and the `for` loop fails. The model reads it as a missing list, that is as `[]`. This covers the snapshot's `elements` (`Roster.BuildPlayersIndex`, `Search.FindPlayers`), `element_types` (`Tables.BuildPositionMap`) and `teams` (`Tables.BuildTeamMap`, `TeamsList.ExtractTeams`), and a player's `history` in `extract_gameweek_scores` (`ScorePlot.ExtractGameweekScores`).
