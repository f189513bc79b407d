/**
 * teams_list.py: the team records of a bootstrap snapshot (`extract_teams`)
 * and their CSV rendering (`--format csv`). Each text field is quoted, with
 * an inner `"` doubled, as section 2 rule 7 of RFC 4180 prescribes.
 */
module TeamsList {
  import opened Wrappers
  import opened Text
  import opened Bootstrap
  import opened Tables
  import opened Choice

  /** `extract_teams(bootstrap)`: one record per team of `bootstrap.get("teams", [])`, in input order. */
  method ExtractTeams(b: Snapshot) returns (teams: seq<TeamRecord>)
    ensures b.teams.None? ==> teams == []
    ensures |teams| == |TeamsOf(b)|
    ensures forall i :: 0 <= i < |teams| ==>
      var t := TeamsOf(b)[i];
      teams[i] == TeamRecord(t.id, t.name, t.shortName, t.code)
  {
    var ts := TeamsOf(b);
    teams := [];
    for i := 0 to |ts|
      invariant |teams| == i
      invariant forall j :: 0 <= j < i ==> teams[j] == RecordOf(ts[j])
    {
      var t := ts[i];
      teams := teams + [TeamRecord(t.id, t.name, t.shortName, t.code)];
    }
  }

  /** `s.replace('"', '""')`. */
  function Escape(s: string): (r: string)
    ensures |r| >= |s|
    ensures forall c :: c in r ==> c in s
  {
    if s == [] then []
    else (if s[0] == '"' then "\"\"" else [s[0]]) + Escape(s[1..])
  }

  /** Escaping distributes over concatenation. */
  lemma {:induction false} EscapeAppend(a: string, b: string)
    ensures Escape(a + b) == Escape(a) + Escape(b)
  {
    if a == [] {
      assert a + b == b;
    } else {
      assert (a + b)[1..] == a[1..] + b;
      EscapeAppend(a[1..], b);
    }
  }

  /** A text without `"` is left as it is. */
  lemma {:induction false} EscapePlain(w: string)
    requires '"' !in w
    ensures Escape(w) == w
  {
    if w != [] {
      assert forall c :: c in w[1..] ==> c in w;
      EscapePlain(w[1..]);
      assert w == [w[0]] + w[1..];
    }
  }

  /** Quote-free pieces joined by `"` escape to the same pieces joined by `""`. */
  lemma {:induction false} EscapeJoin(ws: seq<string>)
    requires forall w :: w in ws ==> '"' !in w
    ensures Escape(Join(ws, "\"")) == Join(ws, "\"\"")
  {
    if |ws| == 1 {
      EscapePlain(ws[0]);
    } else if |ws| > 1 {
      assert forall w :: w in ws[1..] ==> w in ws;
      EscapeJoin(ws[1..]);
      EscapeAppend(ws[0] + "\"", Join(ws[1..], "\""));
      EscapeAppend(ws[0], "\"");
      EscapePlain(ws[0]);
      assert Join(ws, "\"") == (ws[0] + "\"") + Join(ws[1..], "\"");
    }
  }

  /** What `s.replace('"', '""')` means: the pieces between the quotes, joined by doubled quotes. */
  lemma EscapeMeaning(s: string)
    ensures Escape(s) == Join(SplitOn(s, '"'), "\"\"")
  {
    SplitOnJoin(s, '"');
    EscapeJoin(SplitOn(s, '"'));
  }

  /** `t[...] or ''`. */
  function TextOr(o: Option<string>): string {
    if o.Some? then o.value else ""
  }

  const Header: string := "id,short_name,name"

  /** The CSV line of one team: `{id},"{short}","{name}"`. */
  function CsvRow(t: TeamRecord): (r: string)
    ensures forall c :: c in r ==> c in IntToString(t.id) || c == ',' || c == '"' || c in TextOr(t.shortName) || c in TextOr(t.name)
  {
    IntToString(t.id) + ",\"" + Escape(TextOr(t.shortName)) + "\",\"" + Escape(TextOr(t.name)) + "\""
  }

  function CsvRows(teams: seq<TeamRecord>): seq<string> {
    seq(|teams|, i requires 0 <= i < |teams| => CsvRow(teams[i]))
  }

  /** The CSV branch of the command: the header, then one row per team, joined by newlines. */
  method CsvText(teams: seq<TeamRecord>) returns (text: string)
    ensures text == Join([Header] + CsvRows(teams), "\n")
  {
    var rows := [Header];
    for i := 0 to |teams|
      invariant rows == [Header] + CsvRows(teams[..i])
    {
      var t := teams[i];
      var name := TextOr(t.name);
      var short := TextOr(t.shortName);
      assert CsvRows(teams[..i + 1]) == CsvRows(teams[..i]) + [CsvRow(t)];
      rows := rows + [IntToString(t.id) + ",\"" + Escape(short) + "\",\"" + Escape(name) + "\""];
    }
    assert teams[..|teams|] == teams;
    text := Join(rows, "\n");
  }

  /**
   * Reading one quoted field back (a reader's side of the rule): the text up
   * to the first lone `"`, with each `""` read as `"`, and what follows it.
   */
  function ReadQuoted(s: string): Option<(string, string)>
    decreases |s|
  {
    if s == [] then None
    else if s[0] == '"' then
      if |s| > 1 && s[1] == '"' then
        match ReadQuoted(s[2..])
        case None => None
        case Some(p) => Some(("\"" + p.0, p.1))
      else Some(([], s[1..]))
    else
      match ReadQuoted(s[1..])
      case None => None
      case Some(p) => Some(([s[0]] + p.0, p.1))
  }

  /**
   * An escaped field followed by its closing quote reads back as the field,
   * provided what follows the closing quote is not another quote.
   */
  lemma {:induction false} ReadEscaped(x: string, rest: string)
    requires rest == [] || rest[0] != '"'
    ensures ReadQuoted(Escape(x) + "\"" + rest) == Some((x, rest))
  {
    var s := Escape(x) + "\"" + rest;
    if x == [] {
      assert s == "\"" + rest;
      assert s[1..] == rest;
    } else {
      ReadEscaped(x[1..], rest);
      var tail := Escape(x[1..]) + "\"" + rest;
      if x[0] == '"' {
        assert s == "\"\"" + tail;
        assert s[2..] == tail;
        assert "\"" + x[1..] == x;
      } else {
        assert s == [x[0]] + tail;
        assert s[1..] == tail;
        assert [x[0]] + x[1..] == x;
      }
    }
  }

  /**
   * Reading one CSV line back into `(id, short_name, name)`: the number up
   * to the first comma, then two quoted fields separated by a comma.
   */
  function ParseRow(line: string): Option<(int, string, string)> {
    match IndexOf(line, ',')
    case None => None
    case Some(k) => ParseFields(ParseInt(line[..k]), line[k + 1..])
  }

  /** The part after the first comma: the quoted short name, then the rest. */
  function ParseFields(id: Option<int>, rest: string): Option<(int, string, string)> {
    if id.None? || rest == [] || rest[0] != '"' then None
    else
      match ReadQuoted(rest[1..])
      case None => None
      case Some(p) => ParseName(id.value, p.0, p.1)
  }

  /** The part after the short name: a comma, the quoted name, and nothing else. */
  function ParseName(id: int, short: string, after: string): Option<(int, string, string)> {
    if |after| < 2 || after[0] != ',' || after[1] != '"' then None
    else
      match ReadQuoted(after[2..])
      case None => None
      case Some(q) => if q.1 == [] then Some((id, short, q.0)) else None
  }

  lemma NameReadBack(id: int, short: string, name: string)
    ensures ParseName(id, short, ",\"" + Escape(name) + "\"") == Some((id, short, name))
  {
    var after := ",\"" + Escape(name) + "\"";
    assert after[2..] == Escape(name) + "\"" + [];
    ReadEscaped(name, []);
  }

  lemma FieldsReadBack(id: int, short: string, name: string)
    ensures ParseFields(Some(id), "\"" + Escape(short) + "\",\"" + Escape(name) + "\"") == Some((id, short, name))
  {
    var after := ",\"" + Escape(name) + "\"";
    var rest := "\"" + Escape(short) + "\",\"" + Escape(name) + "\"";
    assert rest[1..] == Escape(short) + "\"" + after;
    ReadEscaped(short, after);
    NameReadBack(id, short, name);
  }

  /** Every CSV row reads back as the team's id, short name and name (`None` read as empty). */
  lemma RowRoundTrip(t: TeamRecord)
    ensures ParseRow(CsvRow(t)) == Some((t.id, TextOr(t.shortName), TextOr(t.name)))
  {
    var ids := IntToString(t.id);
    var short := TextOr(t.shortName);
    var name := TextOr(t.name);
    var rest := "\"" + Escape(short) + "\",\"" + Escape(name) + "\"";
    var line := CsvRow(t);
    assert line == ids + [','] + rest;
    IndexOfAfter(ids, ',', rest);
    assert line[..|ids|] == ids;
    assert line[|ids| + 1..] == rest;
    ParseIntRoundTrip(t.id);
    FieldsReadBack(t.id, short, name);
  }

  /**
   * When no name contains a newline, the text has exactly the header line
   * followed by one line per team, in order.
   */
  lemma CsvLines(teams: seq<TeamRecord>)
    requires forall i :: 0 <= i < |teams| ==> '\n' !in TextOr(teams[i].shortName) && '\n' !in TextOr(teams[i].name)
    ensures SplitOn(Join([Header] + CsvRows(teams), "\n"), '\n') == [Header] + CsvRows(teams)
    ensures |SplitOn(Join([Header] + CsvRows(teams), "\n"), '\n')| == 1 + |teams|
  {
    var rows := CsvRows(teams);
    var lines := [Header] + rows;
    assert '\n' !in Header;
    forall w | w in lines ensures '\n' !in w {
      if w != Header {
        assert w in rows;
        var i :| 0 <= i < |rows| && rows[i] == w;
        assert '\n' !in IntToString(teams[i].id);
      }
    }
    JoinSplitOn(lines, '\n');
  }
}
