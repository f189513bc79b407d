/**
 * `sanitize_filename` (src/myfpl/player.py and its copy player_data.py): the
 * file name a player's JSON is written under. Accents are dropped (Unicode
 * NFKD decomposition followed by removing the combining marks), the name is
 * lower-cased, every run of whitespace becomes one `_`, and every character
 * outside `[a-z0-9_]` is removed.
 */
module Filenames {
  import opened Text
  import opened Collections

  /** The characters the last substitution keeps: `[a-z0-9_]`. */
  predicate IsFileChar(c: char) {
    'a' <= c <= 'z' || '0' <= c <= '9' || c == '_'
  }

  function KeepFileChar(): char -> bool {
    c => IsFileChar(c)
  }

  /** The steps before the whitespace substitution: NFKD, dropping the combining marks, lower-casing. */
  function Prepare(name: string): string {
    Lower(DropMarks(FoldAccents(name)))
  }

  /** `sanitize_filename(name)`. */
  function SanitizeFilename(name: string): string {
    Filter(Collapse(Prepare(name), '_'), KeepFileChar())
  }

  /** Every character of a sanitised name is a lower-case ASCII letter, a digit or `_`. */
  lemma SanitizeAlphabet(name: string)
    ensures forall c :: c in SanitizeFilename(name) ==> IsFileChar(c)
  {
    FilterMembers(Collapse(Prepare(name), '_'), KeepFileChar());
  }

  /** A name made of file characters only is its own file name. */
  lemma SanitizeFileName(s: string)
    requires forall c :: c in s ==> IsFileChar(c)
    ensures SanitizeFilename(s) == s
  {
    FoldLowerFixedString(s);
    DropMarksNone(s);
    CollapseWithoutSpace(s, '_');
    FilterAllKept(s, KeepFileChar());
  }

  /** Sanitising twice is sanitising once. */
  lemma SanitizeIdempotent(name: string)
    ensures SanitizeFilename(SanitizeFilename(name)) == SanitizeFilename(name)
  {
    SanitizeAlphabet(name);
    SanitizeFileName(SanitizeFilename(name));
  }

  /**
   * `re.sub(r"\s+", "_", ...)` splits at a whitespace run: when the text
   * before the run does not end, and the text after it does not begin, with
   * whitespace or a combining mark, the file name is that of the text before,
   * one `_`, and that of the text after.
   */
  lemma SanitizeRunSplits(a: string, ws: string, b: string)
    requires a == [] || (!IsSpace(a[|a| - 1]) && !IsCombining(a[|a| - 1]))
    requires b == [] || (!IsSpace(b[0]) && !IsCombining(b[0]))
    requires ws != [] && forall c :: c in ws ==> IsSpace(c)
    ensures SanitizeFilename(a + ws + b) == SanitizeFilename(a) + "_" + SanitizeFilename(b)
  {
    PrepareSplit(a, ws, b);
    PrepareRun(ws);
    PrepareEnds(a, b);
    CollapseSplit(Prepare(a), Prepare(ws), Prepare(b), '_');
    FilterAroundKept(Collapse(Prepare(a), '_'), Collapse(Prepare(b), '_'));
  }

  lemma PrepareSplit(a: string, ws: string, b: string)
    ensures Prepare(a + ws + b) == Prepare(a) + Prepare(ws) + Prepare(b)
  {
    PrepareAppend(a, ws);
    PrepareAppend(a + ws, b);
  }

  /** A whitespace run between two texts that do not touch it with whitespace collapses to one `fill`. */
  lemma CollapseSplit(x: string, ws: string, y: string, fill: char)
    requires x == [] || !IsSpace(x[|x| - 1])
    requires ws != [] && forall c :: c in ws ==> IsSpace(c)
    requires y == [] || !IsSpace(y[0])
    ensures Collapse(x + ws + y, fill) == Collapse(x, fill) + [fill] + Collapse(y, fill)
  {
    CollapseRunBefore(ws, y, fill);
    CollapseAppend(x, ws + y, fill);
    assert x + ws + y == x + (ws + y);
  }

  /** The `_` between two texts survives the last substitution. */
  lemma FilterAroundKept(x: string, y: string)
    ensures Filter(x + "_" + y, KeepFileChar()) == Filter(x, KeepFileChar()) + "_" + Filter(y, KeepFileChar())
  {
    var f, u := KeepFileChar(), "_";
    FilterAppend(x, u + y, f);
    FilterAppend(u, y, f);
    assert x + u + y == x + (u + y);
    assert f(u[0]);
    FilterAllKept(u, f);
  }

  /**
   * Two words of file characters separated by any non-empty run of
   * whitespace become the two words joined by one `_`.
   */
  lemma SanitizeSpaceRun(a: string, ws: string, b: string)
    requires forall c :: c in a ==> IsFileChar(c)
    requires forall c :: c in b ==> IsFileChar(c)
    requires ws != [] && forall c :: c in ws ==> IsSpace(c)
    ensures SanitizeFilename(a + ws + b) == a + "_" + b
  {
    if a != [] {
      assert a[|a| - 1] in a;
    }
    if b != [] {
      assert b[0] in b;
    }
    SanitizeRunSplits(a, ws, b);
    SanitizeFileName(a);
    SanitizeFileName(b);
  }

  /** Folding keeps whether a character is whitespace or a combining mark; lower-casing keeps whitespace. */
  lemma PrepareChar(c: char)
    ensures IsSpace(FoldAccent(c)) <==> IsSpace(c)
    ensures IsCombining(FoldAccent(c)) <==> IsCombining(c)
    ensures IsSpace(LowerChar(c)) <==> IsSpace(c)
  {
  }

  lemma PrepareAppend(a: string, b: string)
    ensures Prepare(a + b) == Prepare(a) + Prepare(b)
  {
    assert FoldAccents(a + b) == FoldAccents(a) + FoldAccents(b);
    DropMarksAppend(FoldAccents(a), FoldAccents(b));
    var da, db := DropMarks(FoldAccents(a)), DropMarks(FoldAccents(b));
    assert Lower(da + db) == Lower(da) + Lower(db);
  }

  /** Whitespace is prepared into whitespace of the same length. */
  lemma PrepareRun(ws: string)
    requires forall c :: c in ws ==> IsSpace(c)
    ensures |Prepare(ws)| == |ws|
    ensures forall c :: c in Prepare(ws) ==> IsSpace(c)
  {
    var f := FoldAccents(ws);
    forall c | c in f ensures !IsCombining(c) && IsSpace(c) {
      var i :| 0 <= i < |f| && f[i] == c;
      assert ws[i] in ws;
      PrepareChar(ws[i]);
    }
    DropMarksNone(f);
    forall c | c in Prepare(ws) ensures IsSpace(c) {
      var i :| 0 <= i < |f| && Prepare(ws)[i] == c;
      assert f[i] in f;
      PrepareChar(f[i]);
    }
  }

  /** The prepared texts keep a last (first) character that is not whitespace. */
  lemma PrepareEnds(a: string, b: string)
    requires a == [] || (!IsSpace(a[|a| - 1]) && !IsCombining(a[|a| - 1]))
    requires b == [] || (!IsSpace(b[0]) && !IsCombining(b[0]))
    ensures var pa := Prepare(a); pa == [] || !IsSpace(pa[|pa| - 1])
    ensures var pb := Prepare(b); pb == [] || !IsSpace(pb[0])
  {
    if a != [] {
      var init, c := a[..|a| - 1], a[|a| - 1];
      assert a == init + [c];
      PrepareAppend(init, [c]);
      PrepareChar(c);
      PrepareChar(FoldAccent(c));
      assert FoldAccents([c]) == [FoldAccent(c)];
      assert DropMarks([FoldAccent(c)]) == [FoldAccent(c)];
      assert Prepare([c]) == [LowerChar(FoldAccent(c))];
    }
    if b != [] {
      var c, rest := b[0], b[1..];
      assert b == [c] + rest;
      PrepareAppend([c], rest);
      PrepareChar(c);
      PrepareChar(FoldAccent(c));
      assert FoldAccents([c]) == [FoldAccent(c)];
      assert DropMarks([FoldAccent(c)]) == [FoldAccent(c)];
      assert Prepare([c]) == [LowerChar(FoldAccent(c))];
    }
  }

  /** A non-empty whitespace run before a text that does not begin with whitespace collapses to one `fill`. */
  lemma CollapseRunBefore(ws: string, b: string, fill: char)
    requires ws != [] && forall c :: c in ws ==> IsSpace(c)
    requires b == [] || !IsSpace(b[0])
    ensures Collapse(ws + b, fill) == [fill] + Collapse(b, fill)
  {
    var x := ws + b;
    assert x[0] == ws[0];
    assert x[1..] == ws[1..] + b;
    assert forall c :: c in ws[1..] ==> c in ws;
    TrimRun(ws[1..], b);
  }

  /** Leading whitespace before a text that does not begin with whitespace is trimmed away exactly. */
  lemma {:induction false} TrimRun(ws: string, b: string)
    requires forall c :: c in ws ==> IsSpace(c)
    requires b == [] || !IsSpace(b[0])
    ensures TrimStart(ws + b) == b
    decreases |ws|
  {
    if ws == [] {
      assert ws + b == b;
    } else {
      assert ws[0] in ws;
      assert (ws + b)[1..] == ws[1..] + b;
      assert forall c :: c in ws[1..] ==> c in ws;
      TrimRun(ws[1..], b);
    }
  }

  /** Letters, digits, `_` and whitespace: folding and lower-casing leave such a string unchanged. */
  lemma FoldLowerFixedString(s: string)
    requires forall c :: c in s ==> IsFileChar(c) || IsSpace(c)
    ensures FoldAccents(s) == s
    ensures Lower(s) == s
    ensures forall c :: c in s ==> !IsCombining(c)
  {
    forall i | 0 <= i < |s| ensures FoldAccent(s[i]) == s[i] && LowerChar(s[i]) == s[i] {
      assert s[i] in s;
    }
  }

  /** A string without whitespace has nothing to collapse. */
  lemma {:induction false} CollapseWithoutSpace(s: string, fill: char)
    requires forall c :: c in s ==> !IsSpace(c)
    ensures Collapse(s, fill) == s
    decreases |s|
  {
    if s != [] {
      assert s[0] in s;
      assert forall c :: c in s[1..] ==> c in s;
      CollapseWithoutSpace(s[1..], fill);
      assert s == [s[0]] + s[1..];
    }
  }

  /** An accented capital is folded and lower-cased: "É" is filed as "e". */
  lemma AccentedLetterExample()
    ensures SanitizeFilename("\U{00C9}") == "e"
  {
    assert FoldAccents("\U{00C9}") == "E";
    assert DropMarks("E") == "E";
    assert Lower("E") == "e";
    assert Collapse("e", '_') == "e";
  }

  /**
   * A letter without a canonical decomposition is not folded but removed:
   * "Ø" is filed as nothing, so "Martin Ødegaard" becomes "martin_degaard".
   */
  lemma UndecomposedLetterExample()
    ensures SanitizeFilename("\U{00D8}") == ""
  {
    assert FoldAccents("\U{00D8}") == "\U{00D8}";
    assert DropMarks("\U{00D8}") == "\U{00D8}";
    assert Lower("\U{00D8}") == "\U{00F8}";
    assert Collapse("\U{00F8}", '_') == "\U{00F8}";
  }
}
