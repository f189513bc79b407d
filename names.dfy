/**
 * The name normaliser of the squad validator (`normalize`, src/myfpl/validate.py
 * and its copy validate.py): strip accents, drop combining marks, turn `.` and
 * `-` into spaces, lower-case, collapse whitespace runs into one space and trim.
 */
module Names {
  import opened Wrappers
  import opened Text

  /** The per-character steps of `normalize`: accent folding, `.`/`-` to space, lower-casing. */
  function NormChar(c: char): char {
    var f := FoldAccent(c);
    LowerChar(if f == '.' || f == '-' then ' ' else f)
  }

  /** A character that the per-character steps leave alone. */
  predicate IsNormChar(c: char) {
    NormChar(c) == c
  }

  /** The per-character steps give a character they leave alone, never `.`, `-` or upper case. */
  lemma NormCharIsNormal(c: char)
    ensures IsNormChar(NormChar(c))
    ensures IsNormChar(c) ==> c != '.' && c != '-' && !IsUpper(c)
  {
    var f := FoldAccent(c);
    FoldAccentIdempotent(c);
    FoldLowerFixed(if f == '.' || f == '-' then ' ' else f);
  }

  function MapNormChar(s: string): (r: string)
    ensures |r| == |s|
    ensures forall i :: 0 <= i < |s| ==> r[i] == NormChar(s[i])
  {
    seq(|s|, i requires 0 <= i < |s| => NormChar(s[i]))
  }

  /**
   * `normalize(s)` for a string `s`. The combining marks are dropped after the
   * per-character steps rather than before them: those steps leave every mark
   * unchanged and never produce one, so the order does not matter.
   */
  function Normalize(s: string): string {
    Strip(Collapse(DropMarks(MapNormChar(s)), ' '))
  }

  /** `normalize` of a value that may be `None`: `None` gives the empty string. */
  function NormalizeOpt(s: Option<string>): string {
    match s
    case None => ""
    case Some(t) => Normalize(t)
  }

  /**
   * What `normalize` promises of its output: only characters it leaves alone
   * (so no `.`, no `-`, no upper case) and no combining mark, whitespace only
   * as single plain spaces, nothing to trim.
   */
  predicate IsNormal(s: string) {
    && (forall c :: c in s ==> IsNormChar(c) && !IsCombining(c))
    && NoSpaceRun(s)
    && SpacesArePlain(s)
    && (s == [] || (!IsSpace(s[0]) && !IsSpace(s[|s| - 1])))
  }

  /** The shape of `normalize`'s output. */
  lemma NormalizeIsNormal(s: string)
    ensures IsNormal(Normalize(s))
    ensures forall c :: c in Normalize(s) ==> c != '.' && c != '-' && !IsUpper(c) && !IsCombining(c)
  {
    MapNormCharNormal(s);
    var m := DropMarks(MapNormChar(s));
    var k := Collapse(m, ' ');
    CollapseKeepsNormal(m);
    StripKeepsNormal(k);
    forall c | c in Normalize(s) ensures c != '.' && c != '-' && !IsUpper(c) && !IsCombining(c) {
      NormCharIsNormal(c);
    }
  }

  lemma MapNormCharNormal(s: string)
    ensures forall c :: c in MapNormChar(s) ==> IsNormChar(c)
  {
    var m := MapNormChar(s);
    forall c | c in m ensures IsNormChar(c) {
      var i :| 0 <= i < |m| && m[i] == c;
      NormCharIsNormal(s[i]);
    }
  }

  lemma CollapseKeepsNormal(m: string)
    requires forall c :: c in m ==> IsNormChar(c) && !IsCombining(c)
    ensures forall c :: c in Collapse(m, ' ') ==> IsNormChar(c) && !IsCombining(c) && (IsSpace(c) ==> c == ' ')
    ensures NoSpaceRun(Collapse(m, ' '))
  {
    CollapseChars(m, ' ');
    CollapseNoSpaceRun(m, ' ');
    assert IsNormChar(' ');
  }

  lemma StripKeepsNormal(k: string)
    requires forall c :: c in k ==> IsNormChar(c) && !IsCombining(c) && (IsSpace(c) ==> c == ' ')
    requires NoSpaceRun(k)
    ensures IsNormal(Strip(k))
  {
    var r := Strip(k);
    var lo := |k| - |TrimStart(k)|;
    StripIsSlice(k);
    SliceChars(k, lo, lo + |r|);
    SliceNoSpaceRun(k, lo, lo + |r|);
    PlainSpaces(r);
  }

  /** Whitespace drawn only from plain spaces is plain, position by position. */
  lemma PlainSpaces(s: string)
    requires forall c :: c in s ==> IsSpace(c) ==> c == ' '
    ensures SpacesArePlain(s)
  {
    forall i | 0 <= i < |s| && IsSpace(s[i]) ensures s[i] == ' ' {
      assert s[i] in s;
    }
  }

  /** A normal string is its own normal form. */
  lemma NormalIsFixedPoint(s: string)
    requires IsNormal(s)
    ensures Normalize(s) == s
  {
    assert MapNormChar(s) == s by {
      forall i | 0 <= i < |s| ensures MapNormChar(s)[i] == s[i] {
        assert s[i] in s;
      }
    }
    DropMarksNone(s);
    CollapseIdentity(s);
    StripStripped(s);
  }

  /** `normalize` is idempotent. */
  lemma NormalizeIdempotent(s: string)
    ensures Normalize(Normalize(s)) == Normalize(s)
  {
    NormalizeIsNormal(s);
    NormalIsFixedPoint(Normalize(s));
  }

  /**
   * Strings that agree character by character up to accents, case and the
   * separators `.` and `-` normalise identically.
   */
  lemma NormalizeCharwise(s: string, t: string)
    requires |s| == |t|
    requires forall i :: 0 <= i < |s| ==> NormChar(s[i]) == NormChar(t[i])
    ensures Normalize(s) == Normalize(t)
  {
    assert MapNormChar(s) == MapNormChar(t);
  }

  /** A dotted initial normalises like a spaced one: `normalize("J.Timber") == normalize("J Timber")`. */
  lemma DottedInitialExample()
    ensures Normalize("J.Timber") == Normalize("J Timber")
  {
    NormalizeCharwise("J.Timber", "J Timber");
  }

  /** Accents and case do not matter: `normalize("Raya Martín") == normalize("raya martin")`. */
  lemma AccentExample()
    ensures Normalize("Raya Mart\U{00ED}n") == Normalize("raya martin")
  {
    NormalizeCharwise("Raya Mart\U{00ED}n", "raya martin");
  }

  /** Strings whose characters agree once marked and mapped normalise identically. */
  lemma NormalizeVia(s: string, t: string)
    requires DropMarks(MapNormChar(s)) == DropMarks(MapNormChar(t))
    ensures Normalize(s) == Normalize(t)
  {
  }

  /**
   * A mark that arrives already decomposed is dropped like the accent of a
   * precomposed letter: "Marti" + U+0301 + "n" normalises like "Martín".
   */
  lemma DecomposedAccentExample()
    ensures Normalize("Marti\U{0301}n") == Normalize("Mart\U{00ED}n")
  {
    MarkDropped();
    AccentFolded();
    NormalizeVia("Marti\U{0301}n", "Mart\U{00ED}n");
  }

  lemma MarkDropped()
    ensures DropMarks(MapNormChar("Marti\U{0301}n")) == "martin"
  {
    MapsDecomposed();
    DropsTheMark();
  }

  lemma MapsDecomposed()
    ensures MapNormChar("Marti\U{0301}n") == "marti\U{0301}n"
  {
  }

  lemma DropsTheMark()
    ensures DropMarks("marti\U{0301}n") == "martin"
  {
    var a, b := "marti", "n";
    assert "marti\U{0301}n" == a + ['\U{0301}'] + b;
    assert forall c :: c in a ==> !IsCombining(c);
    DropMarkBetween(a, '\U{0301}', b);
  }

  /** A mark between two texts without marks is dropped. */
  lemma DropMarkBetween(a: string, m: char, b: string)
    requires forall c :: c in a ==> !IsCombining(c)
    requires forall c :: c in b ==> !IsCombining(c)
    requires IsCombining(m)
    ensures DropMarks(a + [m] + b) == a + b
  {
    var am := a + [m];
    DropMarksAppend(a, [m]);
    DropMarksNone(a);
    assert DropMarks([m]) == [];
    assert DropMarks(am) == a;
    DropMarksAppend(am, b);
    DropMarksNone(b);
  }

  lemma AccentFolded()
    ensures DropMarks(MapNormChar("Mart\U{00ED}n")) == "martin"
  {
    assert MapNormChar("Mart\U{00ED}n") == "martin";
    DropMarksNone("martin");
  }
}
