/** Optional values: a JSON field that is missing or null is `None`. */
module Wrappers {

  datatype Option<+T> = None | Some(value: T) {

    /** The value, or `default` when there is none. */
    function GetOr(default: T): T {
      match this
      case Some(v) => v
      case None => default
    }
  }
}

/**
 * The string operations of Python's `str` and `re` that the model relies on,
 * over `seq<char>`: whitespace as `str.isspace` sees it, `strip`, `lower`,
 * `split`, `join`, `re.sub(r"\s+", …)`, substring search and `str(int)`.
 */
module Text {
  import opened Wrappers

  /** The characters Python's `str.isspace()` and the regex class `\s` accept. */
  predicate IsSpace(c: char) {
    || '\U{0009}' <= c <= '\U{000D}'
    || '\U{001C}' <= c <= '\U{0020}'
    || c == '\U{0085}' || c == '\U{00A0}' || c == '\U{1680}'
    || '\U{2000}' <= c <= '\U{200A}'
    || c == '\U{2028}' || c == '\U{2029}' || c == '\U{202F}' || c == '\U{205F}'
    || c == '\U{3000}'
  }

  /** Upper-case letters of ASCII and of the Latin-1 supplement. */
  predicate IsUpper(c: char) {
    'A' <= c <= 'Z' || ('\U{00C0}' <= c <= '\U{00DE}' && c != '\U{00D7}')
  }

  /** `str.lower()` on one character, for the letters `IsUpper` covers. */
  function LowerChar(c: char): (r: char)
    ensures !IsUpper(r)
    ensures !IsUpper(c) ==> r == c
  {
    if IsUpper(c) then (c as int + 32) as char else c
  }

  function Lower(s: string): (r: string)
    ensures |r| == |s|
    ensures forall i :: 0 <= i < |s| ==> r[i] == LowerChar(s[i])
  {
    seq(|s|, i requires 0 <= i < |s| => LowerChar(s[i]))
  }

  /** Chooses the upper- or lower-case `base` letter from the parity of `c`. */
  function ByParity(c: char, upperParity: int, base: char): (r: char)
    requires 'A' <= base <= 'Z'
    ensures 'A' <= r <= 'Z' || 'a' <= r <= 'z'
  {
    if (c as int) % 2 == upperParity then base else LowerChar(base)
  }

  /**
   * The base letter of a precomposed Latin letter, as Unicode NFKD followed by
   * dropping the combining marks gives it; other characters are unchanged.
   * Covers the Latin-1 supplement and Latin Extended-A.
   */
  function FoldAccent(c: char): (r: char)
    ensures r == c || 'A' <= r <= 'Z' || 'a' <= r <= 'z'
  {
    if c < '\U{00C0}' then c
    else if c < '\U{0100}' then FoldLatin1(c)
    else FoldExtendedA(c)
  }

  /** The letters of the Latin-1 supplement, from U+00C0 on. */
  function FoldLatin1(c: char): (r: char)
    requires '\U{00C0}' <= c < '\U{0100}'
    ensures r == c || 'A' <= r <= 'Z' || 'a' <= r <= 'z'
  {
    if '\U{00C0}' <= c <= '\U{00C5}' then 'A'
    else if c == '\U{00C7}' then 'C'
    else if '\U{00C8}' <= c <= '\U{00CB}' then 'E'
    else if '\U{00CC}' <= c <= '\U{00CF}' then 'I'
    else if c == '\U{00D1}' then 'N'
    else if '\U{00D2}' <= c <= '\U{00D6}' then 'O'
    else if '\U{00D9}' <= c <= '\U{00DC}' then 'U'
    else if c == '\U{00DD}' then 'Y'
    else if '\U{00E0}' <= c <= '\U{00E5}' then 'a'
    else if c == '\U{00E7}' then 'c'
    else if '\U{00E8}' <= c <= '\U{00EB}' then 'e'
    else if '\U{00EC}' <= c <= '\U{00EF}' then 'i'
    else if c == '\U{00F1}' then 'n'
    else if '\U{00F2}' <= c <= '\U{00F6}' then 'o'
    else if '\U{00F9}' <= c <= '\U{00FC}' then 'u'
    else if c == '\U{00FD}' || c == '\U{00FF}' then 'y'
    else c
  }

  /** The letters of Latin Extended-A. */
  function FoldExtendedA(c: char): (r: char)
    requires '\U{0100}' <= c
    ensures r == c || 'A' <= r <= 'Z' || 'a' <= r <= 'z'
  {
    if '\U{0100}' <= c <= '\U{0105}' then ByParity(c, 0, 'A')
    else if '\U{0106}' <= c <= '\U{010D}' then ByParity(c, 0, 'C')
    else if '\U{010E}' <= c <= '\U{010F}' then ByParity(c, 0, 'D')
    else if '\U{0112}' <= c <= '\U{011B}' then ByParity(c, 0, 'E')
    else if '\U{011C}' <= c <= '\U{0123}' then ByParity(c, 0, 'G')
    else if '\U{0124}' <= c <= '\U{0125}' then ByParity(c, 0, 'H')
    else if '\U{0128}' <= c <= '\U{012F}' then ByParity(c, 0, 'I')
    else if c == '\U{0130}' then 'I'
    else if '\U{0134}' <= c <= '\U{0135}' then ByParity(c, 0, 'J')
    else if '\U{0136}' <= c <= '\U{0137}' then ByParity(c, 0, 'K')
    else if '\U{0139}' <= c <= '\U{013E}' then ByParity(c, 1, 'L')
    else if '\U{0143}' <= c <= '\U{0148}' then ByParity(c, 1, 'N')
    else if '\U{014C}' <= c <= '\U{0151}' then ByParity(c, 0, 'O')
    else if '\U{0154}' <= c <= '\U{0159}' then ByParity(c, 0, 'R')
    else if '\U{015A}' <= c <= '\U{0161}' then ByParity(c, 0, 'S')
    else if '\U{0162}' <= c <= '\U{0165}' then ByParity(c, 0, 'T')
    else if '\U{0168}' <= c <= '\U{0173}' then ByParity(c, 0, 'U')
    else if '\U{0174}' <= c <= '\U{0175}' then ByParity(c, 0, 'W')
    else if '\U{0176}' <= c <= '\U{0177}' then ByParity(c, 0, 'Y')
    else if c == '\U{0178}' then 'Y'
    else if '\U{0179}' <= c <= '\U{017E}' then ByParity(c, 1, 'Z')
    else c
  }

  /** Folding yields plain ASCII for each letter it changes, so folding twice is folding once. */
  lemma FoldAccentIdempotent(c: char)
    ensures FoldAccent(FoldAccent(c)) == FoldAccent(c)
  {
  }

  /** Lower-casing a character that folding leaves alone gives another such character. */
  lemma FoldLowerFixed(c: char)
    requires FoldAccent(c) == c
    ensures FoldAccent(LowerChar(c)) == LowerChar(c)
  {
    if IsUpper(c) && c >= '\U{00C0}' {
      assert c == '\U{00C6}' || c == '\U{00D0}' || c == '\U{00D8}' || c == '\U{00DE}';
    }
  }

  function FoldAccents(s: string): (r: string)
    ensures |r| == |s|
    ensures forall i :: 0 <= i < |s| ==> r[i] == FoldAccent(s[i])
  {
    seq(|s|, i requires 0 <= i < |s| => FoldAccent(s[i]))
  }

  /**
   * `unicodedata.combining(c)` is non-zero, for the Combining Diacritical
   * Marks block: every mark of U+0300..U+036F except the combining grapheme
   * joiner U+034F, whose combining class is 0.
   */
  predicate IsCombining(c: char) {
    '\U{0300}' <= c <= '\U{036F}' && c != '\U{034F}'
  }

  /** `"".join(ch for ch in s if not unicodedata.combining(ch))`. */
  function DropMarks(s: string): (r: string)
    ensures |r| <= |s|
    ensures forall c :: c in r ==> c in s && !IsCombining(c)
  {
    if s == [] then []
    else (if IsCombining(s[0]) then [] else [s[0]]) + DropMarks(s[1..])
  }

  /** Dropping marks distributes over concatenation. */
  lemma {:induction false} DropMarksAppend(a: string, b: string)
    ensures DropMarks(a + b) == DropMarks(a) + DropMarks(b)
  {
    if a != [] {
      assert (a + b)[1..] == a[1..] + b;
      DropMarksAppend(a[1..], b);
    } else {
      assert a + b == b;
    }
  }

  /** A string without combining marks keeps all its characters. */
  lemma {:induction false} DropMarksNone(s: string)
    requires forall c :: c in s ==> !IsCombining(c)
    ensures DropMarks(s) == s
  {
    if s != [] {
      assert s[0] in s;
      assert forall c :: c in s[1..] ==> c in s;
      DropMarksNone(s[1..]);
      assert s == [s[0]] + s[1..];
    }
  }

  /** `s.lstrip()`: drops the leading whitespace. */
  function TrimStart(s: string): (r: string)
    ensures |r| <= |s|
    ensures r == [] || !IsSpace(r[0])
    ensures forall i :: 0 <= i < |s| - |r| ==> IsSpace(s[i])
  {
    if s != [] && IsSpace(s[0]) then TrimStart(s[1..]) else s
  }

  /** `s.rstrip()`: drops the trailing whitespace. */
  function TrimEnd(s: string): (r: string)
    ensures |r| <= |s|
    ensures r == [] || !IsSpace(r[|r| - 1])
    ensures forall i :: |r| <= i < |s| ==> IsSpace(s[i])
  {
    if s != [] && IsSpace(s[|s| - 1]) then TrimEnd(s[..|s| - 1]) else s
  }

  /** What `TrimStart` keeps is a suffix of its input. */
  lemma {:induction false} TrimStartIsSuffix(s: string)
    ensures TrimStart(s) == s[|s| - |TrimStart(s)|..]
    decreases |s|
  {
    if s != [] && IsSpace(s[0]) {
      TrimStartIsSuffix(s[1..]);
    }
  }

  /** What `TrimEnd` keeps is a prefix of its input. */
  lemma {:induction false} TrimEndIsPrefix(s: string)
    ensures TrimEnd(s) == s[..|TrimEnd(s)|]
    decreases |s|
  {
    if s != [] && IsSpace(s[|s| - 1]) {
      TrimEndIsPrefix(s[..|s| - 1]);
    }
  }

  /** `s.strip()`: a contiguous slice of `s` with no whitespace at either end. */
  function Strip(s: string): (r: string)
    ensures |r| <= |s|
    ensures r == [] || (!IsSpace(r[0]) && !IsSpace(r[|r| - 1]))
  {
    var t := TrimStart(s);
    TrimEndIsPrefix(t);
    TrimEnd(t)
  }

  /** What `Strip` keeps is the slice of its input after the leading whitespace. */
  lemma StripIsSlice(s: string)
    ensures |s| - |TrimStart(s)| + |Strip(s)| <= |s|
    ensures Strip(s) == s[|s| - |TrimStart(s)|..|s| - |TrimStart(s)| + |Strip(s)|]
  {
    var t := TrimStart(s);
    var r := TrimEnd(t);
    TrimStartIsSuffix(s);
    TrimEndIsPrefix(t);
    assert r == s[|s| - |t|..][..|r|] == s[|s| - |t|..|s| - |t| + |r|];
  }

  /** A string that is already stripped is left unchanged by `Strip`. */
  lemma StripStripped(s: string)
    requires s == [] || (!IsSpace(s[0]) && !IsSpace(s[|s| - 1]))
    ensures Strip(s) == s
  {
  }

  /** Leading whitespace does not survive `Strip`. */
  lemma StripLeadingSpace(c: char, s: string)
    requires IsSpace(c)
    ensures Strip([c] + s) == Strip(s)
  {
    assert ([c] + s)[1..] == s;
  }

  /** No two adjacent characters are both whitespace. */
  predicate NoSpaceRun(s: string) {
    forall i :: 0 < i < |s| ==> !IsSpace(s[i - 1]) || !IsSpace(s[i])
  }

  /** Every whitespace character of `s` is a plain space. */
  predicate SpacesArePlain(s: string) {
    forall i :: 0 <= i < |s| && IsSpace(s[i]) ==> s[i] == ' '
  }

  /** A slice of a string without whitespace runs has none either. */
  lemma SliceNoSpaceRun(s: string, i: nat, j: nat)
    requires i <= j <= |s| && NoSpaceRun(s)
    ensures NoSpaceRun(s[i..j])
  {
    var t := s[i..j];
    forall k | 0 < k < |t| ensures !IsSpace(t[k - 1]) || !IsSpace(t[k]) {
      assert t[k - 1] == s[i + k - 1] && t[k] == s[i + k];
    }
  }

  /**
   * `re.sub(r"\s+", [fill], s)`: every maximal run of whitespace becomes one
   * `fill` character.
   */
  function Collapse(s: string, fill: char): (r: string)
    ensures r == [] <==> s == []
    ensures r != [] ==> (IsSpace(s[0]) ==> r[0] == fill) && (!IsSpace(s[0]) ==> r[0] == s[0])
    decreases |s|
  {
    if s == [] then []
    else if IsSpace(s[0]) then [fill] + Collapse(TrimStart(s[1..]), fill)
    else [s[0]] + Collapse(s[1..], fill)
  }

  /** What `Collapse` emits is `fill` or a non-whitespace character of the input. */
  lemma {:induction false} CollapseChars(s: string, fill: char)
    ensures forall c :: c in Collapse(s, fill) ==> c == fill || (c in s && !IsSpace(c))
    decreases |s|
  {
    if s == [] {
    } else if IsSpace(s[0]) {
      var t := TrimStart(s[1..]);
      CollapseChars(t, fill);
      TrimStartIsSuffix(s[1..]);
      forall c | c in t ensures c in s {
        var i :| 0 <= i < |t| && t[i] == c;
        assert s[1..][|s[1..]| - |t| + i] == c;
      }
    } else {
      CollapseChars(s[1..], fill);
    }
  }

  /** With a whitespace `fill`, the output never has two whitespace characters in a row. */
  lemma {:induction false} CollapseNoSpaceRun(s: string, fill: char)
    requires IsSpace(fill)
    ensures NoSpaceRun(Collapse(s, fill))
    decreases |s|
  {
    if s == [] {
    } else if IsSpace(s[0]) {
      var t := TrimStart(s[1..]);
      CollapseNoSpaceRun(t, fill);
      var r := Collapse(s, fill);
      var u := Collapse(t, fill);
      assert r == [fill] + u;
      forall i | 0 < i < |r| ensures !IsSpace(r[i - 1]) || !IsSpace(r[i]) {
        if i == 1 {
          assert r[1] == u[0] == t[0];
        } else {
          assert r[i - 1] == u[i - 2] && r[i] == u[i - 1];
        }
      }
    } else {
      CollapseNoSpaceRun(s[1..], fill);
      var r := Collapse(s, fill);
      var u := Collapse(s[1..], fill);
      assert r == [s[0]] + u;
      forall i | 1 < i < |r| ensures !IsSpace(r[i - 1]) || !IsSpace(r[i]) {
        assert r[i - 1] == u[i - 2] && r[i] == u[i - 1];
      }
    }
  }

  /** A string whose whitespace is already single plain spaces is a fixed point. */
  lemma {:induction false} CollapseIdentity(s: string)
    requires NoSpaceRun(s) && SpacesArePlain(s)
    ensures Collapse(s, ' ') == s
    decreases |s|
  {
    if s != [] {
      var tail := s[1..];
      assert NoSpaceRun(tail) by {
        forall i | 0 < i < |tail| ensures !IsSpace(tail[i - 1]) || !IsSpace(tail[i]) {
          assert tail[i - 1] == s[i] && tail[i] == s[i + 1];
        }
      }
      assert SpacesArePlain(tail) by {
        forall i | 0 <= i < |tail| && IsSpace(tail[i]) ensures tail[i] == ' ' {
          assert tail[i] == s[i + 1];
        }
      }
      CollapseIdentity(tail);
      if IsSpace(s[0]) {
        assert |s| > 1 ==> !IsSpace(s[1]);
        assert TrimStart(tail) == tail;
      }
    }
  }

  /** Collapsing distributes over a boundary between two non-whitespace characters. */
  lemma {:induction false} CollapseAppend(a: string, b: string, fill: char)
    requires a != [] ==> !IsSpace(a[|a| - 1])
    ensures Collapse(a + b, fill) == Collapse(a, fill) + Collapse(b, fill)
    decreases |a|, 1
  {
    if a == [] {
      assert a + b == b;
    } else if IsSpace(a[0]) {
      CollapseAppendAtSpace(a, b, fill);
    } else {
      CollapseAppendAtChar(a, b, fill);
    }
  }

  lemma {:induction false} CollapseAppendAtSpace(a: string, b: string, fill: char)
    requires a != [] && IsSpace(a[0]) && !IsSpace(a[|a| - 1])
    ensures Collapse(a + b, fill) == Collapse(a, fill) + Collapse(b, fill)
    decreases |a|, 0
  {
    var ab := a + b;
    assert ab[0] == a[0];
    assert ab[1..] == a[1..] + b;
    var t := TrimStart(a[1..]);
    assert TrimStart(ab[1..]) == t + b by {
      TrimStartKeepsLast(a[1..]);
      TrimStartAppend(a[1..], b);
    }
    assert Collapse(t + b, fill) == Collapse(t, fill) + Collapse(b, fill) by {
      TrimStartKeepsLast(a[1..]);
      CollapseAppend(t, b, fill);
    }
    assert Collapse(ab, fill) == [fill] + Collapse(t + b, fill);
    assert Collapse(a, fill) == [fill] + Collapse(t, fill);
  }

  lemma {:induction false} CollapseAppendAtChar(a: string, b: string, fill: char)
    requires a != [] && !IsSpace(a[0]) && !IsSpace(a[|a| - 1])
    ensures Collapse(a + b, fill) == Collapse(a, fill) + Collapse(b, fill)
    decreases |a|, 0
  {
    var ab := a + b;
    assert ab[0] == a[0];
    assert ab[1..] == a[1..] + b;
    assert Collapse(a[1..] + b, fill) == Collapse(a[1..], fill) + Collapse(b, fill) by {
      CollapseAppend(a[1..], b, fill);
    }
    assert Collapse(ab, fill) == [a[0]] + Collapse(a[1..] + b, fill);
    assert Collapse(a, fill) == [a[0]] + Collapse(a[1..], fill);
  }

  /** Trimming the front of a string that ends in a non-space keeps that last character. */
  lemma TrimStartKeepsLast(s: string)
    requires s != [] && !IsSpace(s[|s| - 1])
    ensures TrimStart(s) != [] && TrimStart(s)[|TrimStart(s)| - 1] == s[|s| - 1]
  {
    assert !IsSpace(s[|s| - 1]);
  }

  lemma {:induction false} TrimStartAppend(a: string, b: string)
    requires TrimStart(a) != []
    ensures TrimStart(a + b) == TrimStart(a) + b
    decreases |a|
  {
    if IsSpace(a[0]) {
      assert (a + b)[1..] == a[1..] + b;
      TrimStartAppend(a[1..], b);
    }
  }

  /** The longest prefix of `s` that has no whitespace. */
  function Word(s: string): (r: string)
    ensures |r| <= |s|
    ensures forall c :: c in r ==> !IsSpace(c)
    ensures s != [] && !IsSpace(s[0]) ==> r != []
    ensures |r| < |s| ==> IsSpace(s[|r|])
  {
    if s == [] || IsSpace(s[0]) then [] else [s[0]] + Word(s[1..])
  }

  /** What `Word` returns is a prefix of its input. */
  lemma {:induction false} WordIsPrefix(s: string)
    ensures Word(s) == s[..|Word(s)|]
    decreases |s|
  {
    if s != [] && !IsSpace(s[0]) {
      WordIsPrefix(s[1..]);
    }
  }

  /** `s.split()`: the maximal runs of non-whitespace characters, in order. */
  function Words(s: string): (ws: seq<string>)
    decreases |s|
  {
    var t := TrimStart(s);
    if t == [] then []
    else
      var w := Word(t);
      [w] + Words(t[|w|..])
  }

  /** Every word uses only characters of `s`. */
  lemma {:induction false} WordsChars(s: string)
    ensures forall w, c :: w in Words(s) && c in w ==> c in s
    decreases |s|
  {
    var t := TrimStart(s);
    if t != [] {
      var w := Word(t);
      var rest := t[|w|..];
      WordsChars(rest);
      TrimStartIsSuffix(s);
      WordIsPrefix(t);
      assert Words(s) == [w] + Words(rest);
      SliceChars(s, |s| - |t|, |s|);
      SliceChars(t, |w|, |t|);
      SliceChars(t, 0, |w|);
    }
  }

  /** A slice uses only characters of the whole. */
  lemma SliceChars(s: string, i: nat, j: nat)
    requires i <= j <= |s|
    ensures forall c :: c in s[i..j] ==> c in s
  {
    forall c | c in s[i..j] ensures c in s {
      var k :| 0 <= k < j - i && s[i..j][k] == c;
      assert s[i + k] == c;
    }
  }

  /** `Strip` introduces no character. */
  lemma StripKeepsOut(s: string, c: char)
    requires c !in s
    ensures c !in Strip(s)
  {
    var lo := |s| - |TrimStart(s)|;
    StripIsSlice(s);
    SliceChars(s, lo, lo + |Strip(s)|);
  }

  /** `sep.join(ws)`. */
  function Join(ws: seq<string>, sep: string): string {
    if ws == [] then []
    else if |ws| == 1 then ws[0]
    else ws[0] + sep + Join(ws[1..], sep)
  }

  /** `p` is a prefix of `s`. */
  predicate IsPrefix(p: string, s: string) {
    |p| <= |s| && s[..|p|] == p
  }

  /** Python's `p in s` on strings: `p` occurs in `s` at some position. */
  predicate Contains(s: string, p: string)
    decreases |s|
  {
    IsPrefix(p, s) || (s != [] && Contains(s[1..], p))
  }

  /** `p` occurs in `s` starting at offset `k`. */
  predicate OccursAt(s: string, p: string, k: int) {
    0 <= k <= |s| - |p| && s[k..k + |p|] == p
  }

  /** `Contains` is exactly "occurs at some offset". */
  lemma {:induction false} ContainsAt(s: string, p: string)
    ensures Contains(s, p) <==> exists k :: OccursAt(s, p, k)
    decreases |s|
  {
    if IsPrefix(p, s) {
      assert OccursAt(s, p, 0);
    }
    if s != [] {
      ContainsAt(s[1..], p);
      if Contains(s[1..], p) {
        var k :| OccursAt(s[1..], p, k);
        assert s[k + 1..k + 1 + |p|] == s[1..][k..k + |p|];
        assert OccursAt(s, p, k + 1);
      }
      forall k | OccursAt(s, p, k) ensures k == 0 || OccursAt(s[1..], p, k - 1) {
        if k > 0 {
          assert s[1..][k - 1..k - 1 + |p|] == s[k..k + |p|];
        }
      }
    }
  }

  /** The first position of `c` in `s`, as `str.find` would report it. */
  function IndexOf(s: string, c: char): (r: Option<nat>)
    ensures r.None? <==> c !in s
    ensures r.Some? ==> r.value < |s| && s[r.value] == c && c !in s[..r.value]
  {
    if s == [] then None
    else if s[0] == c then Some(0)
    else
      match IndexOf(s[1..], c)
      case None => None
      case Some(k) =>
        assert s[..k + 1] == [s[0]] + s[1..][..k];
        Some(k + 1)
  }

  /** `s.split(c)`: the pieces between the occurrences of `c`. */
  function SplitOn(s: string, c: char): (parts: seq<string>)
    ensures |parts| >= 1
    ensures forall p :: p in parts ==> c !in p
    decreases |s|
  {
    match IndexOf(s, c)
    case None => [s]
    case Some(k) => [s[..k]] + SplitOn(s[k + 1..], c)
  }

  /** Splitting at `c` and joining with `c` gives the string back. */
  lemma {:induction false} SplitOnJoin(s: string, c: char)
    ensures Join(SplitOn(s, c), [c]) == s
    decreases |s|
  {
    var k := IndexOf(s, c);
    if k.None? {
      assert SplitOn(s, c) == [s];
    } else {
      var i := k.value;
      var head, rest := s[..i], s[i + 1..];
      var ps := SplitOn(rest, c);
      assert SplitOn(s, c) == [head] + ps;
      SplitOnJoin(rest, c);
      JoinCons(head, ps, [c]);
      SplitAround(s, i);
    }
  }

  /** Joining pieces that do not contain `c` with `c` and splitting at `c` gives the pieces back. */
  lemma {:induction false} JoinSplitOn(ws: seq<string>, c: char)
    requires ws != []
    requires forall w :: w in ws ==> c !in w
    ensures SplitOn(Join(ws, [c]), c) == ws
  {
    var w := ws[0];
    assert w in ws;
    if |ws| == 1 {
      assert Join(ws, [c]) == w;
    } else {
      var tl := ws[1..];
      assert forall x :: x in tl ==> x in ws;
      var rest := Join(tl, [c]);
      var s := w + [c] + rest;
      assert Join(ws, [c]) == s;
      IndexOfAfter(w, c, rest);
      assert s[..|w|] == w;
      assert s[|w| + 1..] == rest;
      assert SplitOn(s, c) == [w] + SplitOn(rest, c);
      JoinSplitOn(tl, c);
      assert ws == [w] + tl;
    }
  }

  /** The first `c` in `a + [c] + b` is the one after `a` when `a` has none. */
  lemma {:induction false} IndexOfAfter(a: string, c: char, b: string)
    requires c !in a
    ensures IndexOf(a + [c] + b, c) == Some(|a|)
  {
    var s := a + [c] + b;
    if a == [] {
      assert s[0] == c;
    } else {
      assert a[0] in a;
      assert s[0] == a[0];
      assert s[1..] == a[1..] + [c] + b;
      IndexOfAfter(a[1..], c, b);
    }
  }

  lemma SplitAround(s: string, i: nat)
    requires i < |s|
    ensures s == s[..i] + [s[i]] + s[i + 1..]
  {
    assert s[i..] == [s[i]] + s[i + 1..];
    assert s == s[..i] + s[i..];
  }

  lemma JoinCons(w: string, ws: seq<string>, sep: string)
    requires ws != []
    ensures Join([w] + ws, sep) == w + sep + Join(ws, sep)
  {
    assert ([w] + ws)[1..] == ws;
  }

  function DigitChar(d: nat): (c: char)
    requires d < 10
    ensures '0' <= c <= '9'
  {
    ('0' as int + d) as char
  }

  function NatToString(n: nat): (r: string)
    ensures r != []
    ensures forall c :: c in r ==> '0' <= c <= '9'
  {
    if n < 10 then [DigitChar(n)] else NatToString(n / 10) + [DigitChar(n % 10)]
  }

  /** `str(i)` for an integer: optional minus sign, then decimal digits. */
  function IntToString(i: int): (r: string)
    ensures r != []
    ensures forall c :: c in r ==> c == '-' || '0' <= c <= '9'
  {
    if i < 0 then "-" + NatToString(-i) else NatToString(i)
  }
}
