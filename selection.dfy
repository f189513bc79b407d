/**
 * Choosing among several matches (player_data.py): the answer typed at the
 * `Selection` prompt is `a` for every match, nothing to cancel, or a
 * comma-separated list of 1-based match numbers. Numbers out of range are
 * dropped; any piece Python's `int()` rejects aborts with exit status 1.
 */
module Choice {
  import opened Wrappers
  import opened Text

  predicate IsDigit(c: char) { '0' <= c <= '9' }

  function DigitValue(c: char): nat
    requires IsDigit(c)
  {
    c as int - '0' as int
  }

  /** Decimal digits with single underscores between digits, as Python's `int()` accepts them. */
  predicate IsDigitString(s: string) {
    && s != [] && IsDigit(s[0]) && IsDigit(s[|s| - 1])
    && (forall i :: 0 <= i < |s| ==> IsDigit(s[i]) || s[i] == '_')
    && (forall i :: 0 < i < |s| ==> s[i - 1] != '_' || s[i] != '_')
  }

  /** The value of a digit string, underscores ignored. */
  function DigitsValue(s: string): nat
    requires forall i :: 0 <= i < |s| ==> IsDigit(s[i]) || s[i] == '_'
  {
    if s == [] then 0
    else
      var init := s[..|s| - 1];
      assert forall i :: 0 <= i < |init| ==> init[i] == s[i];
      if s[|s| - 1] == '_' then DigitsValue(init) else DigitsValue(init) * 10 + DigitValue(s[|s| - 1])
  }

  /** `int(t)` for a stripped string `t`: an optional sign, then a digit string; anything else raises `ValueError`. */
  function ParseInt(t: string): Option<int> {
    if t != [] && (t[0] == '+' || t[0] == '-') then
      if IsDigitString(t[1..]) then
        var v: int := DigitsValue(t[1..]);
        Some(if t[0] == '-' then -v else v)
      else None
    else if IsDigitString(t) then Some(DigitsValue(t))
    else None
  }

  /** Reading back what `str` writes gives the number again. */
  lemma ParseIntRoundTrip(i: int)
    ensures ParseInt(IntToString(i)) == Some(i)
  {
    if i < 0 {
      var s := IntToString(i);
      assert s == "-" + NatToString(-i);
      assert s[0] == '-' && s[1..] == NatToString(-i);
      NatDigits(-i);
      assert DigitsValue(s[1..]) == -i;
    } else {
      NatDigits(i);
    }
  }

  lemma {:induction false} NatDigits(n: nat)
    ensures IsDigitString(NatToString(n))
    ensures DigitsValue(NatToString(n)) == n
  {
    var s := NatToString(n);
    if n >= 10 {
      NatDigits(n / 10);
      var init := NatToString(n / 10);
      assert s == init + [DigitChar(n % 10)];
      assert s[..|s| - 1] == init;
    }
  }

  /** `[int(p.strip()) for p in pieces if p.strip()]`, or `None` when some `int()` raises. */
  function ParseParts(pieces: seq<string>): Option<seq<int>> {
    if pieces == [] then Some([])
    else
      match ParseParts(pieces[..|pieces| - 1])
      case None => None
      case Some(ps) =>
        var t := Strip(pieces[|pieces| - 1]);
        if t == "" then Some(ps)
        else
          match ParseInt(t)
          case None => None
          case Some(v) => Some(ps + [v])
  }

  /** One piece that `int()` accepts gives one number. */
  lemma ParseOnePart(p: string, v: int)
    requires ParseInt(Strip(p)) == Some(v)
    ensures ParseParts([p]) == Some([v])
  {
    assert [p][..0] == [];
    assert ParseParts([]) == Some([]);
    assert Strip(p) != "" by {
      assert ParseInt("") == None;
    }
    var pieces := [p];
    assert pieces[|pieces| - 1] == p;
    assert pieces[..|pieces| - 1] == [];
    assert ParseParts(pieces[..|pieces| - 1]) == Some([]);
    assert [] + [v] == [v];
  }

  /** `[p - 1 for p in parts if 1 <= p <= n]`. */
  function ZeroBased(ps: seq<int>, n: nat): seq<int> {
    if ps == [] then []
    else
      var p := ps[|ps| - 1];
      ZeroBased(ps[..|ps| - 1], n) + (if 1 <= p <= n then [p - 1] else [])
  }

  /** The outcome of the prompt. */
  datatype Selection =
    | Everything              // `a`: `list(range(len(matches)))`
    | Chosen(indices: seq<int>)
    | Cancelled               // empty answer: exit status 0
    | NothingValid            // no number in range: exit status 0
    | Invalid                 // `ValueError`: exit status 1

  /** What the answer `resp` selects among `n` matches (player_data.py, the prompt branch). */
  function ParseSelection(resp: string, n: nat): Selection {
    var r := Strip(resp);
    if Lower(r) == "a" then Everything
    else if r == "" then Cancelled
    else
      match ParseParts(SplitOn(r, ','))
      case None => Invalid
      case Some(ps) =>
        var selected := ZeroBased(ps, n);
        if selected == [] then NothingValid else Chosen(selected)
  }

  /** `selected`: every match unless there are several and `--write-all` was not given. */
  function SelectionFor(n: nat, writeAll: bool, resp: string): Selection {
    if n > 1 && !writeAll then ParseSelection(resp, n) else Everything
  }

  /** The kept numbers, made 0-based, are exactly the in-range ones. */
  lemma {:induction false} ZeroBasedMembers(ps: seq<int>, n: nat)
    ensures forall j :: j in ZeroBased(ps, n) <==> 0 <= j < n && j + 1 in ps
  {
    if ps != [] {
      var init := ps[..|ps| - 1];
      ZeroBasedMembers(init, n);
      assert ps == init + [ps[|ps| - 1]];
    }
  }

  /** Nothing is kept exactly when no number is from 1 to `n`. */
  lemma ZeroBasedEmpty(ps: seq<int>, n: nat)
    ensures ZeroBased(ps, n) == [] <==> forall p :: p in ps ==> !(1 <= p <= n)
  {
    var z := ZeroBased(ps, n);
    ZeroBasedMembers(ps, n);
    if z != [] {
      assert z[0] in z;
      assert z[0] + 1 in ps && 1 <= z[0] + 1 <= n;
    }
    forall p | p in ps && 1 <= p <= n ensures p - 1 in z {
      assert 0 <= p - 1 < n && (p - 1) + 1 in ps;
    }
  }

  /**
   * The answers and what they select: `a` or `A` (after stripping) selects
   * everything; an empty answer cancels; a list with a piece `int()` rejects
   * is invalid; a list with no number from 1 to `n` selects nothing valid;
   * otherwise the selection holds exactly the in-range numbers, made
   * 0-based, and is never empty.
   */
  lemma ParseSelectionMeaning(resp: string, n: nat)
    ensures var s := ParseSelection(resp, n); var r := Strip(resp);
      && (s == Everything <==> Lower(r) == "a")
      && (s == Cancelled <==> r == "")
      && (s == Invalid <==> Lower(r) != "a" && r != "" && ParseParts(SplitOn(r, ',')).None?)
      && (s == NothingValid <==>
            && Lower(r) != "a" && r != "" && ParseParts(SplitOn(r, ',')).Some?
            && forall p :: p in ParseParts(SplitOn(r, ',')).value ==> !(1 <= p <= n))
      && (s.Chosen? ==>
            && s.indices != []
            && ParseParts(SplitOn(r, ',')).Some?
            && (forall j :: j in s.indices <==> 0 <= j < n && j + 1 in ParseParts(SplitOn(r, ',')).value))
  {
    var r := Strip(resp);
    if r == "" {
      assert Lower(r) == "";
    }
    if Lower(r) != "a" && r != "" {
      var parsed := ParseParts(SplitOn(r, ','));
      if parsed.Some? {
        var ps := parsed.value;
        ZeroBasedMembers(ps, n);
        ZeroBasedEmpty(ps, n);
      }
    }
  }

  /** " 2" among three matches selects the second (zero-based index 1). */
  lemma SelectionExample()
    ensures ParseSelection(" 2", 3) == Chosen([1])
  {
    assert Strip(" 2") == "2" by {
      StripLeadingSpace(' ', "2");
      StripStripped("2");
      assert " 2" == [' '] + "2";
    }
    assert IndexOf("2", ',') == None;
    assert SplitOn("2", ',') == ["2"];
    StripStripped("2");
    assert ParseInt("2") == Some(2);
    ParseOnePart("2", 2);
    assert [2][..0] == [];
  }

  /** A number past the last match is dropped silently; with nothing left, nothing is valid. */
  lemma OutOfRangeExample()
    ensures ParseSelection("9", 3) == NothingValid
  {
    StripStripped("9");
    assert Lower("9") != "a";
    assert IndexOf("9", ',') == None;
    assert SplitOn("9", ',') == ["9"];
    assert ParseInt("9") == Some(9);
    ParseOnePart("9", 9);
    assert [9][..0] == [];
  }

  /** A non-number anywhere makes the whole answer invalid, even after valid numbers. */
  lemma InvalidExample()
    ensures ParseSelection("1,x", 3) == Invalid
  {
    var r := "1,x";
    StripStripped(r);
    assert Lower(r) != "a";
    assert SplitOn(r, ',') == ["1", "x"] by {
      assert IndexOf("x", ',') == None;
      assert SplitOn("x", ',') == ["x"];
      assert IndexOf(r, ',') == Some(1);
      assert r[..1] == "1" && r[2..] == "x";
      assert SplitOn(r, ',') == ["1"] + SplitOn("x", ',');
    }
    StripStripped("x");
    assert ParseInt("x") == None;
    assert ["1", "x"][..1] == ["1"];
  }
}
