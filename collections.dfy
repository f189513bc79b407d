/**
 * List and dictionary shapes the engine builds over and over: a list kept by
 * a condition (a comprehension with `if`), "is a subsequence of", and a
 * dictionary filled by assignment in a loop, where a later key overwrites an
 * earlier one.
 */
module Collections {

  /** `[x for x in s if f(x)]`. */
  function Filter<T>(s: seq<T>, f: T -> bool): (r: seq<T>)
    ensures |r| <= |s|
  {
    if s == [] then []
    else Filter(s[..|s| - 1], f) + (if f(s[|s| - 1]) then [s[|s| - 1]] else [])
  }

  /** `Filter` keeps exactly the elements that pass, each no more often than in the input. */
  lemma {:induction false} FilterMembers<T>(s: seq<T>, f: T -> bool)
    ensures forall x :: x in Filter(s, f) <==> x in s && f(x)
    ensures multiset(Filter(s, f)) <= multiset(s)
  {
    if s != [] {
      var init := s[..|s| - 1];
      assert s == init + [s[|s| - 1]];
      FilterMembers(init, f);
    }
  }

  /** Filtering one more element of a prefix extends the result by that element or by nothing. */
  lemma FilterPrefixSnoc<T>(s: seq<T>, i: int, f: T -> bool)
    requires 0 <= i < |s|
    ensures Filter(s[..i + 1], f) == Filter(s[..i], f) + (if f(s[i]) then [s[i]] else [])
  {
    assert s[..i + 1][..i] == s[..i];
  }

  /** Filtering a list with one more element at the end. */
  lemma FilterSnoc<T>(s: seq<T>, x: T, f: T -> bool)
    ensures Filter(s + [x], f) == Filter(s, f) + (if f(x) then [x] else [])
  {
    assert (s + [x])[..|s|] == s;
  }

  /** Filtering distributes over concatenation. */
  lemma {:induction false} FilterAppend<T>(a: seq<T>, b: seq<T>, f: T -> bool)
    ensures Filter(a + b, f) == Filter(a, f) + Filter(b, f)
    decreases |b|
  {
    if b == [] {
      assert a + b == a;
    } else {
      var init := b[..|b| - 1];
      assert a + b == (a + init) + [b[|b| - 1]];
      assert b == init + [b[|b| - 1]];
      FilterAppend(a, init, f);
      FilterSnoc(a + init, b[|b| - 1], f);
      FilterSnoc(init, b[|b| - 1], f);
    }
  }

  /** Everything passes, everything is kept. */
  lemma {:induction false} FilterAllKept<T>(s: seq<T>, f: T -> bool)
    requires forall x :: x in s ==> f(x)
    ensures Filter(s, f) == s
  {
    if s != [] {
      var init := s[..|s| - 1];
      assert s == init + [s[|s| - 1]];
      FilterAllKept(init, f);
    }
  }

  /** Nothing passes, nothing is kept. */
  lemma {:induction false} FilterNoneKept<T>(s: seq<T>, f: T -> bool)
    requires forall x :: x in s ==> !f(x)
    ensures Filter(s, f) == []
  {
    if s != [] {
      assert s[|s| - 1] in s;
      FilterNoneKept(s[..|s| - 1], f);
    }
  }

  /** `a` can be obtained from `b` by deleting elements: same order, each element of `b` used at most once. */
  predicate IsSubsequence<T(==)>(a: seq<T>, b: seq<T>)
    decreases |b|
  {
    if a == [] then true
    else if b == [] then false
    else if a[|a| - 1] == b[|b| - 1] then IsSubsequence(a[..|a| - 1], b[..|b| - 1])
    else IsSubsequence(a, b[..|b| - 1])
  }

  lemma {:induction false} SubsequenceSnoc<T>(a: seq<T>, b: seq<T>, x: T)
    requires IsSubsequence(a, b)
    ensures IsSubsequence(a, b + [x])
    decreases |b|, 1
  {
    assert (b + [x])[..|b|] == b;
    if a != [] && a[|a| - 1] == x {
      SubsequenceDropLast(a, b);
    }
  }

  lemma {:induction false} SubsequenceDropLast<T>(a: seq<T>, b: seq<T>)
    requires a != [] && IsSubsequence(a, b)
    ensures IsSubsequence(a[..|a| - 1], b)
    decreases |b|, 0
  {
    var b' := b[..|b| - 1];
    assert b == b' + [b[|b| - 1]];
    if a[|a| - 1] == b[|b| - 1] {
      SubsequenceSnoc(a[..|a| - 1], b', b[|b| - 1]);
    } else {
      SubsequenceDropLast(a, b');
      SubsequenceSnoc(a[..|a| - 1], b', b[|b| - 1]);
    }
  }

  /** A subsequence of a subsequence is a subsequence. */
  lemma {:induction false} SubsequenceTransitive<T>(a: seq<T>, b: seq<T>, c: seq<T>)
    requires IsSubsequence(a, b) && IsSubsequence(b, c)
    ensures IsSubsequence(a, c)
    decreases |c|
  {
    if a != [] {
      var c' := c[..|c| - 1];
      assert c == c' + [c[|c| - 1]];
      if b[|b| - 1] == c[|c| - 1] {
        var b' := b[..|b| - 1];
        if a[|a| - 1] == b[|b| - 1] {
          SubsequenceTransitive(a[..|a| - 1], b', c');
        } else {
          SubsequenceTransitive(a, b', c');
          SubsequenceSnoc(a, c', c[|c| - 1]);
        }
      } else {
        SubsequenceTransitive(a, b, c');
        SubsequenceSnoc(a, c', c[|c| - 1]);
      }
    }
  }

  /** What `Filter` keeps is a subsequence of its input. */
  lemma {:induction false} FilterIsSubsequence<T>(s: seq<T>, f: T -> bool)
    ensures IsSubsequence(Filter(s, f), s)
  {
    if s != [] {
      var init := s[..|s| - 1];
      assert s == init + [s[|s| - 1]];
      FilterIsSubsequence(init, f);
      if !f(s[|s| - 1]) {
        assert Filter(s, f) == Filter(init, f);
        SubsequenceSnoc(Filter(init, f), init, s[|s| - 1]);
      }
    }
  }

  /** A list is a subsequence of itself. */
  lemma {:induction false} SubsequenceReflexive<T>(s: seq<T>)
    ensures IsSubsequence(s, s)
  {
    if s != [] {
      SubsequenceReflexive(s[..|s| - 1]);
    }
  }

  /** Keys assigned by a list of `(key, value)` assignments. */
  function AssignedKeys<K, V>(pairs: seq<(K, V)>): set<K> {
    set i | 0 <= i < |pairs| :: pairs[i].0
  }

  /**
   * The dictionary `d` after `d[k] = v` for each `(k, v)` of `pairs` in turn,
   * starting from `{}`.
   */
  function Assoc<K, V>(pairs: seq<(K, V)>): (m: map<K, V>)
    ensures m.Keys == AssignedKeys(pairs)
  {
    if pairs == [] then map[]
    else
      var init := pairs[..|pairs| - 1];
      var last := pairs[|pairs| - 1];
      assert AssignedKeys(pairs) == AssignedKeys(init) + {last.0} by {
        forall k | k in AssignedKeys(pairs) ensures k in AssignedKeys(init) + {last.0} {
          var i :| 0 <= i < |pairs| && pairs[i].0 == k;
          if i < |init| {
            assert init[i] == pairs[i];
          }
        }
        forall k | k in AssignedKeys(init) ensures k in AssignedKeys(pairs) {
          var i :| 0 <= i < |init| && init[i].0 == k;
          assert pairs[i] == init[i];
        }
      }
      Assoc(init)[last.0 := last.1]
  }

  lemma AssocSnoc<K, V>(pairs: seq<(K, V)>, k: K, v: V)
    ensures Assoc(pairs + [(k, v)]) == Assoc(pairs)[k := v]
  {
    assert (pairs + [(k, v)])[..|pairs|] == pairs;
  }

  /** `pairs[i]` is the last assignment to its key. */
  ghost predicate IsLastAssignment<K, V>(pairs: seq<(K, V)>, i: int) {
    0 <= i < |pairs| && forall j :: i < j < |pairs| ==> pairs[j].0 != pairs[i].0
  }

  /** A later assignment to a key overwrites an earlier one: the last one wins. */
  lemma {:induction false} AssocLastWins<K, V>(pairs: seq<(K, V)>, i: int)
    requires IsLastAssignment(pairs, i)
    ensures pairs[i].0 in Assoc(pairs) && Assoc(pairs)[pairs[i].0] == pairs[i].1
  {
    var init := pairs[..|pairs| - 1];
    if i < |pairs| - 1 {
      assert init[i] == pairs[i];
      assert IsLastAssignment(init, i) by {
        forall j | i < j < |init| ensures init[j].0 != init[i].0 {
          assert init[j] == pairs[j];
        }
      }
      AssocLastWins(init, i);
    }
  }

  /** The position of the last assignment to the key of `pairs[k]`. */
  lemma LastWith<K, V>(pairs: seq<(K, V)>, k: int) returns (j: int)
    requires 0 <= k < |pairs|
    ensures k <= j && IsLastAssignment(pairs, j) && pairs[j].0 == pairs[k].0
    decreases |pairs| - k
  {
    if exists m :: k < m < |pairs| && pairs[m].0 == pairs[k].0 {
      var m :| k < m < |pairs| && pairs[m].0 == pairs[k].0;
      j := LastWith(pairs, m);
    } else {
      j := k;
    }
  }
}
