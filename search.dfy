/**
 * `find_players` (src/myfpl/player.py and player_data.py): free-text lookup
 * of roster elements. Every element is filed under its web, full, second and
 * first names, stripped and lower-cased; a query is answered by the first of
 * three tiers that finds anything: an exact key, the keys containing the
 * query, and the single closest key. Every tier removes duplicate ids.
 *
 * The closest key is the answer of `difflib.get_close_matches(q, candidates,
 * n=1, cutoff=0.6)`, which is a parameter here: `None` or one of the keys.
 *
 * The index and the tiers are stated for any way `keys` of filing an element;
 * `find_players` files it under `KeysOf`.
 */
module Search {
  import opened Wrappers
  import opened Text
  import opened Collections
  import opened Bootstrap

  // ---------------------------------------------------------------- keys

  /** `q = query.strip().lower()`. */
  function Query(query: string): string {
    Lower(Strip(query))
  }

  /** The four names of an element, each stripped: web, full, second and first name. */
  function NamesOf(el: Element): (r: seq<string>)
    ensures |r| == 4
  {
    var first := el.firstName.GetOr("");
    var second := el.secondName.GetOr("");
    [Strip(el.webName.GetOr("")), Strip(first + " " + second), Strip(second), Strip(first)]
  }

  /** The distinct entries of a list, each at its first position: iterating the set `{web, full, alt, first}`. */
  function Distinct(s: seq<string>): (r: seq<string>)
    ensures forall x :: x in r <==> x in s
    ensures forall i, j :: 0 <= i < j < |r| ==> r[i] != r[j]
  {
    if s == [] then []
    else
      var init := Distinct(s[..|s| - 1]);
      var last := s[|s| - 1];
      assert s == s[..|s| - 1] + [last];
      if last in init then init else init + [last]
  }

  /** The keys made of a list of names: each non-empty name, lower-cased, in order. */
  function KeyList(nms: seq<string>): seq<string> {
    if nms == [] then []
    else KeyList(nms[..|nms| - 1]) + (if nms[|nms| - 1] == "" then [] else [Lower(nms[|nms| - 1])])
  }

  lemma KeyListSnoc(nms: seq<string>, j: int)
    requires 0 <= j < |nms|
    ensures KeyList(nms[..j + 1]) == KeyList(nms[..j]) + (if nms[j] == "" then [] else [Lower(nms[j])])
  {
    assert nms[..j + 1][..j] == nms[..j];
  }

  lemma {:induction false} KeyListMembers(nms: seq<string>)
    ensures forall k :: k in KeyList(nms) <==> exists i :: 0 <= i < |nms| && nms[i] != "" && Lower(nms[i]) == k
  {
    if nms != [] {
      var init := nms[..|nms| - 1];
      KeyListMembers(init);
      assert forall i :: 0 <= i < |init| ==> init[i] == nms[i];
    }
  }

  /** Removing repeated names removes no key. */
  lemma DistinctKeys(nms: seq<string>)
    ensures forall k :: k in KeyList(Distinct(nms)) <==> k in KeyList(nms)
  {
    var d := Distinct(nms);
    KeyListMembers(d);
    KeyListMembers(nms);
    forall k | k in KeyList(d) ensures k in KeyList(nms) {
      var i :| 0 <= i < |d| && d[i] != "" && Lower(d[i]) == k;
      assert d[i] in nms;
      var j :| 0 <= j < |nms| && nms[j] == d[i];
    }
    forall k | k in KeyList(nms) ensures k in KeyList(d) {
      var i :| 0 <= i < |nms| && nms[i] != "" && Lower(nms[i]) == k;
      assert nms[i] in d;
      var j :| 0 <= j < |d| && d[j] == nms[i];
    }
  }

  /** The keys an element is filed under, in filing order. */
  function KeysOf(el: Element): seq<string> {
    KeyList(Distinct(NamesOf(el)))
  }

  /** An element is filed under exactly the lower-cased forms of its non-empty names. */
  lemma KeysOfNames(el: Element)
    ensures forall k :: k in KeysOf(el) <==>
      exists i :: 0 <= i < |NamesOf(el)| && NamesOf(el)[i] != "" && Lower(NamesOf(el)[i]) == k
  {
    DistinctKeys(NamesOf(el));
    KeyListMembers(NamesOf(el));
  }

  /** `KeysOf` as a value, the filing `find_players` uses. */
  function FileKeys(): Element -> seq<string> {
    el => KeysOf(el)
  }

  // ---------------------------------------------------------------- index

  /** One element filed under each of a list of keys. */
  function Pair(ks: seq<string>, x: Element): (r: seq<(string, Element)>)
    ensures |r| == |ks|
    ensures forall i :: 0 <= i < |ks| ==> r[i] == (ks[i], x)
  {
    seq(|ks|, i requires 0 <= i < |ks| => (ks[i], x))
  }

  lemma PairSnoc(ks: seq<string>, k: string, x: Element)
    ensures Pair(ks + [k], x) == Pair(ks, x) + [(k, x)]
  {
  }

  /** Every filing of a roster: elements in roster order, each element's keys in order. */
  function FilingsOf(els: seq<Element>, keys: Element -> seq<string>): seq<(string, Element)> {
    if els == [] then []
    else FilingsOf(els[..|els| - 1], keys) + Pair(keys(els[|els| - 1]), els[|els| - 1])
  }

  lemma FilingsOfSnoc(els: seq<Element>, i: int, keys: Element -> seq<string>)
    requires 0 <= i < |els|
    ensures FilingsOf(els[..i + 1], keys) == FilingsOf(els[..i], keys) + Pair(keys(els[i]), els[i])
  {
    assert els[..i + 1][..i] == els[..i];
  }

  lemma {:induction false} FilingsMembers(els: seq<Element>, keys: Element -> seq<string>)
    ensures forall k, x :: (k, x) in FilingsOf(els, keys) <==> x in els && k in keys(x)
  {
    if els != [] {
      var init := els[..|els| - 1];
      var el := els[|els| - 1];
      FilingsMembers(init, keys);
      assert els == init + [el];
      forall k, x ensures (k, x) in Pair(keys(el), el) <==> x == el && k in keys(el) {
        if (k, x) in Pair(keys(el), el) {
          var i :| 0 <= i < |keys(el)| && Pair(keys(el), el)[i] == (k, x);
        }
        if x == el && k in keys(el) {
          var i :| 0 <= i < |keys(el)| && keys(el)[i] == k;
          assert Pair(keys(el), el)[i] == (k, x);
        }
      }
    }
  }

  /** The keys of a list of filings, in order: `candidates`. */
  function Keys(fs: seq<(string, Element)>): (r: seq<string>)
    ensures |r| == |fs|
    ensures forall i :: 0 <= i < |fs| ==> r[i] == fs[i].0
  {
    seq(|fs|, i requires 0 <= i < |fs| => fs[i].0)
  }

  /** `name_to_elems` after `setdefault(key, []).append(el)` for each filing in turn. */
  function Group(fs: seq<(string, Element)>): map<string, seq<Element>> {
    if fs == [] then map[]
    else
      var g := Group(fs[..|fs| - 1]);
      var k := fs[|fs| - 1].0;
      g[k := Lookup(g, k) + [fs[|fs| - 1].1]]
  }

  /** `name_to_elems.get(key, [])`. */
  function Lookup(g: map<string, seq<Element>>, k: string): seq<Element> {
    if k in g then g[k] else []
  }

  lemma GroupSnoc(fs: seq<(string, Element)>, k: string, x: Element)
    ensures Group(fs + [(k, x)]) == Group(fs)[k := Lookup(Group(fs), k) + [x]]
    ensures Keys(fs + [(k, x)]) == Keys(fs) + [k]
  {
    assert (fs + [(k, x)])[..|fs|] == fs;
  }

  /** The index files an element under a key exactly when the filings do, and has no other keys. */
  lemma {:induction false} GroupMembers(fs: seq<(string, Element)>)
    ensures forall k :: k in Group(fs) <==> k in Keys(fs)
    ensures forall k, x :: x in Lookup(Group(fs), k) <==> (k, x) in fs
    ensures forall k :: k in Group(fs) ==> Group(fs)[k] != []
  {
    if fs != [] {
      var init := fs[..|fs| - 1];
      GroupMembers(init);
      assert fs == init + [fs[|fs| - 1]];
      assert Keys(fs) == Keys(init) + [fs[|fs| - 1].0];
    }
  }

  /** The index files exactly the roster's elements under exactly their keys. */
  lemma IndexLookup(els: seq<Element>, keys: Element -> seq<string>)
    ensures forall k, x :: x in Lookup(Group(FilingsOf(els, keys)), k) <==> x in els && k in keys(x)
  {
    FilingsMembers(els, keys);
    GroupMembers(FilingsOf(els, keys));
  }

  /** The keys of the index are the candidates, and a key is a candidate exactly when some element is filed under it. */
  lemma IndexKeys(els: seq<Element>, keys: Element -> seq<string>)
    ensures forall k :: k in Group(FilingsOf(els, keys)) <==> k in Keys(FilingsOf(els, keys))
    ensures forall k :: k in Keys(FilingsOf(els, keys)) <==> exists x :: x in els && k in keys(x)
  {
    var fs := FilingsOf(els, keys);
    IndexLookup(els, keys);
    GroupMembers(fs);
    forall k | k in Keys(fs) ensures exists x :: x in els && k in keys(x) {
      assert k in Group(fs);
      var x := Group(fs)[k][0];
      assert x in Lookup(Group(fs), k);
      assert x in els && k in keys(x);
    }
    forall k, x | x in els && k in keys(x) ensures k in Keys(fs) {
      assert x in Lookup(Group(fs), k);
    }
  }

  /** `(key, element)` filings of the roster, each element under `KeysOf`. */
  function Filings(els: seq<Element>): seq<(string, Element)> {
    FilingsOf(els, FileKeys())
  }

  /** `candidates`: every key of every element, as often as it is filed. */
  function Candidates(els: seq<Element>): seq<string> {
    Keys(Filings(els))
  }

  /** Building `name_to_elems` and `candidates`: the nested loop over elements and their names. */
  method BuildNameIndex(els: seq<Element>) returns (index: map<string, seq<Element>>, candidates: seq<string>)
    ensures index == Group(Filings(els))
    ensures candidates == Candidates(els)
  {
    index := map[];
    candidates := [];
    ghost var fs: seq<(string, Element)> := [];
    for i := 0 to |els|
      invariant fs == FilingsOf(els[..i], FileKeys())
      invariant index == Group(fs) && candidates == Keys(fs)
    {
      var el := els[i];
      FilingsOfSnoc(els, i, FileKeys());
      assert FileKeys()(el) == KeyList(Distinct(NamesOf(el)));
      index, candidates := FileNames(index, candidates, fs, Distinct(NamesOf(el)), el);
      fs := fs + Pair(KeyList(Distinct(NamesOf(el))), el);
    }
    assert els[..|els|] == els;
  }

  /** The inner loop: files `el` under each non-empty name, lower-cased, skipping empty names. */
  method FileNames(index0: map<string, seq<Element>>, candidates0: seq<string>, ghost fs0: seq<(string, Element)>,
                   nms: seq<string>, el: Element)
    returns (index: map<string, seq<Element>>, candidates: seq<string>)
    requires index0 == Group(fs0) && candidates0 == Keys(fs0)
    ensures index == Group(fs0 + Pair(KeyList(nms), el))
    ensures candidates == Keys(fs0 + Pair(KeyList(nms), el))
  {
    index, candidates := index0, candidates0;
    ghost var fs := fs0;
    for j := 0 to |nms|
      invariant fs == fs0 + Pair(KeyList(nms[..j]), el)
      invariant index == Group(fs) && candidates == Keys(fs)
    {
      KeyListSnoc(nms, j);
      var nm := nms[j];
      if nm == "" {
        continue;
      }
      var key := Lower(nm);
      PairSnoc(KeyList(nms[..j]), key, el);
      GroupSnoc(fs, key, el);
      fs := fs + [(key, el)];
      index := index[key := Lookup(index, key) + [el]];
      candidates := candidates + [key];
    }
    assert nms[..|nms|] == nms;
  }

  // ---------------------------------------------------------------- dedup by id

  /** The ids of a list of elements. */
  function Ids(xs: seq<Element>): set<int> {
    set i | 0 <= i < |xs| :: xs[i].id
  }

  /** An insertion-ordered dictionary from id to element: the ids in insertion order and the map. */
  datatype Seen = Seen(order: seq<int>, vals: map<int, Element>)

  /** `seen[el["id"]] = el`: a new id goes to the end, a known id keeps its place and takes the new element. */
  function Put(d: Seen, el: Element): Seen {
    Seen(if el.id in d.vals then d.order else d.order + [el.id], d.vals[el.id := el])
  }

  function PutAll(d: Seen, xs: seq<Element>): Seen {
    if xs == [] then d else Put(PutAll(d, xs[..|xs| - 1]), xs[|xs| - 1])
  }

  lemma PutAllSnoc(d: Seen, xs: seq<Element>, x: Element)
    ensures PutAll(d, xs + [x]) == Put(PutAll(d, xs), x)
  {
    assert (xs + [x])[..|xs|] == xs;
  }

  /** `list(d.values())`, the values in insertion order. */
  function Values(order: seq<int>, vals: map<int, Element>): seq<Element> {
    if order == [] then []
    else Values(order[..|order| - 1], vals) + (if order[|order| - 1] in vals then [vals[order[|order| - 1]]] else [])
  }

  lemma {:induction false} ValuesAt(order: seq<int>, vals: map<int, Element>)
    requires forall i :: 0 <= i < |order| ==> order[i] in vals
    ensures |Values(order, vals)| == |order|
    ensures forall i :: 0 <= i < |order| ==> Values(order, vals)[i] == vals[order[i]]
  {
    if order != [] {
      var init := order[..|order| - 1];
      assert forall i :: 0 <= i < |init| ==> init[i] == order[i];
      ValuesAt(init, vals);
    }
  }

  /** `list({el["id"]: el for el in xs}.values())`. */
  function DedupById(xs: seq<Element>): seq<Element> {
    var d := PutAll(Seen([], map[]), xs);
    Values(d.order, d.vals)
  }

  /** `(id, element)` assignments of a list, for comparing the dictionary with `Assoc`. */
  function IdPairs(xs: seq<Element>): (r: seq<(int, Element)>)
    ensures |r| == |xs|
    ensures forall i :: 0 <= i < |xs| ==> r[i] == (xs[i].id, xs[i])
  {
    seq(|xs|, i requires 0 <= i < |xs| => (xs[i].id, xs[i]))
  }

  /** The dictionary built from the empty one: its order lists each id once, its values are the last assignment per id. */
  lemma {:induction false} PutAllShape(xs: seq<Element>)
    ensures var d := PutAll(Seen([], map[]), xs);
      && (forall k :: k in d.order <==> k in d.vals)
      && (forall i, j :: 0 <= i < j < |d.order| ==> d.order[i] != d.order[j])
      && d.vals == Assoc(IdPairs(xs))
      && (forall k :: k in d.vals ==> d.vals[k].id == k && d.vals[k] in xs)
  {
    if xs != [] {
      var init := xs[..|xs| - 1];
      var x := xs[|xs| - 1];
      PutAllShape(init);
      assert IdPairs(xs) == IdPairs(init) + [(x.id, x)];
      AssocSnoc(IdPairs(init), x.id, x);
      assert xs == init + [x];
    }
  }

  /** `xs[i]` is the last element of `xs` with its id. */
  ghost predicate IsLastWithId(xs: seq<Element>, i: int) {
    0 <= i < |xs| && forall j :: i < j < |xs| ==> xs[j].id != xs[i].id
  }

  /** The deduplicated list, position by position: entry `n` is the element stored under the `n`-th id inserted. */
  lemma DedupAt(xs: seq<Element>)
    ensures var d := PutAll(Seen([], map[]), xs); var r := DedupById(xs);
      && |r| == |d.order|
      && (forall n :: 0 <= n < |d.order| ==> d.order[n] in d.vals && r[n] == d.vals[d.order[n]])
  {
    var d := PutAll(Seen([], map[]), xs);
    PutAllShape(xs);
    forall i | 0 <= i < |d.order| ensures d.order[i] in d.vals {
      assert d.order[i] in d.order;
    }
    ValuesAt(d.order, d.vals);
  }

  /** Dedup keeps one element per id. */
  lemma DedupDistinct(xs: seq<Element>)
    ensures var r := DedupById(xs);
      forall i, j :: 0 <= i < j < |r| ==> r[i].id != r[j].id
  {
    PutAllShape(xs);
    DedupAt(xs);
  }

  /** Dedup keeps only elements of its input. */
  lemma DedupKeepsInput(xs: seq<Element>)
    ensures forall e :: e in DedupById(xs) ==> e in xs
  {
    var r := DedupById(xs);
    PutAllShape(xs);
    DedupAt(xs);
    forall e | e in r ensures e in xs {
      var i :| 0 <= i < |r| && r[i] == e;
    }
  }

  /** Dedup loses no id. */
  lemma DedupKeepsIds(xs: seq<Element>)
    ensures forall x :: x in xs ==> x.id in Ids(DedupById(xs))
  {
    var d := PutAll(Seen([], map[]), xs);
    var r := DedupById(xs);
    PutAllShape(xs);
    DedupAt(xs);
    forall x | x in xs ensures x.id in Ids(r) {
      var j :| 0 <= j < |xs| && xs[j] == x;
      assert IdPairs(xs)[j].0 == x.id;
      assert x.id in AssignedKeys(IdPairs(xs));
      assert x.id in d.order;
      var n :| 0 <= n < |d.order| && d.order[n] == x.id;
      assert r[n].id == x.id;
    }
  }

  /** The element dedup keeps for an id is the last one with that id. */
  lemma DedupKeepsLast(xs: seq<Element>)
    ensures forall i :: IsLastWithId(xs, i) ==> xs[i] in DedupById(xs)
  {
    var d := PutAll(Seen([], map[]), xs);
    var r := DedupById(xs);
    PutAllShape(xs);
    DedupAt(xs);
    forall i | IsLastWithId(xs, i) ensures xs[i] in r {
      assert IsLastAssignment(IdPairs(xs), i);
      AssocLastWins(IdPairs(xs), i);
      assert xs[i].id in d.order;
      var n :| 0 <= n < |d.order| && d.order[n] == xs[i].id;
      assert r[n] == xs[i];
    }
  }

  /**
   * Dedup keeps only elements of its input and loses no id: every id of the
   * input is the id of a kept element, and the element kept for an id is the
   * last one with that id.
   */
  lemma DedupMembers(xs: seq<Element>)
    ensures forall e :: e in DedupById(xs) ==> e in xs
    ensures forall x :: x in xs ==> x.id in Ids(DedupById(xs))
    ensures forall i :: IsLastWithId(xs, i) ==> xs[i] in DedupById(xs)
  {
    DedupKeepsInput(xs);
    DedupKeepsIds(xs);
    DedupKeepsLast(xs);
  }

  // ---------------------------------------------------------------- tiers

  /** `q in name`, as a test on the name. */
  function ContainsQuery(q: string): string -> bool {
    name => Contains(name, q)
  }

  /** The elements filed under the given keys, key by key: what the `seen` loop visits. */
  function Gather(index: map<string, seq<Element>>, keys: seq<string>): seq<Element> {
    if keys == [] then []
    else Gather(index, keys[..|keys| - 1]) + Lookup(index, keys[|keys| - 1])
  }

  lemma {:induction false} GatherMembers(index: map<string, seq<Element>>, keys: seq<string>)
    ensures forall x :: x in Gather(index, keys) <==> exists k :: k in keys && x in Lookup(index, k)
  {
    if keys != [] {
      var init := keys[..|keys| - 1];
      GatherMembers(index, init);
      assert keys == init + [keys[|keys| - 1]];
    }
  }

  /** The three tiers over a filing `keys`, for the cleaned query `q`. */
  function FindOn(els: seq<Element>, q: string, close: Option<string>, keys: Element -> seq<string>): seq<Element>
    requires close.Some? ==> close.value in Keys(FilingsOf(els, keys))
  {
    var fs := FilingsOf(els, keys);
    var index := Group(fs);
    if q in index then DedupById(index[q])
    else
      var substringKeys := Filter(Keys(fs), ContainsQuery(q));
      if substringKeys != [] then DedupById(Gather(index, substringKeys))
      else if close.Some? then DedupById(Lookup(index, close.value))
      else []
  }

  /** The outcome of `find_players`: exact key, else substring keys, else the closest key, else nothing. */
  function FindResult(els: seq<Element>, query: string, close: Option<string>): seq<Element>
    requires close.Some? ==> close.value in Candidates(els)
  {
    FindOn(els, Query(query), close, FileKeys())
  }

  /** `find_players(bootstrap, query)` on `bootstrap.get("elements", [])`, with the closest key as a parameter. */
  method FindPlayers(b: Snapshot, query: string, close: Option<string>) returns (found: seq<Element>)
    requires close.Some? ==> close.value in Candidates(ElementsOf(b))
    ensures found == FindResult(ElementsOf(b), query, close)
  {
    var els := ElementsOf(b);
    var q := Query(query);
    var index, candidates := BuildNameIndex(els);
    if q in index {
      found := DedupById(index[q]);
      return;
    }
    var substringKeys := Filter(candidates, ContainsQuery(q));
    if substringKeys != [] {
      found := CollectSeen(index, substringKeys);
      return;
    }
    if close.Some? {
      found := DedupById(Lookup(index, close.value));
    } else {
      found := [];
    }
  }

  /** The `seen` loop of the substring tier: each element filed under each key, in turn, by id. */
  method CollectSeen(index: map<string, seq<Element>>, keys: seq<string>) returns (found: seq<Element>)
    ensures found == DedupById(Gather(index, keys))
  {
    var order: seq<int> := [];
    var vals: map<int, Element> := map[];
    ghost var visited: seq<Element> := [];
    for i := 0 to |keys|
      invariant visited == Gather(index, keys[..i])
      invariant Seen(order, vals) == PutAll(Seen([], map[]), visited)
    {
      var key := keys[i];
      var filed := Lookup(index, key);
      assert keys[..i + 1][..i] == keys[..i];
      ghost var before := visited;
      for j := 0 to |filed|
        invariant visited == before + filed[..j]
        invariant Seen(order, vals) == PutAll(Seen([], map[]), visited)
      {
        var el := filed[j];
        assert filed[..j + 1] == filed[..j] + [el];
        PutAllSnoc(Seen([], map[]), visited, el);
        visited := visited + [el];
        if el.id !in vals {
          order := order + [el.id];
        }
        vals := vals[el.id := el];
      }
      assert filed[..|filed|] == filed;
    }
    assert keys[..|keys|] == keys;
    found := Values(order, vals);
  }

  /** Some key of some element contains the query. */
  ghost predicate SomeKeyContains(els: seq<Element>, q: string, keys: Element -> seq<string>) {
    exists x, k :: x in els && k in keys(x) && Contains(k, q)
  }

  /** The elements filed under one key, one per id: exactly the roster's elements with that key, by id. */
  lemma FiledUnder(els: seq<Element>, keys: Element -> seq<string>, k: string)
    ensures var r := DedupById(Lookup(Group(FilingsOf(els, keys)), k));
      && (forall e :: e in r ==> e in els && k in keys(e))
      && (forall x :: x in els && k in keys(x) ==> x.id in Ids(r))
  {
    var ys := Lookup(Group(FilingsOf(els, keys)), k);
    IndexLookup(els, keys);
    DedupKeepsInput(ys);
    DedupKeepsIds(ys);
    forall e | e in DedupById(ys) ensures e in els && k in keys(e) {
      assert e in ys;
    }
    forall x | x in els && k in keys(x) ensures x.id in Ids(DedupById(ys)) {
      assert x in ys;
    }
  }

  /** Some key contains the query, so some substring key exists. */
  lemma SomeSubstringKey(els: seq<Element>, q: string, keys: Element -> seq<string>)
    requires SomeKeyContains(els, q, keys)
    ensures Filter(Keys(FilingsOf(els, keys)), ContainsQuery(q)) != []
  {
    var cs := Keys(FilingsOf(els, keys));
    IndexKeys(els, keys);
    FilterMembers(cs, ContainsQuery(q));
    var x, k :| x in els && k in keys(x) && Contains(k, q);
    assert ContainsQuery(q)(k);
    assert k in Filter(cs, ContainsQuery(q));
  }

  /** The substring tier visits exactly the elements with a key containing the query. */
  lemma SubstringMembers(els: seq<Element>, q: string, keys: Element -> seq<string>)
    ensures var fs := FilingsOf(els, keys);
      var xs := Gather(Group(fs), Filter(Keys(fs), ContainsQuery(q)));
      forall x :: x in xs <==> x in els && exists k :: k in keys(x) && Contains(k, q)
  {
    var fs := FilingsOf(els, keys);
    var index := Group(fs);
    var subKeys := Filter(Keys(fs), ContainsQuery(q));
    IndexKeys(els, keys);
    IndexLookup(els, keys);
    FilterMembers(Keys(fs), ContainsQuery(q));
    GatherMembers(index, subKeys);
    forall x | x in Gather(index, subKeys) ensures x in els && exists k :: k in keys(x) && Contains(k, q) {
      var k :| k in subKeys && x in Lookup(index, k);
      assert ContainsQuery(q)(k);
      assert Contains(k, q);
      assert x in els && k in keys(x);
    }
    forall x, k | x in els && k in keys(x) && Contains(k, q) ensures x in Gather(index, subKeys) {
      assert ContainsQuery(q)(k);
      assert k in subKeys;
      assert x in Lookup(index, k);
    }
  }

  /** No key contains the query, so the query is no key and the substring keys are empty. */
  lemma NoSubstringKeys(els: seq<Element>, q: string, keys: Element -> seq<string>)
    requires !SomeKeyContains(els, q, keys)
    ensures Filter(Keys(FilingsOf(els, keys)), ContainsQuery(q)) == []
    ensures q !in Group(FilingsOf(els, keys))
  {
    var cs := Keys(FilingsOf(els, keys));
    IndexKeys(els, keys);
    forall k | k in cs ensures !ContainsQuery(q)(k) {
      var x :| x in els && k in keys(x);
    }
    FilterNoneKept(cs, ContainsQuery(q));
    if q in Group(FilingsOf(els, keys)) {
      var x :| x in els && q in keys(x);
      ContainsItself(q);
      assert false;
    }
  }

  lemma ExactTierOn(els: seq<Element>, q: string, close: Option<string>, keys: Element -> seq<string>)
    requires close.Some? ==> close.value in Keys(FilingsOf(els, keys))
    requires exists x :: x in els && q in keys(x)
    ensures var r := FindOn(els, q, close, keys);
      && r == DedupById(Lookup(Group(FilingsOf(els, keys)), q))
      && (forall e :: e in r ==> e in els && q in keys(e))
      && (forall x :: x in els && q in keys(x) ==> x.id in Ids(r))
  {
    IndexKeys(els, keys);
    assert q in Group(FilingsOf(els, keys));
    FiledUnder(els, keys, q);
  }

  lemma SubstringTierOn(els: seq<Element>, q: string, close: Option<string>, keys: Element -> seq<string>)
    requires close.Some? ==> close.value in Keys(FilingsOf(els, keys))
    requires forall x :: x in els ==> q !in keys(x)
    requires SomeKeyContains(els, q, keys)
    ensures var r := FindOn(els, q, close, keys); var fs := FilingsOf(els, keys);
      && r == DedupById(Gather(Group(fs), Filter(Keys(fs), ContainsQuery(q))))
      && (forall e :: e in r ==> e in els && exists k :: k in keys(e) && Contains(k, q))
      && (forall x, k :: x in els && k in keys(x) && Contains(k, q) ==> x.id in Ids(r))
  {
    var fs := FilingsOf(els, keys);
    IndexKeys(els, keys);
    assert q !in Group(fs);
    SomeSubstringKey(els, q, keys);
    SubstringMembers(els, q, keys);
    DedupMembers(Gather(Group(fs), Filter(Keys(fs), ContainsQuery(q))));
  }

  lemma FuzzyTierOn(els: seq<Element>, q: string, close: Option<string>, keys: Element -> seq<string>)
    requires close.Some? && close.value in Keys(FilingsOf(els, keys))
    requires !SomeKeyContains(els, q, keys)
    ensures var r := FindOn(els, q, close, keys); var k := close.value;
      && r == DedupById(Lookup(Group(FilingsOf(els, keys)), k))
      && r != []
      && (forall e :: e in r ==> e in els && k in keys(e))
      && (forall x :: x in els && k in keys(x) ==> x.id in Ids(r))
  {
    var k := close.value;
    IndexKeys(els, keys);
    NoSubstringKeys(els, q, keys);
    var x :| x in els && k in keys(x);
    FiledUnder(els, keys, k);
    assert x.id in Ids(DedupById(Lookup(Group(FilingsOf(els, keys)), k)));
  }

  lemma NotFoundOn(els: seq<Element>, q: string, close: Option<string>, keys: Element -> seq<string>)
    requires close.Some? ==> close.value in Keys(FilingsOf(els, keys))
    ensures FindOn(els, q, close, keys) == [] <==> !SomeKeyContains(els, q, keys) && close.None?
  {
    if SomeKeyContains(els, q, keys) {
      var x, k :| x in els && k in keys(x) && Contains(k, q);
      if forall y :: y in els ==> q !in keys(y) {
        SubstringTierOn(els, q, close, keys);
        assert x.id in Ids(FindOn(els, q, close, keys));
      } else {
        var y :| y in els && q in keys(y);
        ExactTierOn(els, q, close, keys);
        assert y.id in Ids(FindOn(els, q, close, keys));
      }
    } else {
      NoSubstringKeys(els, q, keys);
      if close.Some? {
        FuzzyTierOn(els, q, close, keys);
      }
    }
  }

  lemma FoundDistinctOn(els: seq<Element>, q: string, close: Option<string>, keys: Element -> seq<string>)
    requires close.Some? ==> close.value in Keys(FilingsOf(els, keys))
    ensures var r := FindOn(els, q, close, keys);
      forall i, j :: 0 <= i < j < |r| ==> r[i].id != r[j].id
  {
    var fs := FilingsOf(els, keys);
    var index := Group(fs);
    if q in index {
      DedupDistinct(index[q]);
    } else {
      DedupDistinct(Gather(index, Filter(Keys(fs), ContainsQuery(q))));
      if close.Some? {
        DedupDistinct(Lookup(index, close.value));
      }
    }
  }

  /**
   * Exact tier: when the stripped, lower-cased query is a key, the result is
   * the elements filed under it, one per id, and no other tier is consulted.
   */
  lemma ExactTier(els: seq<Element>, query: string, close: Option<string>)
    requires close.Some? ==> close.value in Candidates(els)
    requires exists x :: x in els && Query(query) in KeysOf(x)
    ensures var r := FindResult(els, query, close); var q := Query(query);
      && r == DedupById(Lookup(Group(Filings(els)), q))
      && (forall e :: e in r ==> e in els && q in KeysOf(e))
      && (forall x :: x in els && q in KeysOf(x) ==> x.id in Ids(r))
  {
    ExactTierOn(els, Query(query), close, FileKeys());
  }

  /**
   * Substring tier: when no key equals the query but some key contains it,
   * the result is every distinct element with a key containing the query.
   */
  lemma SubstringTier(els: seq<Element>, query: string, close: Option<string>)
    requires close.Some? ==> close.value in Candidates(els)
    requires forall x :: x in els ==> Query(query) !in KeysOf(x)
    requires exists x, k :: x in els && k in KeysOf(x) && Contains(k, Query(query))
    ensures var r := FindResult(els, query, close); var q := Query(query);
      && (forall e :: e in r ==> e in els && exists k :: k in KeysOf(e) && Contains(k, q))
      && (forall x, k :: x in els && k in KeysOf(x) && Contains(k, q) ==> x.id in Ids(r))
  {
    var x, k :| x in els && k in KeysOf(x) && Contains(k, Query(query));
    assert k in FileKeys()(x);
    SubstringTierOn(els, Query(query), close, FileKeys());
  }

  /**
   * Fuzzy tier: when no key contains the query, the result is the elements
   * filed under the one closest key, one per id.
   */
  lemma FuzzyTier(els: seq<Element>, query: string, close: Option<string>)
    requires close.Some? && close.value in Candidates(els)
    requires forall x, k :: x in els && k in KeysOf(x) ==> !Contains(k, Query(query))
    ensures var r := FindResult(els, query, close); var k := close.value;
      && r == DedupById(Lookup(Group(Filings(els)), k))
      && r != []
      && (forall e :: e in r ==> e in els && k in KeysOf(e))
      && (forall x :: x in els && k in KeysOf(x) ==> x.id in Ids(r))
  {
    FuzzyTierOn(els, Query(query), close, FileKeys());
  }

  /**
   * Nothing is found exactly when no key `KeysOf` gives any element contains
   * the query and there is no closest key.
   */
  lemma NotFound(els: seq<Element>, query: string, close: Option<string>)
    requires close.Some? ==> close.value in Candidates(els)
    ensures FindResult(els, query, close) == [] <==>
      !SomeKeyContains(els, Query(query), FileKeys()) && close.None?
  {
    NotFoundOn(els, Query(query), close, FileKeys());
  }

  /** Whatever the tier, no two elements of the result share an id. */
  lemma FoundDistinct(els: seq<Element>, query: string, close: Option<string>)
    requires close.Some? ==> close.value in Candidates(els)
    ensures var r := FindResult(els, query, close);
      forall i, j :: 0 <= i < j < |r| ==> r[i].id != r[j].id
  {
    FoundDistinctOn(els, Query(query), close, FileKeys());
  }

  lemma ContainsItself(s: string)
    ensures Contains(s, s)
  {
    assert s[..|s|] == s;
  }
}
