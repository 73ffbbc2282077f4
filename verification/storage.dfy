/** `Storage` (client/src/storage.ts): a move-to-front history of at most 50 entries, mirrored as
    plain strings under a legacy key, plus saved parameters, favourites, parameter sets and
    scanned queries. The clock is a parameter. */
module Storage {
  import opened GlobalState
  import opened Seqs

  const MaxHistory: nat := 50

  const HistoryKey := "queryHistoryWithParams"
  const LegacyKey := "queryHistory"
  const ParamsKey := "savedParams"
  const FavoritesKey := "favoriteQueries"
  const ParamSetsKey := "paramSets"
  const ScannedKey := "scannedQueries"

  /** Legacy strings as entries with empty parameters, not native, stamped `now`. */
  function Migrate<P>(xs: seq<string>, empty: P, now: string): (r: seq<Entry<P>>)
    ensures |r| == |xs| && forall i :: 0 <= i < |xs| ==> r[i] == Entry(xs[i], empty, false, now)
    ensures QueriesOf(r) == xs
  {
    seq(|xs|, i requires 0 <= i < |xs| => Entry(xs[i], empty, false, now))
  }

  /** `getQueryHistory`: the stored history; when it is empty and legacy strings exist, they
      are converted, written under the new key and returned. */
  function GetQueryHistory<P(==)>(gs: State<P>, empty: P, now: string): (r: (State<P>, seq<Entry<P>>))
    ensures GetEntries(gs, HistoryKey) != [] ==> r == (gs, GetEntries(gs, HistoryKey))
    ensures GetEntries(gs, HistoryKey) == [] && GetStrings(gs, LegacyKey) != [] ==>
      r.1 == Migrate(GetStrings(gs, LegacyKey), empty, now) && GetEntries(r.0, HistoryKey) == r.1 &&
      Others(gs, r.0, {HistoryKey})
    ensures GetEntries(gs, HistoryKey) == [] && GetStrings(gs, LegacyKey) == [] ==> r == (gs, [])
  {
    var saved := GetEntries(gs, HistoryKey);
    var legacy := GetStrings(gs, LegacyKey);
    if saved == [] && legacy != [] then
      var converted := Migrate(legacy, empty, now);
      (gs[HistoryKey := Entries(converted)], converted)
    else (gs, saved)
  }

  /** The history as loaded, migration included. */
  function Loaded<P(==)>(gs: State<P>, empty: P, now: string): seq<Entry<P>> {
    GetQueryHistory(gs, empty, now).1
  }

  /** `r` is `h` with its first entry for `q` removed, or `h` itself when there is none. */
  ghost predicate RemovedFirst<P>(h: seq<Entry<P>>, q: string, r: seq<Entry<P>>) {
    (q !in QueriesOf(h) ==> r == h) &&
    (q in QueriesOf(h) ==> var i := FirstIndex(QueriesOf(h), q); r == h[..i] + h[i + 1..])
  }

  /** `findIndex` + `splice(i, 1)`: the first entry for `q`, if any, is removed. */
  function RemoveFirst<P>(h: seq<Entry<P>>, q: string): (r: seq<Entry<P>>)
    ensures RemovedFirst(h, q, r)
    decreases |h|
  {
    if h == [] then []
    else if h[0].query == q then
      RemoveFirstHead(h, q);
      h[1..]
    else
      var rest := RemoveFirst(h[1..], q);
      RemoveFirstStep(h, q, rest);
      [h[0]] + rest
  }

  lemma RemoveFirstHead<P>(h: seq<Entry<P>>, q: string)
    requires h != [] && h[0].query == q
    ensures RemovedFirst(h, q, h[1..])
  {
    assert QueriesOf(h)[0] == q;
  }

  /** An entry for another query in front is kept in front. */
  lemma RemoveFirstStep<P>(h: seq<Entry<P>>, q: string, rest: seq<Entry<P>>)
    requires h != [] && h[0].query != q && RemovedFirst(h[1..], q, rest)
    ensures RemovedFirst(h, q, [h[0]] + rest)
  {
    QueriesOfCons(h);
    if q in QueriesOf(h) {
      var i := FirstIndex(QueriesOf(h[1..]), q);
      FirstIndexCons(h[0].query, QueriesOf(h[1..]), q);
      SpliceCons(h, i);
    } else {
      assert h == [h[0]] + h[1..];
    }
  }

  lemma QueriesOfCons<P>(h: seq<Entry<P>>)
    requires h != []
    ensures QueriesOf(h) == [h[0].query] + QueriesOf(h[1..])
  {
    assert QueriesOf(h)[1..] == QueriesOf(h[1..]);
  }

  lemma FirstIndexCons<T>(y: T, s: seq<T>, x: T)
    requires x in s && y != x
    ensures FirstIndex([y] + s, x) == 1 + FirstIndex(s, x)
  {
    assert ([y] + s)[1..] == s;
  }

  /** Removing position `i + 1` of `h` keeps its head in front of `h[1..]` with position `i` removed. */
  lemma SpliceCons<T>(h: seq<T>, i: nat)
    requires i + 1 < |h|
    ensures [h[0]] + (h[1..][..i] + h[1..][i + 1..]) == h[..i + 1] + h[i + 2..]
  {
    assert h[..i + 1] == [h[0]] + h[1..][..i];
    assert h[i + 2..] == h[1..][i + 1..];
  }

  /** The history update of `saveQuery`: `e` at the front, the first older entry for the same
      query removed, and the last entry dropped when the list grows past 50. */
  function MoveToFront<P>(h: seq<Entry<P>>, e: Entry<P>): (r: seq<Entry<P>>)
    ensures |r| >= 1 && r[0] == e
    ensures var rest := RemoveFirst(h, e.query);
      |r| == (if |rest| + 1 > MaxHistory then |rest| else |rest| + 1) && r[1..] == rest[..|r| - 1]
  {
    var moved := [e] + RemoveFirst(h, e.query);
    if |moved| > MaxHistory then moved[..|moved| - 1] else moved
  }

  /** `saveQuery`: the history moves the new entry to the front, and the legacy key mirrors its
      query strings. */
  function SaveQuery<P(==)>(gs: State<P>, q: string, params: P, isNative: bool, empty: P, now: string): (r: State<P>)
    ensures GetEntries(r, HistoryKey) == MoveToFront(Loaded(gs, empty, now), Entry(q, params, isNative, now))
    ensures GetStrings(r, LegacyKey) == QueriesOf(GetEntries(r, HistoryKey))
    ensures Others(gs, r, {HistoryKey, LegacyKey})
  {
    var (gs1, h) := GetQueryHistory(gs, empty, now);
    var h2 := MoveToFront(h, Entry(q, params, isNative, now));
    var r := gs1[HistoryKey := Entries(h2)][LegacyKey := Strings(QueriesOf(h2))];
    assert HistoryKey != LegacyKey by { assert |HistoryKey| != |LegacyKey|; }
    assert GetEntries(r, HistoryKey) == h2;
    assert Others(gs, r, {HistoryKey, LegacyKey}) by {
      assert Others(gs, gs1, {HistoryKey});
    }
    r
  }

  /** A history of at most 50 entries stays within 50. */
  lemma MoveToFrontBounded<P>(h: seq<Entry<P>>, e: Entry<P>)
    requires |h| <= MaxHistory
    ensures |MoveToFront(h, e)| <= MaxHistory
  {
    assert |RemoveFirst(h, e.query)| <= |h|;
  }

  /** A full history without the query loses exactly its oldest entry. */
  lemma MoveToFrontDropsOldest<P>(h: seq<Entry<P>>, e: Entry<P>)
    requires |h| == MaxHistory && e.query !in QueriesOf(h)
    ensures MoveToFront(h, e) == [e] + h[..MaxHistory - 1]
  {
    var r := MoveToFront(h, e);
    assert r == [r[0]] + r[1..];
  }

  /** Removing one element of a duplicate-free list leaves it duplicate-free and without that
      element. */
  lemma NoDupsWithout(xs: seq<string>, i: nat)
    requires NoDups(xs) && i < |xs|
    ensures NoDups(xs[..i] + xs[i + 1..]) && xs[i] !in xs[..i] + xs[i + 1..]
  {
    var ys := xs[..i] + xs[i + 1..];
    forall a, b | 0 <= a < b < |ys| ensures ys[a] != ys[b] {
      var a' := if a < i then a else a + 1;
      var b' := if b < i then b else b + 1;
      assert ys[a] == xs[a'] && ys[b] == xs[b'];
    }
    forall a | 0 <= a < |ys| ensures ys[a] != xs[i] {
      var a' := if a < i then a else a + 1;
      assert ys[a] == xs[a'];
    }
  }

  lemma RemoveFirstNoDups<P>(h: seq<Entry<P>>, q: string)
    requires NoDups(QueriesOf(h))
    ensures NoDups(QueriesOf(RemoveFirst(h, q))) && q !in QueriesOf(RemoveFirst(h, q))
  {
    var qh := QueriesOf(h);
    if q in qh {
      var i := FirstIndex(qh, q);
      NoDupsWithout(qh, i);
      assert RemoveFirst(h, q) == h[..i] + h[i + 1..];
      QueriesOfSplice(h, i);
    }
  }

  lemma QueriesOfSplice<P>(h: seq<Entry<P>>, i: nat)
    requires i < |h|
    ensures QueriesOf(h[..i] + h[i + 1..]) == QueriesOf(h)[..i] + QueriesOf(h)[i + 1..]
  {
    var a := QueriesOf(h[..i] + h[i + 1..]);
    var b := QueriesOf(h)[..i] + QueriesOf(h)[i + 1..];
    forall k | 0 <= k < |a| ensures a[k] == b[k] {
      var k' := if k < i then k else k + 1;
      assert (h[..i] + h[i + 1..])[k] == h[k'];
    }
  }

  lemma ConsPrefixNoDups(x: string, xs: seq<string>, n: nat)
    requires NoDups(xs) && x !in xs && n <= |xs|
    ensures NoDups([x] + xs[..n])
  {
    var ys := [x] + xs[..n];
    forall a, b | 0 <= a < b < |ys| ensures ys[a] != ys[b] {
      assert ys[b] == xs[b - 1];
      if a > 0 { assert ys[a] == xs[a - 1]; }
    }
  }

  /** Without duplicates before, there are none after, and the query is at the front only. */
  lemma MoveToFrontNoDups<P>(h: seq<Entry<P>>, e: Entry<P>)
    requires NoDups(QueriesOf(h))
    ensures var qs := QueriesOf(MoveToFront(h, e)); NoDups(qs) && qs[0] == e.query && e.query !in qs[1..]
  {
    var r := MoveToFront(h, e);
    var qr := QueriesOf(RemoveFirst(h, e.query));
    var k := |r| - 1;
    RemoveFirstNoDups(h, e.query);
    MoveToFrontQueries(h, e);
    ConsPrefixNoDups(e.query, qr, k);
    var qs := QueriesOf(r);
    assert qs == [e.query] + qr[..k];
    assert qs[1..] == qr[..k];
    assert e.query !in qr[..k] by {
      forall j | 0 <= j < k ensures qr[..k][j] != e.query { assert qr[..k][j] == qr[j]; }
    }
  }

  /** The mirrored query strings of the moved history. */
  lemma MoveToFrontQueries<P>(h: seq<Entry<P>>, e: Entry<P>)
    ensures var r := MoveToFront(h, e);
      QueriesOf(r) == [e.query] + QueriesOf(RemoveFirst(h, e.query))[..|r| - 1]
  {
    var rest := RemoveFirst(h, e.query);
    var r := MoveToFront(h, e);
    assert r == [e] + rest[..|r| - 1];
    QueriesOfConsPrefix(e, rest, |r| - 1);
  }

  lemma QueriesOfConsPrefix<P>(e: Entry<P>, xs: seq<Entry<P>>, k: nat)
    requires k <= |xs|
    ensures QueriesOf([e] + xs[..k]) == [e.query] + QueriesOf(xs)[..k]
  {
    var l, r := QueriesOf([e] + xs[..k]), [e.query] + QueriesOf(xs)[..k];
    assert |l| == |r|;
    forall i | 0 <= i < |l| ensures l[i] == r[i] {
      if i > 0 { assert ([e] + xs[..k])[i] == xs[i - 1]; }
    }
  }

  /** The entries other than the new one keep their relative order: they are the old history
      with the earlier entry for the query taken out, possibly cut short at the end. */
  lemma MoveToFrontKeepsOrder<P>(h: seq<Entry<P>>, e: Entry<P>)
    ensures var r := MoveToFront(h, e);
      if e.query in QueriesOf(h) then
        var i := FirstIndex(QueriesOf(h), e.query);
        r[1..] == (h[..i] + h[i + 1..])[..|r| - 1]
      else r[1..] == h[..|r| - 1]
  {}

  /** Legacy strings are migrated in order with empty parameters and the native flag off. */
  lemma MigrationKeepsOrder<P>(gs: State<P>, empty: P, now: string)
    requires GetEntries(gs, HistoryKey) == [] && GetStrings(gs, LegacyKey) != []
    ensures QueriesOf(Loaded(gs, empty, now)) == GetStrings(gs, LegacyKey)
    ensures forall i :: 0 <= i < |Loaded(gs, empty, now)| ==>
      Loaded(gs, empty, now)[i].params == empty && !Loaded(gs, empty, now)[i].isNative
  {}

  /** `getQueries`: the query strings of the history `getQueryHistory` loads, with the state
      after the migration write that loading may do. */
  function GetQueries<P(==)>(gs: State<P>, empty: P, now: string): (r: (State<P>, seq<string>))
    ensures |r.1| == |Loaded(gs, empty, now)|
    ensures forall i :: 0 <= i < |r.1| ==> r.1[i] == Loaded(gs, empty, now)[i].query
    ensures GetEntries(gs, HistoryKey) != [] ==> r == (gs, QueriesOf(GetEntries(gs, HistoryKey)))
    ensures GetEntries(gs, HistoryKey) == [] ==> r.1 == GetStrings(gs, LegacyKey)
    ensures GetEntries(gs, HistoryKey) == [] && GetStrings(gs, LegacyKey) != [] ==>
      GetEntries(r.0, HistoryKey) == Migrate(GetStrings(gs, LegacyKey), empty, now) &&
      Others(gs, r.0, {HistoryKey})
    ensures GetStrings(gs, LegacyKey) == [] ==> r.0 == gs
  {
    var (state, history) := GetQueryHistory(gs, empty, now);
    (state, QueriesOf(history))
  }

  /** `clearQueries`: both history keys hold empty lists. */
  function ClearQueries<P(==)>(gs: State<P>): (r: State<P>)
    ensures GetEntries(r, HistoryKey) == [] && GetStrings(r, LegacyKey) == []
    ensures Others(gs, r, {HistoryKey, LegacyKey})
  {
    gs[LegacyKey := Strings([])][HistoryKey := Entries([])]
  }

  /** After clearing, nothing is migrated back: the loaded history is empty. */
  lemma ClearedHistoryIsEmpty<P>(gs: State<P>, empty: P, now: string)
    ensures Loaded(ClearQueries(gs), empty, now) == []
  {}

  function SaveParams<P(==)>(gs: State<P>, query: string, params: P): (r: State<P>)
    ensures GetRecord(r, ParamsKey) == GetRecord(gs, ParamsKey)[query := params]
    ensures Others(gs, r, {ParamsKey})
  {
    SetRecordEntry(gs, ParamsKey, query, params)
  }

  function ClearParams<P(==)>(gs: State<P>): (r: State<P>)
    ensures GetRecord(r, ParamsKey) == map[]
    ensures Others(gs, r, {ParamsKey})
  {
    gs[ParamsKey := Record(map[])]
  }

  function SaveFavoriteQuery<P(==)>(gs: State<P>, name: string, query: string, params: P, isNative: bool): (r: State<P>)
    ensures GetFavorites(r, FavoritesKey) == GetFavorites(gs, FavoritesKey)[name := Favorite(query, params, isNative)]
    ensures Others(gs, r, {FavoritesKey})
  {
    SetFavorite(gs, FavoritesKey, name, Favorite(query, params, isNative))
  }

  function RemoveFavoriteQuery<P(==)>(gs: State<P>, name: string): (r: State<P>)
    ensures name in GetFavorites(gs, FavoritesKey) ==>
      GetFavorites(r, FavoritesKey) == GetFavorites(gs, FavoritesKey) - {name} && Others(gs, r, {FavoritesKey})
    ensures name !in GetFavorites(gs, FavoritesKey) ==> r == gs
  {
    RemoveFavorite(gs, FavoritesKey, name)
  }

  function SaveParamSet<P(==)>(gs: State<P>, name: string, params: P): (r: State<P>)
    ensures GetRecord(r, ParamSetsKey) == GetRecord(gs, ParamSetsKey)[name := params]
    ensures Others(gs, r, {ParamSetsKey})
  {
    SetRecordEntry(gs, ParamSetsKey, name, params)
  }

  /** `removeParamSet`: `truthy` is JavaScript truthiness of the stored value, so a stored
      `null`, `0`, `""` or `false` is never removed. */
  function RemoveParamSet<P(==)>(gs: State<P>, name: string, truthy: P -> bool): (r: State<P>)
    ensures var o := GetRecord(gs, ParamSetsKey);
      if name in o && truthy(o[name]) then GetRecord(r, ParamSetsKey) == o - {name} && Others(gs, r, {ParamSetsKey})
      else r == gs
  {
    RemoveRecordEntry(gs, ParamSetsKey, name, truthy)
  }

  /** `saveScannedQueries` here stores the list as given, duplicates included. */
  function SaveScannedQueries<P(==)>(gs: State<P>, queries: seq<string>): (r: State<P>)
    ensures GetStrings(r, ScannedKey) == queries
    ensures Others(gs, r, {ScannedKey})
  {
    gs[ScannedKey := Strings(queries)]
  }

  function ClearScannedQueries<P(==)>(gs: State<P>): (r: State<P>)
    ensures GetStrings(r, ScannedKey) == []
    ensures Others(gs, r, {ScannedKey})
  {
    gs[ScannedKey := Strings([])]
  }
}
