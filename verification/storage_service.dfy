/** `StorageService` (client/src/services/storageService.ts): a prepend-only history of at most
    100 entries and de-duplicated scanned queries. Its parameter, favourite and parameter-set
    operations use the same keys and the same code as `Storage`'s and are modelled there. */
module StorageService {
  import opened GlobalState
  import opened Seqs

  const MaxHistory: nat := 100

  const HistoryKey := "queryHistory"
  const ScannedKey := "scannedQueries"

  function GetQueryHistory<P>(gs: State<P>): seq<Entry<P>> {
    GetEntries(gs, HistoryKey)
  }

  /** `unshift` then one `pop` past 100. */
  function Prepend<P>(h: seq<Entry<P>>, e: Entry<P>): (r: seq<Entry<P>>)
    ensures |r| >= 1 && r[0] == e
    ensures |r| == (if |h| + 1 > MaxHistory then |h| else |h| + 1) && r[1..] == h[..|r| - 1]
  {
    var grown := [e] + h;
    if |grown| > MaxHistory then grown[..|grown| - 1] else grown
  }

  /** `saveQuery`: the new entry goes first, with no de-duplication. */
  function SaveQuery<P(==)>(gs: State<P>, q: string, params: P, isNative: bool, now: string): (r: State<P>)
    ensures GetQueryHistory(r) == Prepend(GetQueryHistory(gs), Entry(q, params, isNative, now))
    ensures Others(gs, r, {HistoryKey})
  {
    gs[HistoryKey := Entries(Prepend(GetQueryHistory(gs), Entry(q, params, isNative, now)))]
  }

  /** A history within 100 entries stays within 100; a full one loses only its last entry. */
  lemma PrependBounded<P>(h: seq<Entry<P>>, e: Entry<P>)
    requires |h| <= MaxHistory
    ensures |Prepend(h, e)| <= MaxHistory
    ensures |h| < MaxHistory ==> Prepend(h, e) == [e] + h
    ensures |h| == MaxHistory ==> Prepend(h, e) == [e] + h[..MaxHistory - 1]
  {
    var r := Prepend(h, e);
    assert r == [r[0]] + r[1..];
  }

  /** Saving the same query twice keeps both entries. */
  lemma SaveQueryKeepsDuplicates<P>(gs: State<P>, q: string, params: P, isNative: bool, now: string)
    requires |GetQueryHistory(gs)| + 2 <= MaxHistory
    ensures var twice := SaveQuery(SaveQuery(gs, q, params, isNative, now), q, params, isNative, now);
      GetQueryHistory(twice)[..2] == [Entry(q, params, isNative, now), Entry(q, params, isNative, now)]
  {
    var e := Entry(q, params, isNative, now);
    var once := SaveQuery(gs, q, params, isNative, now);
    PrependBounded(GetQueryHistory(gs), e);
    PrependBounded(GetQueryHistory(once), e);
  }

  function ClearQueries<P(==)>(gs: State<P>): (r: State<P>)
    ensures GetQueryHistory(r) == []
    ensures Others(gs, r, {HistoryKey})
  {
    gs[HistoryKey := Entries([])]
  }

  /** `saveScannedQueries`: `[...new Set(queries)]`, first occurrences in order. */
  function SaveScannedQueries<P(==)>(gs: State<P>, queries: seq<string>): (r: State<P>)
    ensures var stored := GetStrings(r, ScannedKey);
      NoDups(stored) && (forall x :: x in stored <==> x in queries) &&
      (forall i, j :: 0 <= i < j < |stored| ==> FirstIndex(queries, stored[i]) < FirstIndex(queries, stored[j]))
    ensures NoDups(queries) ==> GetStrings(r, ScannedKey) == queries
    ensures Others(gs, r, {ScannedKey})
  {
    DedupeSpec(queries);
    assert NoDups(queries) ==> Dedupe(queries) == queries by {
      if NoDups(queries) { DedupeOfNoDups(queries); }
    }
    gs[ScannedKey := Strings(Dedupe(queries))]
  }
}
