/** The extension's persistent key-value store (VS Code `globalState`) as a map from keys to
    values, with the read-modify-write operations both storage classes perform on it. `P` stands
    for the untyped parameter objects the client stores. */
module GlobalState {
  /** One executed query in the history. */
  datatype Entry<P> = Entry(query: string, params: P, isNative: bool, timestamp: string)

  /** A saved favourite. */
  datatype Favorite<P> = Favorite(query: string, params: P, isNative: bool)

  /** The shapes of value stored under the keys the client uses. */
  datatype Value<P> =
    | Strings(strings: seq<string>)
    | Entries(entries: seq<Entry<P>>)
    | Record(record: map<string, P>)
    | Favorites(favorites: map<string, Favorite<P>>)

  type State<P> = map<string, Value<P>>

  /** `get(key, [])` for a list of strings. */
  function GetStrings<P>(gs: State<P>, key: string): seq<string> {
    if key in gs && gs[key].Strings? then gs[key].strings else []
  }

  /** `get(key, [])` for a list of history entries. */
  function GetEntries<P>(gs: State<P>, key: string): seq<Entry<P>> {
    if key in gs && gs[key].Entries? then gs[key].entries else []
  }

  /** `get(key, {})` for an object of parameter values. */
  function GetRecord<P>(gs: State<P>, key: string): map<string, P> {
    if key in gs && gs[key].Record? then gs[key].record else map[]
  }

  /** `get(key, {})` for an object of favourites. */
  function GetFavorites<P>(gs: State<P>, key: string): map<string, Favorite<P>> {
    if key in gs && gs[key].Favorites? then gs[key].favorites else map[]
  }

  /** Every key outside `keys` is bound exactly as before. */
  ghost predicate Others<P>(gs: State<P>, r: State<P>, keys: set<string>) {
    forall k :: k !in keys ==> (k in gs <==> k in r) && (k in gs ==> gs[k] == r[k])
  }

  /** `o = get(key, {}); o[name] = v; update(key, o)`. */
  function SetRecordEntry<P(==)>(gs: State<P>, key: string, name: string, v: P): (r: State<P>)
    ensures GetRecord(r, key) == GetRecord(gs, key)[name := v]
    ensures name in GetRecord(r, key) && GetRecord(r, key)[name] == v
    ensures forall n :: n != name ==>
      (n in GetRecord(r, key) <==> n in GetRecord(gs, key)) &&
      (n in GetRecord(gs, key) ==> GetRecord(r, key)[n] == GetRecord(gs, key)[n])
    ensures Others(gs, r, {key})
  {
    gs[key := Record(GetRecord(gs, key)[name := v])]
  }

  /** `o = get(key, {}); if (o[name]) { delete o[name]; update(key, o) }`: only a present, truthy
      value is removed; otherwise nothing is written. */
  function RemoveRecordEntry<P(==)>(gs: State<P>, key: string, name: string, truthy: P -> bool): (r: State<P>)
    ensures var o := GetRecord(gs, key);
      if name in o && truthy(o[name]) then GetRecord(r, key) == o - {name} && Others(gs, r, {key})
      else r == gs
    ensures name !in GetRecord(gs, key) ==> r == gs
  {
    var o := GetRecord(gs, key);
    if name in o && truthy(o[name]) then gs[key := Record(o - {name})] else gs
  }

  function SetFavorite<P(==)>(gs: State<P>, key: string, name: string, f: Favorite<P>): (r: State<P>)
    ensures GetFavorites(r, key) == GetFavorites(gs, key)[name := f]
    ensures name in GetFavorites(r, key) && GetFavorites(r, key)[name] == f
    ensures Others(gs, r, {key})
  {
    gs[key := Favorites(GetFavorites(gs, key)[name := f])]
  }

  /** Favourites are objects, so a present one is always truthy. */
  function RemoveFavorite<P(==)>(gs: State<P>, key: string, name: string): (r: State<P>)
    ensures name in GetFavorites(gs, key) ==>
      GetFavorites(r, key) == GetFavorites(gs, key) - {name} && Others(gs, r, {key})
    ensures name !in GetFavorites(gs, key) ==> r == gs
    ensures name !in GetFavorites(r, key)
  {
    var o := GetFavorites(gs, key);
    if name in o then gs[key := Favorites(o - {name})] else gs
  }

  /** Removing a name leaves every other name's value as it was. */
  lemma RemoveKeepsOtherNames<P>(gs: State<P>, key: string, name: string, truthy: P -> bool, other: string)
    requires other != name
    ensures var before := GetRecord(gs, key); var after := GetRecord(RemoveRecordEntry(gs, key, name, truthy), key);
      (other in after <==> other in before) && (other in before ==> after[other] == before[other])
  {}

  /** The query strings of a history, in order. */
  function QueriesOf<P>(h: seq<Entry<P>>): (r: seq<string>)
    ensures |r| == |h| && forall i :: 0 <= i < |h| ==> r[i] == h[i].query
  {
    seq(|h|, i requires 0 <= i < |h| => h[i].query)
  }
}
