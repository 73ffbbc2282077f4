/** The client-side query service: keyword normalisation, the column-union result table, the
    quote pre-processing of the formatter, and the state kept between executions. The sidebar
    carries identical copies of the first three. */
module QueryService {
  import opened Wrappers
  import opened Text
  import opened Regex
  import opened Seqs

  // ---------------------------------------------------------------------------------------
  // normalizeQuery

  const Keywords: seq<string> := [
    "SELECT", "FROM", "WHERE", "JOIN", "LEFT", "RIGHT", "INNER", "OUTER",
    "GROUP BY", "ORDER BY", "HAVING", "LIMIT", "OFFSET", "AND", "OR"
  ]

  /** `new RegExp('\\b' + kw + '\\b', 'i')` matches at `i`. With the `i` flag and no `u` flag a
      character matches a pattern character when its ASCII upper case is that character. */
  predicate KeywordAt(s: string, i: nat, kw: string) {
    && i + |kw| <= |s|
    && AtWordBoundary(s, i)
    && AtWordBoundary(s, i + |kw|)
    && forall j :: 0 <= j < |kw| ==> ToUpper(s[i + j]) == kw[j]
  }

  /** The leftmost match at or after `i`. */
  function FirstKeyword(s: string, kw: string, i: nat): (r: Option<nat>)
    requires i <= |s|
    ensures r.Some? ==> i <= r.value && KeywordAt(s, r.value, kw)
    ensures r.Some? ==> forall j :: i <= j < r.value ==> !KeywordAt(s, j, kw)
    ensures r.None? ==> forall j :: i <= j <= |s| ==> !KeywordAt(s, j, kw)
    decreases |s| - i
  {
    if KeywordAt(s, i, kw) then Some(i)
    else if i == |s| then None
    else FirstKeyword(s, kw, i + 1)
  }

  /** `s.replace(regex, kw)` for the non-global keyword regex: only the first match is
      rewritten, and it is rewritten to the keyword's own spelling. */
  function ReplaceFirst(s: string, kw: string): (r: string)
    ensures |r| == |s|
    ensures FirstKeyword(s, kw, 0).None? ==> r == s
    ensures FirstKeyword(s, kw, 0).Some? ==>
      var i := FirstKeyword(s, kw, 0).value;
      r[i..i + |kw|] == kw && r[..i] == s[..i] && r[i + |kw|..] == s[i + |kw|..]
  {
    match FirstKeyword(s, kw, 0)
    case None => s
    case Some(i) => s[..i] + kw + s[i + |kw|..]
  }

  function NormalizeWith(s: string, kws: seq<string>): (r: string)
    ensures |r| == |s|
    decreases |kws|
  {
    if kws == [] then s else NormalizeWith(ReplaceFirst(s, kws[0]), kws[1..])
  }

  /** `normalizeQuery`: each keyword in turn has its first whole-word, case-insensitive
      occurrence spelled in upper case. */
  function NormalizeQuery(query: string): (r: string)
    ensures |r| == |query|
  {
    NormalizeWith(query, Keywords)
  }

  /** `s` with the characters at the positions in `xs` upper-cased. */
  function UpOn(s: string, xs: set<nat>): (r: string)
    ensures |r| == |s|
    ensures forall x :: 0 <= x < |s| ==> r[x] == if x in xs then ToUpper(s[x]) else s[x]
  {
    seq(|s|, x requires 0 <= x < |s| => if x in xs then ToUpper(s[x]) else s[x])
  }

  /** The positions a keyword's first match covers, read off the upper-case image. */
  function Region(u: string, kw: string): set<nat> {
    match FirstKeyword(u, kw, 0)
    case None => {}
    case Some(i) => Interval(i, i + |kw|)
  }

  function Interval(a: nat, b: nat): (r: set<nat>)
    ensures forall x :: x in r <==> a <= x < b
    decreases b - a
  {
    if a >= b then {} else {a} + Interval(a + 1, b)
  }

  function Covered(u: string, kws: seq<string>): set<nat>
    decreases |kws|
  {
    if kws == [] then {} else Region(u, kws[0]) + Covered(u, kws[1..])
  }

  lemma UpperStrIdempotent(s: string)
    ensures UpperStr(UpperStr(s)) == UpperStr(s)
  {
    forall x | 0 <= x < |s| ensures UpperStr(UpperStr(s))[x] == UpperStr(s)[x] {
      UpperIdempotent(s[x]);
    }
  }

  lemma SameUpperSameWordChars(s: string, t: string, x: nat)
    requires UpperStr(s) == UpperStr(t) && x < |s|
    ensures IsWordChar(s[x]) <==> IsWordChar(t[x])
  {
    assert UpperStr(s)[x] == UpperStr(t)[x];
    UpperKeepsWordChar(s[x]);
    UpperKeepsWordChar(t[x]);
  }

  /** Whether a keyword matches depends only on the upper-case image of the text. */
  lemma KeywordAtUpper(s: string, t: string, i: nat, kw: string)
    requires UpperStr(s) == UpperStr(t)
    ensures KeywordAt(s, i, kw) <==> KeywordAt(t, i, kw)
  {
    assert |s| == |t| by { assert |UpperStr(s)| == |UpperStr(t)|; }
    forall x | 0 <= x < |s| ensures ToUpper(s[x]) == ToUpper(t[x]) {
      assert UpperStr(s)[x] == UpperStr(t)[x];
    }
    forall x | 0 <= x < |s| ensures IsWordChar(s[x]) <==> IsWordChar(t[x]) {
      SameUpperSameWordChars(s, t, x);
    }
  }

  lemma {:induction false} FirstKeywordUpper(s: string, t: string, kw: string, i: nat)
    requires UpperStr(s) == UpperStr(t) && i <= |s|
    ensures |t| == |s| && FirstKeyword(s, kw, i) == FirstKeyword(t, kw, i)
    decreases |s| - i
  {
    assert |UpperStr(s)| == |UpperStr(t)|;
    KeywordAtUpper(s, t, i, kw);
    if !KeywordAt(s, i, kw) && i < |s| {
      FirstKeywordUpper(s, t, kw, i + 1);
    }
  }

  /** Rewriting a keyword only upper-cases the characters of its first match. */
  lemma ReplaceFirstIsUpOn(s: string, kw: string)
    ensures ReplaceFirst(s, kw) == UpOn(s, Region(UpperStr(s), kw))
  {
    UpperStrIdempotent(s);
    FirstKeywordUpper(s, UpperStr(s), kw, 0);
    var r := ReplaceFirst(s, kw);
    var u := UpOn(s, Region(UpperStr(s), kw));
    match FirstKeyword(s, kw, 0)
    case None =>
    case Some(i) =>
      forall x | 0 <= x < |s| ensures r[x] == u[x] {
        if i <= x < i + |kw| {
          assert r[x] == r[i..i + |kw|][x - i] == kw[x - i];
          assert ToUpper(s[i + (x - i)]) == kw[x - i];
        } else if x < i {
          assert r[x] == r[..i][x] == s[..i][x];
        } else {
          assert r[x] == r[i + |kw|..][x - i - |kw|] == s[i + |kw|..][x - i - |kw|];
        }
      }
  }

  lemma UpOnKeepsUpper(s: string, xs: set<nat>)
    ensures UpperStr(UpOn(s, xs)) == UpperStr(s)
  {
    forall x | 0 <= x < |s| ensures UpperStr(UpOn(s, xs))[x] == UpperStr(s)[x] {
      UpperIdempotent(s[x]);
    }
  }

  lemma UpOnTwice(s: string, xs: set<nat>, ys: set<nat>)
    ensures UpOn(UpOn(s, xs), ys) == UpOn(s, xs + ys)
  {
    forall x | 0 <= x < |s| ensures UpOn(UpOn(s, xs), ys)[x] == UpOn(s, xs + ys)[x] {
      UpperIdempotent(s[x]);
    }
  }

  /** The whole normalisation upper-cases a set of positions fixed by the upper-case image. */
  lemma {:induction false} NormalizeWithIsUpOn(s: string, kws: seq<string>)
    ensures NormalizeWith(s, kws) == UpOn(s, Covered(UpperStr(s), kws))
    decreases |kws|
  {
    if kws == [] {
      assert UpOn(s, {}) == s;
    } else {
      var s1 := ReplaceFirst(s, kws[0]);
      ReplaceFirstIsUpOn(s, kws[0]);
      UpOnKeepsUpper(s, Region(UpperStr(s), kws[0]));
      NormalizeWithIsUpOn(s1, kws[1..]);
      UpOnTwice(s, Region(UpperStr(s), kws[0]), Covered(UpperStr(s), kws[1..]));
    }
  }

  /** `normalizeQuery` only changes letter case: every character is kept or replaced by its
      upper case, so the length and the upper-case image are those of the input. */
  lemma NormalizeChangesCaseOnly(query: string)
    ensures var r := NormalizeQuery(query);
      && |r| == |query|
      && UpperStr(r) == UpperStr(query)
      && forall x :: 0 <= x < |query| ==> r[x] == query[x] || r[x] == ToUpper(query[x])
  {
    NormalizeWithIsUpOn(query, Keywords);
    UpOnKeepsUpper(query, Covered(UpperStr(query), Keywords));
  }

  /** Normalising twice is normalising once. */
  lemma NormalizeIdempotent(query: string)
    ensures NormalizeQuery(NormalizeQuery(query)) == NormalizeQuery(query)
  {
    NormalizeWithIdempotent(query, Keywords);
  }

  lemma NormalizeWithIdempotent(s: string, kws: seq<string>)
    ensures NormalizeWith(NormalizeWith(s, kws), kws) == NormalizeWith(s, kws)
  {
    var c := Covered(UpperStr(s), kws);
    var n := NormalizeWith(s, kws);
    assert n == UpOn(s, c) by { NormalizeWithIsUpOn(s, kws); }
    assert UpperStr(n) == UpperStr(s) by { UpOnKeepsUpper(s, c); }
    assert NormalizeWith(n, kws) == UpOn(n, c) by { NormalizeWithIsUpOn(n, kws); }
    assert UpOn(n, c) == UpOn(s, c) by {
      UpOnTwice(s, c, c);
      assert c + c == c;
    }
  }

  /** No whole-word match of any of `kws` spans position `x`. */
  predicate OutsideMatches(s: string, kws: seq<string>, x: nat) {
    forall k: nat, i: nat :: k < |kws| && i <= x < i + |kws[k]| ==> !KeywordAt(s, i, kws[k])
  }

  /** A keyword is rewritten only at a whole-word occurrence: a character that lies in no
      whole-word keyword match, like the `from` of `fromDate`, keeps its case. */
  lemma NormalizeTouchesOnlyKeywords(query: string, x: nat)
    requires x < |query| && OutsideMatches(query, Keywords, x)
    ensures NormalizeQuery(query)[x] == query[x]
  {
    NormalizeWithOutside(query, Keywords, x);
  }

  lemma NormalizeWithOutside(s: string, kws: seq<string>, x: nat)
    requires x < |s| && OutsideMatches(s, kws, x)
    ensures NormalizeWith(s, kws)[x] == s[x]
  {
    NormalizeWithIsUpOn(s, kws);
    CoveredNeedsMatch(s, kws, x);
  }

  lemma {:induction false} CoveredNeedsMatch(s: string, kws: seq<string>, x: nat)
    requires OutsideMatches(s, kws, x)
    ensures x !in Covered(UpperStr(s), kws)
    decreases |kws|
  {
    if kws != [] {
      UpperStrIdempotent(s);
      FirstKeywordUpper(s, UpperStr(s), kws[0], 0);
      assert OutsideMatches(s, kws[1..], x) by {
        forall k: nat, i: nat | k < |kws[1..]| && i <= x < i + |kws[1..][k]|
          ensures !KeywordAt(s, i, kws[1..][k])
        {
          assert kws[1..][k] == kws[k + 1];
        }
      }
      CoveredNeedsMatch(s, kws[1..], x);
      match FirstKeyword(s, kws[0], 0)
      case None =>
      case Some(i) =>
        assert KeywordAt(s, i, kws[0]);
    }
  }

  // ---------------------------------------------------------------------------------------
  // formatResults

  /** A property value as JavaScript sees it: `undefined`, `null` or a value. */
  datatype Field<T> = Undefined | Null | Val(v: T)

  /** A result object: its properties in `Object.keys` order. */
  type Item<T> = seq<(string, Field<T>)>

  function Keys<T>(item: Item<T>): (ks: seq<string>)
    ensures |ks| == |item| && forall i :: 0 <= i < |item| ==> ks[i] == item[i].0
  {
    seq(|item|, i requires 0 <= i < |item| => item[i].0)
  }

  /** `item[key]` for an own property: the value stored under `key`, `undefined` when there is
      none. Names inherited from `Object.prototype` are not looked up. */
  function Lookup<T>(item: Item<T>, key: string): Field<T>
    decreases |item|
  {
    if item == [] then Undefined
    else if item[0].0 == key then item[0].1
    else Lookup(item[1..], key)
  }

  /** Every key of every item, in the order `forEach` visits them. */
  function AllKeyVisits<T>(items: seq<Item<T>>): seq<string>
    decreases |items|
  {
    if items == [] then [] else Keys(items[0]) + AllKeyVisits(items[1..])
  }

  datatype Formatted<T> = NoResults | Table(columns: seq<string>, rows: seq<map<string, Field<T>>>)

  function FormatRow<T>(item: Item<T>, columns: seq<string>): map<string, Field<T>> {
    map k | k in columns :: if Lookup(item, k).Undefined? then Null else Lookup(item, k)
  }

  /** `formatResults`: `[]` for `null` or an empty list; otherwise the columns are the keys in
      first-seen order (`Array.from(new Set(...))`) and every row maps every column to the
      item's value, or `null` where it has none. */
  function FormatResults<T>(results: Option<seq<Item<T>>>): (r: Formatted<T>)
    ensures results.None? || results.value == [] <==> r.NoResults?
    ensures r.Table? ==> |r.rows| == |results.value|
    ensures r.Table? ==> forall i, k :: 0 <= i < |r.rows| && k in r.columns ==>
      k in r.rows[i] && r.rows[i][k] == (if Lookup(results.value[i], k).Undefined? then Null
                                         else Lookup(results.value[i], k))
    ensures r.Table? ==> forall i :: 0 <= i < |r.rows| ==> r.rows[i].Keys == set k | k in r.columns
  {
    if results.None? || results.value == [] then NoResults
    else
      var items := results.value;
      var columns := Dedupe(AllKeyVisits(items));
      Table(columns, seq(|items|, i requires 0 <= i < |items| => FormatRow(items[i], columns)))
  }

  lemma {:induction false} AllKeyVisitsMembers<T>(items: seq<Item<T>>, k: string)
    ensures k in AllKeyVisits(items) <==> exists i :: 0 <= i < |items| && k in Keys(items[i])
    decreases |items|
  {
    if items != [] {
      AllKeyVisitsMembers(items[1..], k);
      if exists i :: 0 <= i < |items| && k in Keys(items[i]) {
        var i :| 0 <= i < |items| && k in Keys(items[i]);
        if i > 0 { assert items[1..][i - 1] == items[i]; }
      }
      if exists i :: 0 <= i < |items[1..]| && k in Keys(items[1..][i]) {
        var i :| 0 <= i < |items[1..]| && k in Keys(items[1..][i]);
        assert items[1..][i] == items[i + 1];
      }
    }
  }

  /** The columns are exactly the keys that occur in some item, each once, in the order of
      their first appearance. */
  lemma FormatResultsColumns<T>(items: seq<Item<T>>)
    requires items != []
    ensures var r := FormatResults(Some(items));
      && NoDups(r.columns)
      && (forall k :: k in r.columns <==> exists i :: 0 <= i < |items| && k in Keys(items[i]))
      && (forall k :: k in r.columns ==> k in AllKeyVisits(items))
      && (forall a, b :: 0 <= a < b < |r.columns| ==>
            FirstIndex(AllKeyVisits(items), r.columns[a]) < FirstIndex(AllKeyVisits(items), r.columns[b]))
  {
    DedupeSpec(AllKeyVisits(items));
    forall k ensures k in AllKeyVisits(items) <==> exists i :: 0 <= i < |items| && k in Keys(items[i]) {
      AllKeyVisitsMembers(items, k);
    }
  }

  /** No cell of a formatted row is `undefined`. */
  lemma FormatResultsHasNoUndefined<T>(items: seq<Item<T>>)
    requires items != []
    ensures var r := FormatResults(Some(items));
      forall i, k :: 0 <= i < |r.rows| && k in r.rows[i] ==> !r.rows[i][k].Undefined?
  {}

  // ---------------------------------------------------------------------------------------
  // formatQuery pre-processing

  /** Step 1 of `formatQuery`: trim, then drop one pair of outer quotes when the first and last
      characters are the same quote character. For a one-character text `substring(1, 0)`
      swaps its arguments and returns that character. */
  function StripOuterQuotes(query: string): string {
    Unquote(Trim(query))
  }

  /** One pair of outer quotes dropped from an already trimmed text. */
  function Unquote(t: string): (r: string)
    ensures t != [] && IsQuote(t[0]) && t[0] == t[|t| - 1] && |t| >= 2 ==> r == t[1..|t| - 1]
    ensures !(t != [] && IsQuote(t[0]) && t[0] == t[|t| - 1] && |t| >= 2) ==> r == t
  {
    if t != [] && IsQuote(t[0]) && t[0] == t[|t| - 1] then
      if |t| == 1 then t else t[1..|t| - 1]
    else t
  }

  /** `["']\s*\+\s*["']` at the start of `s`: the length of the joint. */
  function JointAt(s: string): (r: Option<nat>)
    ensures r.Some? ==> 3 <= r.value <= |s| && IsQuote(s[0]) && IsQuote(s[r.value - 1])
    ensures r.Some? ==> '+' in s[..r.value]
  {
    if s == [] || !IsQuote(s[0]) then None
    else
      var a := SkipSpaces(s, 1);
      if a == |s| || s[a] != '+' then None
      else
        var b := SkipSpaces(s, a + 1);
        if b == |s| || !IsQuote(s[b]) then None
        else
          assert s[..b + 1][a] == '+';
          Some(b + 1)
  }

  /** `replace(/["']\s*\+\s*["']/g, ' ')`: every concatenation joint, closing quote to
      opening quote, becomes one space. */
  function ReplaceJoints(s: string): (r: string)
    ensures |r| <= |s|
    ensures '+' !in s ==> r == s
    decreases |s|
  {
    if s == [] then []
    else match JointAt(s)
      case Some(e) => " " + ReplaceJoints(s[e..])
      case None =>
        assert '+' !in s ==> '+' !in s[1..];
        [s[0]] + ReplaceJoints(s[1..])
  }

  /** The pre-processing that precedes the layout of `formatQuery`. */
  function PrepareForFormat(query: string): string {
    ReplaceJoints(StripOuterQuotes(query))
  }

  /** A query not wrapped in quotes and without `+` passes through trimmed. */
  lemma PreparePlainQuery(query: string)
    requires var t := Trim(query); t == [] || !IsQuote(t[0])
    requires '+' !in query
    ensures PrepareForFormat(query) == Trim(query)
  {
    var t := Trim(query);
    assert '+' !in t by { TrimChars(query); }
    assert StripOuterQuotes(query) == Unquote(t) == t;
  }

  lemma {:induction false} CountConcat(a: string, b: string, c: char)
    ensures CountChar(a + b, c) == CountChar(a, c) + CountChar(b, c)
    decreases |a|
  {
    if a == [] {
      assert a + b == b;
    } else {
      assert (a + b)[0] == a[0];
      assert (a + b)[1..] == a[1..] + b;
      CountConcat(a[1..], b, c);
    }
  }

  /** The replacement never adds a `+`, and every joint it replaces takes one away. */
  lemma {:induction false} ReplaceJointsRemovesPlus(s: string)
    ensures CountChar(ReplaceJoints(s), '+') <= CountChar(s, '+')
    ensures JointAt(s).Some? ==> CountChar(ReplaceJoints(s), '+') < CountChar(s, '+')
    decreases |s|
  {
    if s != [] {
      match JointAt(s)
      case Some(e) =>
        ReplaceJointsRemovesPlus(s[e..]);
        assert s == s[..e] + s[e..];
        CountConcat(s[..e], s[e..], '+');
        CountConcat(" ", ReplaceJoints(s[e..]), '+');
      case None =>
        ReplaceJointsRemovesPlus(s[1..]);
        assert s == [s[0]] + s[1..];
        CountConcat([s[0]], s[1..], '+');
        CountConcat([s[0]], ReplaceJoints(s[1..]), '+');
    }
  }

  // ---------------------------------------------------------------------------------------
  // Service state and executeQuery

  datatype Service = Service(serverPort: int, serverHost: string, hibernateVersion: string)

  /** The constructor: port 8089 and host 127.0.0.1 unless given, Hibernate 5.6.15. */
  function NewService(port: Option<int>, host: Option<string>): (s: Service)
    ensures s.serverPort == (if port.Some? then port.value else 8089)
    ensures s.serverHost == (if host.Some? then host.value else "127.0.0.1")
    ensures s.hibernateVersion == "5.6.15"
  {
    Service(if port.Some? then port.value else 8089,
            if host.Some? then host.value else "127.0.0.1",
            "5.6.15")
  }

  /** The configuration object passed along; only `hibernateVersion` is read here. */
  datatype Config<C> = Config(hibernateVersion: Option<string>, rest: C)

  /** What is forwarded to the query client. */
  datatype Forwarded<P, C> = Forwarded(query: string, params: P, isNative: bool, config: Config<C>)

  /** `executeQuery`: forward the normalised query with the other arguments unchanged, and take
      over the configuration's Hibernate version when it is a non-empty string. */
  function ExecuteQuery<P, C>(s: Service, query: string, params: P, isNative: bool, config: Config<C>)
    : (r: (Service, Forwarded<P, C>))
    ensures r.1 == Forwarded(NormalizeQuery(query), params, isNative, config)
    ensures r.0.serverPort == s.serverPort && r.0.serverHost == s.serverHost
    ensures config.hibernateVersion.Some? && config.hibernateVersion.value != [] ==>
      r.0.hibernateVersion == config.hibernateVersion.value
    ensures !(config.hibernateVersion.Some? && config.hibernateVersion.value != []) ==>
      r.0 == s
  {
    var version := if config.hibernateVersion.Some? && config.hibernateVersion.value != []
      then config.hibernateVersion.value else s.hibernateVersion;
    (s.(hibernateVersion := version), Forwarded(NormalizeQuery(query), params, isNative, config))
  }
}
