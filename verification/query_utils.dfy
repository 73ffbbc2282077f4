/** `QueryUtils` of client/src/utils/queryUtils.ts: scanning Java source text for query sites,
    stitching concatenated literals, normalising whitespace, de-duplicating and classifying.
    Each `/g` regular expression is a hand-written matcher at one position plus the `exec` loop
    that restarts after every match. */
module QueryUtils {
  import opened Wrappers
  import opened Text
  import opened Regex
  import opened Classifier
  import opened KeyedSeqs

  /** A scanned query. `isNative` is `None` only when no hint was given and nothing was
      extracted. */
  datatype QueryInfo = QueryInfo(query: string, isNative: Option<bool>)

  // ---------------------------------------------------------------------------------------
  // formatQueryScan and isDuplicateQuery

  /** `query.replace(/\s+/g, ' ').trim()`. */
  function FormatQueryScan(query: string): string {
    Trim(CollapseSpaces(query))
  }

  /** The normal form has no white space at either end, no two white-space characters in a row,
      and only plain spaces; and normalising twice is normalising once. */
  lemma FormatQueryScanSpec(query: string)
    ensures var r := FormatQueryScan(query);
      && Collapsed(r)
      && (r == [] || (!IsSpace(r[0]) && !IsSpace(r[|r| - 1])))
      && FormatQueryScan(r) == r
  {
    var r := FormatQueryScan(query);
    TrimKeepsCollapsed(CollapseSpaces(query));
    TrimEnds(CollapseSpaces(query));
    CollapseSpacesOfCollapsed(r);
    TrimOfTrimmed(r);
  }

  /** `queries.some(q => formatQueryScan(q.query) === formatQueryScan(newQuery))`. */
  function IsDuplicateQuery(queries: seq<QueryInfo>, newQuery: string): bool
    decreases |queries|
  {
    queries != [] &&
      (FormatQueryScan(queries[0].query) == FormatQueryScan(newQuery) || IsDuplicateQuery(queries[1..], newQuery))
  }

  lemma {:induction false} IsDuplicateQuerySpec(queries: seq<QueryInfo>, newQuery: string)
    ensures IsDuplicateQuery(queries, newQuery) <==>
      exists i :: 0 <= i < |queries| && FormatQueryScan(queries[i].query) == FormatQueryScan(newQuery)
    decreases |queries|
  {
    if queries != [] {
      IsDuplicateQuerySpec(queries[1..], newQuery);
      if IsDuplicateQuery(queries[1..], newQuery) {
        var i :| 0 <= i < |queries[1..]| && FormatQueryScan(queries[1..][i].query) == FormatQueryScan(newQuery);
        assert queries[i + 1] == queries[1..][i];
      }
      forall i | 1 <= i < |queries| && FormatQueryScan(queries[i].query) == FormatQueryScan(newQuery)
        ensures IsDuplicateQuery(queries[1..], newQuery)
      {
        assert queries[1..][i - 1] == queries[i];
      }
    }
  }

  // ---------------------------------------------------------------------------------------
  // determineIfNative

  const Alpha: Class := Union(Range('a', 'z'), Range('A', 'Z'))
  const Alnum: Class := Union(Alpha, Range('0', '9'))
  const LowerOrUnderscore: Class := Union(Range('a', 'z'), Single('_'))
  const NameOrDot: Class := Union(Alnum, Union(Single('_'), Single('.')))

  /** `\b[A-Z][a-zA-Z0-9]*\b(?!\s*\.)`, without the `i` flag: a capitalised word not followed by
      a dot. */
  const EntityName: Re :=
    Chain([WordBoundary, Ch(Range('A', 'Z')), Star(Ch(Alnum)), WordBoundary,
           NotFollowedBy(Cat(Spaces, Lit(".")))])

  const JoinFetch: Re := Chain([Lit("JOIN"), Spaces1, Lit("FETCH")])
  const MemberOf: Re := Chain([WordBoundary, Lit("MEMBER"), Spaces1, Lit("OF"), WordBoundary])
  const IsEmpty: Re := Chain([WordBoundary, Lit("IS"), Spaces1, Lit("EMPTY"), WordBoundary])
  const NewConstructor: Re :=
    Chain([WordBoundary, Lit("NEW"), Spaces1, Plus(Ch(NameOrDot)), Spaces, Lit("(")])
  const FromEntity: Re :=
    Chain([WordBoundary, Lit("FROM"), Spaces1, Ch(Range('A', 'Z')), Star(Ch(Alnum)), WordBoundary])
  const PropertyAccess: Re := Chain([Lit("."), Ch(Alpha), Star(Ch(Alnum)), WordBoundary])

  const SchemaTableColumn: Re :=
    Chain([WordBoundary, Plus(Ch(LowerOrUnderscore)), Lit("."), Plus(Ch(LowerOrUnderscore)),
           Lit("."), Plus(Ch(LowerOrUnderscore)), WordBoundary])
  const TableColumn: Re :=
    Chain([WordBoundary, Plus(Ch(LowerOrUnderscore)), Lit("."), Plus(Ch(LowerOrUnderscore)), WordBoundary])
  const ToChar: Re := Chain([Lit("to_char"), Spaces, Lit("(")])
  const SnakeCase: Re :=
    Chain([WordBoundary, Plus(Ch(LowerOrUnderscore)), Lit("_"), Plus(Ch(LowerOrUnderscore)), WordBoundary])

  /** The six case-insensitive JPQL patterns, each worth 2. */
  const JpqlPatterns: seq<Cond> := [
    Matches(JoinFetch, true), Matches(MemberOf, true), Matches(IsEmpty, true),
    Matches(NewConstructor, true), Matches(FromEntity, true), Matches(PropertyAccess, true)
  ]

  /** The four case-insensitive native patterns, each worth 2. */
  const NativePatterns: seq<Cond> := [
    Matches(SchemaTableColumn, true), Matches(TableColumn, true), Matches(ToChar, true),
    Matches(SnakeCase, true)
  ]

  /** JPQL: the patterns, then a capitalised entity name worth 2. */
  const JpqlIndicators: seq<Indicator> :=
    Weighted(JpqlPatterns, 2) + [Indicator(Matches(EntityName, false), 2)]

  /** Native: the patterns, then any underscore worth 1. */
  const NativeIndicators: seq<Indicator> :=
    Weighted(NativePatterns, 2) + [Indicator(HasChar('_'), 1)]

  /** Ties go to native SQL: `nativeScore >= jpqlScore`. */
  const Scheme: Classifier.Scheme := Classifier.Scheme(NativeIndicators, JpqlIndicators, FavorNative)

  function DetermineIfNative(query: string): bool {
    IsNative(Scheme, query)
  }

  /** An indicator that cannot hold of the empty text. */
  predicate NeedsInput(cond: Cond) {
    match cond
    case Matches(re, _) => MinLen(re) > 0
    case HasChar(_) => true
    case Both(a, b) => NeedsInput(a) || NeedsInput(b)
    case Lacks(_) => false
  }

  lemma {:induction false} NeedsInputFailsOnEmpty(cond: Cond)
    requires NeedsInput(cond)
    ensures !Holds(cond, [])
  {
    match cond
    case Matches(re, ci) => NoMatchInEmpty(re, ci);
    case HasChar(_) =>
    case Both(a, b) =>
      if NeedsInput(a) { NeedsInputFailsOnEmpty(a); } else { NeedsInputFailsOnEmpty(b); }
  }

  /** A chain with a non-empty literal in it must consume input. */
  lemma ChainWithLit(rs: seq<Re>, i: nat, w: string)
    requires i < |rs| && rs[i] == Lit(w) && w != []
    ensures MinLen(Chain(rs)) > 0
  {
    LitMinLen(w);
    ChainMinLen(rs, i);
  }

  lemma JpqlPatternsNeedInput()
    ensures forall i :: 0 <= i < |JpqlPatterns| ==> NeedsInput(JpqlPatterns[i])
  {
    assert MinLen(JoinFetch) > 0 by {
      ChainWithLit([Lit("JOIN"), Spaces1, Lit("FETCH")], 0, "JOIN");
    }
    assert MinLen(MemberOf) > 0 by {
      ChainWithLit([WordBoundary, Lit("MEMBER"), Spaces1, Lit("OF"), WordBoundary], 1, "MEMBER");
    }
    assert MinLen(IsEmpty) > 0 by {
      ChainWithLit([WordBoundary, Lit("IS"), Spaces1, Lit("EMPTY"), WordBoundary], 1, "IS");
    }
    assert MinLen(NewConstructor) > 0 by {
      ChainWithLit([WordBoundary, Lit("NEW"), Spaces1, Plus(Ch(NameOrDot)), Spaces, Lit("(")], 1, "NEW");
    }
    assert MinLen(FromEntity) > 0 by {
      ChainWithLit([WordBoundary, Lit("FROM"), Spaces1, Ch(Range('A', 'Z')), Star(Ch(Alnum)), WordBoundary], 1, "FROM");
    }
    assert MinLen(PropertyAccess) > 0 by {
      ChainWithLit([Lit("."), Ch(Alpha), Star(Ch(Alnum)), WordBoundary], 0, ".");
    }
  }

  lemma NativePatternsNeedInput()
    ensures forall i :: 0 <= i < |NativePatterns| ==> NeedsInput(NativePatterns[i])
  {
    assert MinLen(SchemaTableColumn) > 0 by {
      ChainWithLit([WordBoundary, Plus(Ch(LowerOrUnderscore)), Lit("."), Plus(Ch(LowerOrUnderscore)),
        Lit("."), Plus(Ch(LowerOrUnderscore)), WordBoundary], 2, ".");
    }
    assert MinLen(TableColumn) > 0 by {
      ChainWithLit([WordBoundary, Plus(Ch(LowerOrUnderscore)), Lit("."), Plus(Ch(LowerOrUnderscore)), WordBoundary], 2, ".");
    }
    assert MinLen(ToChar) > 0 by {
      ChainWithLit([Lit("to_char"), Spaces, Lit("(")], 0, "to_char");
    }
    assert MinLen(SnakeCase) > 0 by {
      ChainWithLit([WordBoundary, Plus(Ch(LowerOrUnderscore)), Lit("_"), Plus(Ch(LowerOrUnderscore)), WordBoundary], 2, "_");
    }
  }

  /** The entity-name indicator must consume input. */
  lemma EntityNameNeedsInput()
    ensures NeedsInput(Matches(EntityName, false))
  {
    ChainMinLen([WordBoundary, Ch(Range('A', 'Z')), Star(Ch(Alnum)), WordBoundary,
      NotFollowedBy(Cat(Spaces, Lit(".")))], 1);
  }

  /** Every indicator's condition needs input. */
  predicate AllNeedInput(rules: seq<Indicator>) {
    forall i :: 0 <= i < |rules| ==> NeedsInput(rules[i].cond)
  }

  /** Every indicator of a table whose conditions need input fails on the empty text. */
  lemma TableFailsOnEmpty(rules: seq<Indicator>)
    requires AllNeedInput(rules)
    ensures forall i :: 0 <= i < |rules| ==> !Holds(rules[i].cond, [])
  {
    forall i | 0 <= i < |rules| ensures !Holds(rules[i].cond, []) {
      NeedsInputFailsOnEmpty(rules[i].cond);
    }
  }

  /** When no indicator can hold of the empty text, the empty text is decided by the tie-break. */
  lemma EmptyFollowsTieBreak(scheme: Classifier.Scheme)
    requires AllNeedInput(scheme.native) && AllNeedInput(scheme.jpql)
    ensures IsNative(scheme, []) <==> scheme.tie == FavorNative
  {
    TableFailsOnEmpty(scheme.native);
    TableFailsOnEmpty(scheme.jpql);
    NoHitsFollowsTieBreak(scheme, []);
  }

  lemma NativeIndicatorsNeedInput()
    ensures AllNeedInput(NativeIndicators)
  {
    NativePatternsNeedInput();
    var w := Weighted(NativePatterns, 2);
    assert AllNeedInput(w);
    assert AllNeedInput([Indicator(HasChar('_'), 1)]);
    AllNeedInputConcat(w, [Indicator(HasChar('_'), 1)]);
  }

  lemma JpqlIndicatorsNeedInput()
    ensures AllNeedInput(JpqlIndicators)
  {
    JpqlPatternsNeedInput();
    EntityNameNeedsInput();
    var w := Weighted(JpqlPatterns, 2);
    assert AllNeedInput(w);
    assert AllNeedInput([Indicator(Matches(EntityName, false), 2)]);
    AllNeedInputConcat(w, [Indicator(Matches(EntityName, false), 2)]);
  }

  lemma AllNeedInputConcat(a: seq<Indicator>, b: seq<Indicator>)
    requires AllNeedInput(a) && AllNeedInput(b)
    ensures AllNeedInput(a + b)
  {
    forall i | 0 <= i < |a + b| ensures NeedsInput((a + b)[i].cond) {
      if i >= |a| { assert (a + b)[i] == b[i - |a|]; }
    }
  }

  /** The empty query scores 0 on both sides, so it is a tie and classifies as native. */
  lemma EmptyQueryIsNative()
    ensures DetermineIfNative([])
  {
    NativeIndicatorsNeedInput();
    JpqlIndicatorsNeedInput();
    EmptyFollowsTieBreak(Scheme);
  }

  /** Scores are bounded by the weight tables: at most 9 for native, 14 for JPQL. */
  lemma ScoresBounded(query: string)
    ensures Score(NativeIndicators, query) <= 9
    ensures Score(JpqlIndicators, query) <= 14
  {
    ScoreBounds(NativeIndicators, query);
    ScoreBounds(JpqlIndicators, query);
    ScoreConcat(Weighted(NativePatterns, 2), [Indicator(HasChar('_'), 1)], query);
    ScoreConcat(Weighted(JpqlPatterns, 2), [Indicator(Matches(EntityName, false), 2)], query);
    WeightedTotal(NativePatterns, 2);
    WeightedTotal(JpqlPatterns, 2);
    ScoreSingle(Indicator(HasChar('_'), 1), query);
    ScoreSingle(Indicator(Matches(EntityName, false), 2), query);
  }

  /** Any tie, not only the empty one, classifies as native. */
  lemma TiesAreNative(query: string)
    requires Score(NativeIndicators, query) == Score(JpqlIndicators, query)
    ensures DetermineIfNative(query)
  {}

  /** A query that gains native hits and loses JPQL hits stays native. */
  lemma NativeHitsNeverFlipToJpql(q1: string, q2: string)
    requires HitsIncluded(NativeIndicators, q1, q2) && HitsIncluded(JpqlIndicators, q2, q1)
    requires DetermineIfNative(q1)
    ensures DetermineIfNative(q2)
  {
    MoreNativeHitsKeepNative(Scheme, q1, q2);
  }

  // ---------------------------------------------------------------------------------------
  // processExtractedQuery

  /** The first index at or after `i` whose character is in `stops`, or `|s|`. */
  function SkipUntil(s: string, i: nat, stops: set<char>): (r: nat)
    requires i <= |s|
    ensures i <= r <= |s|
    ensures forall k :: i <= k < r ==> s[k] !in stops
    ensures r < |s| ==> s[r] in stops
    decreases |s| - i
  {
    if i == |s| || s[i] in stops then i else SkipUntil(s, i + 1, stops)
  }

  /** One match of `/to_char\s*\(([^,]+),\s*'([^']+)(?!')/i` at `p`: its end and its
      replacement `to_char(expr, 'format'`. The format run `[^']+` is greedy; when a quote
      follows it, the look-ahead makes the matcher give back its last character. */
  function ToCharAt(s: string, p: nat): (r: Option<(nat, string)>)
    requires p <= |s|
    ensures r.Some? ==> p < r.value.0 <= |s|
  {
    if !StartsAtCI(s, p, "to_char") then None
    else
      var a := SkipSpaces(s, p + 7);
      if a == |s| || s[a] != '(' then None
      else
        var e := SkipUntil(s, a + 1, {','});
        if e == a + 1 || e == |s| then None
        else
          var b := SkipSpaces(s, e + 1);
          if b == |s| || s[b] != '\'' then None
          else
            var f := SkipUntil(s, b + 1, {'\''});
            var formatEnd := if f == |s| then f else f - 1;
            if formatEnd <= b + 1 then None
            else Some((formatEnd, "to_char(" + s[a + 1..e] + ", '" + s[b + 1..formatEnd] + "'"))
  }

  /** `replace(/to_char…/gi, …)` from position `from` on. */
  function RepairToChar(s: string, from: nat): string
    requires from <= |s|
    decreases |s| - from
  {
    if from == |s| then []
    else match ToCharAt(s, from)
      case Some((end, replacement)) => replacement + RepairToChar(s, end)
      case None => [s[from]] + RepairToChar(s, from + 1)
  }

  /** `replace(/'TOKEN(?!\s*')/g, "'TOKEN'")` from position `from` on. */
  function CloseToken(s: string, token: string, from: nat): string
    requires from <= |s| && |token| > 0
    decreases |s| - from
  {
    if from == |s| then []
    else if StartsAt(s, from, token) then
      var next := from + |token|;
      var after := SkipSpaces(s, next);
      var closed := after < |s| && s[after] == '\'';
      (if closed then token else token + "'") + CloseToken(s, token, next)
    else [s[from]] + CloseToken(s, token, from + 1)
  }

  /** One of the three date-token repairs: only when `'TOKEN` occurs and `'TOKEN'` does not. */
  function FixToken(s: string, token: string): string
    requires |token| > 0
  {
    if Contains(s, token) && !Contains(s, token + "'") then CloseToken(s, token, 0) else s
  }

  /** `processExtractedQuery`: trim, and for native queries also the date-format repairs. */
  function ProcessExtractedQuery(query: string, isNative: bool): (r: string)
    ensures !isNative ==> r == Trim(query)
  {
    var t := Trim(query);
    if !isNative then t
    else FixToken(FixToken(FixToken(RepairToChar(t, 0), "'YYYY"), "'MM"), "'DD")
  }

  /** A `to_char` repair needs a quote after the match's start. */
  lemma ToCharNeedsQuote(s: string, p: nat)
    requires p <= |s| && ToCharAt(s, p).Some?
    ensures exists k :: p < k < |s| && s[k] == '\''
  {
    var a := SkipSpaces(s, p + 7);
    var e := SkipUntil(s, a + 1, {','});
    var b := SkipSpaces(s, e + 1);
    assert s[b] == '\'';
  }

  /** Without a `to_char` match from `from` on, the repair copies the text. */
  lemma {:induction false} RepairToCharWithoutMatch(s: string, from: nat)
    requires from <= |s|
    requires forall p :: from <= p <= |s| ==> ToCharAt(s, p).None?
    ensures RepairToChar(s, from) == s[from..]
    decreases |s| - from
  {
    if from < |s| {
      RepairToCharWithoutMatch(s, from + 1);
      assert s[from..] == [s[from]] + s[from + 1..];
    }
  }

  /** The native repair changes nothing in a trimmed query with no `to_char(…, '…` match and no
      `'YYYY`, `'MM` or `'DD` date literal: such a query is only trimmed. */
  lemma NativeRepairLeavesPlainQueries(query: string)
    requires forall p :: 0 <= p <= |Trim(query)| ==> ToCharAt(Trim(query), p).None?
    requires !Contains(Trim(query), "'YYYY") && !Contains(Trim(query), "'MM") && !Contains(Trim(query), "'DD")
    ensures ProcessExtractedQuery(query, true) == Trim(query)
  {
    var t := Trim(query);
    RepairToCharWithoutMatch(t, 0);
    assert t[0..] == t;
  }

  /** A native query without a single quote is only trimmed. */
  lemma NativeQuoteFreeIsTrimmed(query: string)
    requires forall k :: 0 <= k < |query| ==> query[k] != '\''
    ensures ProcessExtractedQuery(query, true) == Trim(query)
  {
    var t := Trim(query);
    TrimChars(query);
    assert forall k :: 0 <= k < |t| ==> t[k] != '\'' by {
      forall k | 0 <= k < |t| ensures t[k] != '\'' {
        assert t[k] in t;
      }
    }
    forall p | 0 <= p <= |t| ensures ToCharAt(t, p).None? {
      if ToCharAt(t, p).Some? {
        ToCharNeedsQuote(t, p);
      }
    }
    forall w | w in ["'YYYY", "'MM", "'DD"] ensures !Contains(t, w) {
      forall i: nat | i <= |t| ensures !StartsAt(t, i, w) {
        if i + |w| <= |t| {
          assert t[i..i + |w|][0] == t[i];
        }
      }
    }
    NativeRepairLeavesPlainQueries(query);
  }

  // ---------------------------------------------------------------------------------------
  // extractQueryFromContent

  /** Where a separator of `content.split` (a `+` with the white space around it) tried at `q`
      ends, if one starts there. */
  function SeparatorAt(s: string, q: nat): (r: Option<nat>)
    requires q <= |s|
    ensures r.Some? ==> q < r.value <= |s|
    ensures r.None? ==> SkipSpaces(s, q) == |s| || s[SkipSpaces(s, q)] != '+'
    ensures q < |s| && s[q] == '+' ==> r.Some?
  {
    var a := SkipSpaces(s, q);
    if a < |s| && s[a] == '+' then Some(SkipSpaces(s, a + 1)) else None
  }

  /** `content.split` on `+` and the white space around it: the current piece began at `p`;
      separators are tried at `q` and on. */
  function SplitFrom(s: string, p: nat, q: nat): (parts: seq<string>)
    requires p <= q <= |s|
    requires '+' !in s[p..q]
    ensures |parts| >= 1
    ensures forall i :: 0 <= i < |parts| ==> '+' !in parts[i]
    decreases |s| - q
  {
    if q == |s| then [s[p..]]
    else match SeparatorAt(s, q)
      case Some(e) => [s[p..q]] + SplitFrom(s, e, e)
      case None =>
        assert s[p..q + 1] == s[p..q] + [s[q]];
        SplitFrom(s, p, q + 1)
  }

  function SplitOnPlus(s: string): (parts: seq<string>)
    ensures |parts| >= 1
    ensures forall i :: 0 <= i < |parts| ==> '+' !in parts[i]
  {
    SplitFrom(s, 0, 0)
  }

  lemma {:induction false} SplitFromWithoutPlus(s: string, p: nat, q: nat)
    requires p <= q <= |s| && '+' !in s
    ensures SplitFrom(s, p, q) == [s[p..]]
    decreases |s| - q
  {
    if q < |s| {
      var a := SkipSpaces(s, q);
      if a < |s| {
        assert s[a] in s;
      }
      assert SeparatorAt(s, q).None?;
      assert s[p..q + 1] == s[p..q] + [s[q]];
      SplitFromWithoutPlus(s, p, q + 1);
    }
  }

  /** A string without `+` is one piece. */
  lemma SplitWithoutPlus(s: string)
    requires '+' !in s
    ensures SplitOnPlus(s) == [s]
  {
    SplitFromWithoutPlus(s, 0, 0);
  }

  /** The lazy body `(?:\\\1|.)*?` of the literal pattern, started at `i` inside a literal opened
      by `quote`: the index of the closing quote, if the literal closes. */
  function LiteralClose(s: string, i: nat, quote: char): (r: Option<nat>)
    requires i <= |s| && IsQuote(quote)
    ensures r.Some? ==> i <= r.value < |s| && s[r.value] == quote
    ensures r.Some? ==> forall k :: i <= k < r.value ==> !IsLineTerminator(s[k])
    ensures quote !in s[i..] ==> r.None?
    decreases |s| - i
  {
    if i == |s| then None
    else if s[i] == quote then Some(i)
    else if IsLineTerminator(s[i]) then None
    else if s[i] == '\\' && i + 1 < |s| && s[i + 1] == quote then
      match LiteralClose(s, i + 2, quote)
      case Some(j) => Some(j)
      case None => Some(i + 1)
    else
      assert s[i + 1..] == s[i..][1..];
      LiteralClose(s, i + 1, quote)
  }

  /** `part.match(/(['"])((?:\\\1|.)*?)\1/)`, group 2: the inside of the leftmost literal. */
  function FirstLiteral(s: string, p: nat): (r: Option<string>)
    requires p <= |s|
    decreases |s| - p
  {
    if p == |s| then None
    else if IsQuote(s[p]) && LiteralClose(s, p + 1, s[p]).Some? then
      var j := LiteralClose(s, p + 1, s[p]).value;
      Some(s[p + 1..j])
    else FirstLiteral(s, p + 1)
  }

  lemma {:induction false} FirstLiteralWithoutQuotes(s: string, p: nat)
    requires p <= |s|
    requires forall k :: p <= k < |s| ==> !IsQuote(s[k])
    ensures FirstLiteral(s, p).None?
    decreases |s| - p
  {
    if p < |s| {
      FirstLiteralWithoutQuotes(s, p + 1);
    }
  }

  /** The inner texts of the first literal of each part, concatenated in order. */
  function LiteralTexts(parts: seq<string>): string
    decreases |parts|
  {
    if parts == [] then []
    else
      (match FirstLiteral(parts[0], 0) case Some(t) => t case None => []) + LiteralTexts(parts[1..])
  }

  /** `extractQueryFromContent(content, isNative)`; `hint` is `None` when the caller passes no
      type. */
  function ExtractQueryFromContent(content: string, hint: Option<bool>): (r: QueryInfo)
    ensures hint.Some? ==> r.isNative == hint
    ensures LiteralTexts(SplitOnPlus(content)) == [] ==> r == QueryInfo([], hint)
    ensures LiteralTexts(SplitOnPlus(content)) != [] && hint.None? ==>
      r.isNative == Some(DetermineIfNative(r.query))
  {
    var extracted := LiteralTexts(SplitOnPlus(content));
    if extracted == [] then QueryInfo([], hint)
    else
      var query := ProcessExtractedQuery(extracted, hint == Some(true));
      QueryInfo(query, if hint.None? then Some(DetermineIfNative(query)) else hint)
  }

  /** Text with no quote character yields no query, whatever the hint. */
  lemma NoLiteralNoQuery(content: string, hint: Option<bool>)
    requires forall k :: 0 <= k < |content| ==> !IsQuote(content[k])
    ensures ExtractQueryFromContent(content, hint) == QueryInfo([], hint)
  {
    var parts := SplitOnPlus(content);
    NoQuotesInParts(content, parts);
    LiteralTextsOfQuoteFree(parts);
  }

  lemma NoQuotesInParts(content: string, parts: seq<string>)
    requires forall k :: 0 <= k < |content| ==> !IsQuote(content[k])
    requires parts == SplitOnPlus(content)
    ensures forall i, k :: 0 <= i < |parts| && 0 <= k < |parts[i]| ==> !IsQuote(parts[i][k])
  {
    SplitPiecesAreSlices(content, 0, 0);
  }

  /** Every character of every piece occurs in `t`. */
  predicate DrawnFrom(parts: seq<string>, t: string) {
    forall i, k :: 0 <= i < |parts| && 0 <= k < |parts[i]| ==> parts[i][k] in t
  }

  lemma {:induction false} SplitPiecesAreSlices(s: string, p: nat, q: nat)
    requires p <= q <= |s| && '+' !in s[p..q]
    ensures DrawnFrom(SplitFrom(s, p, q), s[p..])
    decreases |s| - q
  {
    if q < |s| {
      match SeparatorAt(s, q)
      case Some(e) =>
        SplitPiecesAreSlices(s, e, e);
        assert SplitFrom(s, p, q) == [s[p..q]] + SplitFrom(s, e, e);
        DrawnFromCons(s, p, q, e, SplitFrom(s, e, e));
      case None =>
        assert s[p..q + 1] == s[p..q] + [s[q]];
        SplitPiecesAreSlices(s, p, q + 1);
    }
  }

  lemma DrawnFromCons(s: string, p: nat, q: nat, e: nat, rest: seq<string>)
    requires p <= q < e <= |s| && DrawnFrom(rest, s[e..])
    ensures DrawnFrom([s[p..q]] + rest, s[p..])
  {
    var parts := [s[p..q]] + rest;
    forall i, k | 0 <= i < |parts| && 0 <= k < |parts[i]| ensures parts[i][k] in s[p..] {
      if i == 0 {
        assert parts[0][k] == s[p..][k];
      } else {
        assert parts[i] == rest[i - 1];
        var m :| 0 <= m < |s[e..]| && s[e..][m] == parts[i][k];
        assert s[p..][e - p + m] == parts[i][k];
      }
    }
  }

  lemma {:induction false} LiteralTextsOfQuoteFree(parts: seq<string>)
    requires forall i, k :: 0 <= i < |parts| && 0 <= k < |parts[i]| ==> !IsQuote(parts[i][k])
    ensures LiteralTexts(parts) == []
    decreases |parts|
  {
    if parts != [] {
      FirstLiteralWithoutQuotes(parts[0], 0);
      LiteralTextsOfQuoteFree(parts[1..]);
    }
  }

  // ---------------------------------------------------------------------------------------
  // scanQueries

  /** The three kinds of query site, scanned in this order. */
  datatype Site = Declaration | CreateCall | Annotation

  /** One match of a site pattern: where it starts and ends, the captured query text and the
      native flag read off the syntax. */
  datatype Hit = Hit(start: nat, end: nat, content: string, native: bool)

  /** `variableName.startsWith('sql') || !variableName.includes('jpql') && !variableName.includes('hql')`
      on the lower-cased name. */
  predicate NativeByName(name: string) {
    var lower := LowerStr(name);
    StartsAt(lower, 0, "sql") || (!Contains(lower, "jpql") && !Contains(lower, "hql"))
  }

  /** Only `jpql`, `hql` and the `consulta…` names that mention either are read as JPQL; every
      `sql…` name is native, whatever else it contains. */
  lemma NativeByNameOfVariables(name: string)
    requires IsQueryVariable(name)
    ensures !NativeByName(name) <==>
      name == "jpql" || name == "hql"
      || (StartsAt(name, 0, "consulta") && (Contains(LowerStr(name), "jpql") || Contains(LowerStr(name), "hql")))
  {
    if StartsAt(name, 0, "sql") {
      assert LowerStr(name)[..3] == "sql" by {
        assert name[..3] == "sql";
        forall k | 0 <= k < 3 ensures LowerStr(name)[k] == name[k] { }
      }
      assert StartsAt(LowerStr(name), 0, "sql");
      assert name[0] == 's' && !StartsAt(name, 0, "consulta");
    } else if name == "jpql" {
      assert StartsAt(LowerStr(name), 0, "jpql");
    } else if name == "hql" {
      assert StartsAt(LowerStr(name), 0, "hql");
    } else {
      assert name[..8] == "consulta" && LowerStr(name)[..3] != "sql";
    }
  }

  /** The end of the variable name `(sql\w*|jpql|hql|consulta\w*)` starting at `b`. */
  function DeclNameEnd(s: string, b: nat): (r: Option<nat>)
    requires b <= |s|
    ensures r.Some? ==> b < r.value <= |s|
  {
    if StartsAt(s, b, "sql") then Some(SkipWordChars(s, b + 3))
    else if StartsAt(s, b, "jpql") then Some(b + 4)
    else if StartsAt(s, b, "hql") then Some(b + 3)
    else if StartsAt(s, b, "consulta") then Some(SkipWordChars(s, b + 8))
    else None
  }

  /** A variable name the declaration pattern accepts: `sql\w*`, `jpql`, `hql` or `consulta\w*`. */
  predicate IsQueryVariable(name: string) {
    || (StartsAt(name, 0, "sql") && forall k :: 3 <= k < |name| ==> IsWordChar(name[k]))
    || name == "jpql" || name == "hql"
    || (StartsAt(name, 0, "consulta") && forall k :: 8 <= k < |name| ==> IsWordChar(name[k]))
  }

  /** `/String\s+(sql\w*|jpql|hql|consulta\w*)\s*=\s*([^;]*);/` at `p`. The native flag is the
      naming rule applied to the captured variable name, which starts at the first character
      after the white space that follows `String`. */
  function DeclarationAt(s: string, p: nat): (r: Option<Hit>)
    requires p <= |s|
    ensures r.Some? ==> r.value.start == p && p < r.value.end <= |s| && ClosedBy(s, r.value.end, ';')
    ensures r.Some? ==> ';' !in r.value.content
    ensures r.Some? ==> StartsAt(s, p, "String")
    ensures r.Some? ==> DeclFlagRule(s, p, r.value.end, r.value.native)
  {
    if !StartsAt(s, p, "String") then None
    else
      var b := SkipSpaces(s, p + 6);
      if b == p + 6 then None
      else match DeclNameAt(s, b)
        case None => None
        case Some((nameEnd, native)) =>
          match AssignedAt(s, nameEnd)
          case None => None
          case Some((e, content)) =>
            DeclNameEndIsVariable(s, b);
            Some(Hit(p, e, content, native))
  }

  /** The variable name of a declaration at `p` starts at the first character after the white
      space that follows `String`, is an accepted name that ends inside the match, and decides
      the flag by the naming rule. */
  predicate DeclFlagRule(s: string, p: nat, end: nat, native: bool) {
    StartsAt(s, p, "String") &&
    var b := SkipSpaces(s, p + 6);
    p + 6 < b && DeclNameEnd(s, b).Some? &&
    var e := DeclNameEnd(s, b).value;
    e <= end && IsQueryVariable(s[b..e]) && (native <==> NativeByName(s[b..e]))
  }

  lemma DeclNameEndIsVariable(s: string, b: nat)
    requires b <= |s| && DeclNameEnd(s, b).Some?
    ensures IsQueryVariable(s[b..DeclNameEnd(s, b).value])
  {
    var e := DeclNameEnd(s, b).value;
    var name := s[b..e];
    if StartsAt(s, b, "sql") {
      assert name[..3] == s[b..b + 3];
      forall k | 3 <= k < |name| ensures IsWordChar(name[k]) {
        assert name[k] == s[b + k];
      }
    } else if StartsAt(s, b, "jpql") || StartsAt(s, b, "hql") {
    } else {
      assert name[..8] == s[b..b + 8];
      forall k | 8 <= k < |name| ensures IsWordChar(name[k]) {
        assert name[k] == s[b + k];
      }
    }
  }

  /** The variable name at `b`: where it ends and whether it marks the query as native. */
  function DeclNameAt(s: string, b: nat): (r: Option<(nat, bool)>)
    requires b <= |s|
    ensures r.Some? ==> b < r.value.0 <= |s| && (r.value.1 <==> NativeByName(s[b..r.value.0]))
  {
    match DeclNameEnd(s, b)
    case None => None
    case Some(nameEnd) => Some((nameEnd, NativeByName(s[b..nameEnd])))
  }

  /** The character before `e` is `c`. */
  predicate ClosedBy(s: string, e: nat, c: char) {
    0 < e <= |s| && s[e - 1] == c
  }

  /** `\s*=\s*([^;]*);` at `i`: where it ends and the captured text. */
  function AssignedAt(s: string, i: nat): (r: Option<(nat, string)>)
    requires i <= |s|
    ensures r.Some? ==> i < r.value.0 <= |s| && ClosedBy(s, r.value.0, ';') && ';' !in r.value.1
  {
    var c := SkipSpaces(s, i);
    if c == |s| || s[c] != '=' then None
    else
      var d := SkipSpaces(s, c + 1);
      var semi := SkipUntil(s, d, {';'});
      if semi == |s| then None
      else
        var content := s[d..semi];
        assert forall k :: 0 <= k < |content| ==> content[k] == s[d + k];
        Some((semi + 1, content))
  }

  /** `/(\.create(?:Native)?Query\s*\()([^;)]*)/` at `p`. */
  function CreateCallAt(s: string, p: nat): (r: Option<Hit>)
    requires p <= |s|
    ensures r.Some? ==> r.value.start == p && p < r.value.end <= |s|
    ensures r.Some? ==> (r.value.native <==> StartsAt(s, p, ".createNativeQuery"))
    ensures r.Some? ==> ';' !in r.value.content && ')' !in r.value.content
  {
    var a :=
      if StartsAt(s, p, ".createNativeQuery") then Some(p + 18)
      else if StartsAt(s, p, ".createQuery") then Some(p + 12)
      else None;
    match a
    case None => None
    case Some(a) =>
      var b := SkipSpaces(s, a);
      if b == |s| || s[b] != '(' then None
      else
        var e := SkipUntil(s, b + 1, {';', ')'});
        Some(Hit(p, e, s[b + 1..e], a == p + 18))
  }

  /** The closing quote of `["'].*?["']` opened just before `i`: the first quote of either kind,
      unless a line terminator comes first. */
  function QuoteClose(s: string, i: nat): (r: Option<nat>)
    requires i <= |s|
    ensures r.Some? ==> i <= r.value < |s| && IsQuote(s[r.value])
    ensures r.Some? ==> forall k :: i <= k < r.value ==> !IsQuote(s[k]) && !IsLineTerminator(s[k])
    decreases |s| - i
  {
    if i == |s| || IsLineTerminator(s[i]) then None
    else if IsQuote(s[i]) then Some(i)
    else QuoteClose(s, i + 1)
  }

  /** `nativeQuery\s*=\s*(true|false)\s*,\s*` at `c`: where it ends and the captured word,
      which is spelled out in the text after `nativeQuery` and its `=`. */
  function NativeFlagAt(s: string, c: nat): (r: Option<(nat, string)>)
    requires c <= |s|
    ensures r.Some? ==> c < r.value.0 <= |s| && StartsAt(s, c, "nativeQuery")
    ensures r.Some? ==> r.value.1 == "true" || r.value.1 == "false"
    ensures r.Some? ==> exists k :: c + 11 < k && k + |r.value.1| <= r.value.0 && StartsAt(s, k, r.value.1)
  {
    if !StartsAt(s, c, "nativeQuery") then None
    else
      var h := SkipSpaces(s, c + 11);
      if h == |s| || s[h] != '=' then None
      else
        var k := SkipSpaces(s, h + 1);
        var v: Option<(nat, string)> :=
          if StartsAt(s, k, "true") then Some((k + 4, "true"))
          else if StartsAt(s, k, "false") then Some((k + 5, "false"))
          else None;
        if v.None? then None
        else
          var n := SkipSpaces(s, v.value.0);
          if n == |s| || s[n] != ',' then None else Some((SkipSpaces(s, n + 1), v.value.1))
  }

  /** The optional `value\s*=\s*` at `g`: where the literal must start. */
  function ValuePrefixEnd(s: string, g: nat): (r: nat)
    requires g <= |s|
    ensures g <= r <= |s|
  {
    if !StartsAt(s, g, "value") then g
    else
      var e := SkipSpaces(s, g + 5);
      if e < |s| && s[e] == '=' then SkipSpaces(s, e + 1) else g
  }

  /** `(?:nativeQuery\s*=\s*(true|false)\s*,\s*)?(?:value\s*=\s*)?(["'].*?["'])` at `c`: the end,
      the native flag and the quoted literal. No backtracking into the optional groups can help,
      since what follows them starts with a quote. */
  function AnnotationRest(s: string, c: nat): (r: Option<(nat, bool, string)>)
    requires c <= |s|
    ensures r.Some? ==> c < r.value.0 <= |s|
    ensures r.Some? ==> |r.value.2| >= 2 && IsQuote(r.value.2[0])
    ensures r.Some? ==> (r.value.1 <==> NativeFlagAt(s, c).Some? && NativeFlagAt(s, c).value.1 == "true")
  {
    var flagged := NativeFlagAt(s, c);
    var g := if flagged.Some? then flagged.value.0 else c;
    var native := flagged.Some? && flagged.value.1 == "true";
    match QuotedAt(s, ValuePrefixEnd(s, g))
    case None => None
    case Some((e, lit)) => Some((e, native, lit))
  }

  /** `["'].*?["']` at `v`: where it ends and the literal, quotes included. */
  function QuotedAt(s: string, v: nat): (r: Option<(nat, string)>)
    requires v <= |s|
    ensures r.Some? ==> v < r.value.0 <= |s| && r.value.1 == s[v..r.value.0]
    ensures r.Some? ==> |r.value.1| >= 2 && IsQuote(r.value.1[0])
  {
    if v == |s| || !IsQuote(s[v]) then None
    else
      var close := QuoteClose(s, v + 1);
      if close.None? then None
      else
        var lit := s[v..close.value + 1];
        assert |lit| >= 2 && lit[0] == s[v];
        Some((close.value + 1, lit))
  }

  /** `\s*,\s*` after the quote at `k`, when that quote closes the name literal: where the
      rest of the annotation is read. */
  function NameResume(s: string, k: nat): (r: Option<nat>)
    requires k < |s|
    ensures r.Some? ==> IsQuote(s[k]) && k < r.value <= |s|
  {
    if !IsQuote(s[k]) then None
    else
      var f := SkipSpaces(s, k + 1);
      if f < |s| && s[f] == ',' then Some(SkipSpaces(s, f + 1)) else None
  }

  /** Closing the name literal at `k` lets the rest of the annotation match. */
  predicate RestFollows(s: string, k: nat) {
    k < |s| && NameResume(s, k).Some? && AnnotationRest(s, NameResume(s, k).value).Some?
  }

  /** Between `j` and `k` there is no line terminator and no quote at which the name literal
      could close with the rest of the annotation matching. */
  predicate NoEarlierClose(s: string, j: nat, k: nat)
    requires k <= |s|
  {
    forall m :: j <= m < k ==> !IsLineTerminator(s[m]) && !RestFollows(s, m)
  }

  /** The lazy name literal `["'].*?["']\s*,\s*`, opened just before `j`, tries its closing
      quotes from left to right and stops at a line terminator; the first quote after which
      the rest of the annotation matches wins. The result is where that rest is read. */
  function NameLiteralEnd(s: string, j: nat): (r: Option<nat>)
    requires j <= |s|
    ensures r.Some? ==> j < r.value <= |s| && AnnotationRest(s, r.value).Some?
    decreases |s| - j
  {
    if j == |s| || IsLineTerminator(s[j]) then None
    else if RestFollows(s, j) then NameResume(s, j)
    else NameLiteralEnd(s, j + 1)
  }

  /** `NameLiteralEnd` is the lazy choice: its result is read after the leftmost quote at which
      the rest matches, and when there is none before a line terminator, it finds nothing. */
  lemma {:induction false} NameLiteralEndIsLazy(s: string, j: nat)
    requires j <= |s|
    ensures var r := NameLiteralEnd(s, j);
      r.Some? ==> exists k :: j <= k < |s| && RestFollows(s, k) && NameResume(s, k) == r && NoEarlierClose(s, j, k)
    ensures NameLiteralEnd(s, j).None? ==> forall k :: j <= k < |s| && NoEarlierClose(s, j, k) ==> !RestFollows(s, k)
    decreases |s| - j
  {
    if j < |s| && !IsLineTerminator(s[j]) && !RestFollows(s, j) {
      NameLiteralEndIsLazy(s, j + 1);
      var r := NameLiteralEnd(s, j);
      if r.Some? {
        var k :| j + 1 <= k < |s| && RestFollows(s, k) && NameResume(s, k) == r && NoEarlierClose(s, j + 1, k);
        assert NoEarlierClose(s, j, k);
      } else {
        forall k | j <= k < |s| && NoEarlierClose(s, j, k) ensures !RestFollows(s, k) {
          if k > j {
            assert NoEarlierClose(s, j + 1, k);
          }
        }
      }
    } else if j < |s| && IsLineTerminator(s[j]) {
      forall k | j <= k < |s| && NoEarlierClose(s, j, k) ensures !RestFollows(s, k) {
        if k == j {
          assert !IsQuote(s[j]);
        }
      }
    } else if j < |s| {
      assert NoEarlierClose(s, j, j);
    }
  }

  /** `@(?:Named)?Query\s*\(\s*` at `p`: where the arguments start. */
  function ArgsStart(s: string, p: nat): (r: Option<nat>)
    requires p <= |s|
    ensures r.Some? ==> p < r.value <= |s| && (StartsAt(s, p, "@NamedQuery") || StartsAt(s, p, "@Query"))
    ensures r.Some? ==> r.value == |s| || !IsSpace(s[r.value])
  {
    var a :=
      if StartsAt(s, p, "@NamedQuery") then Some(p + 11)
      else if StartsAt(s, p, "@Query") then Some(p + 6)
      else None;
    match a
    case None => None
    case Some(a) =>
      var b := SkipSpaces(s, a);
      if b == |s| || s[b] != '(' then None else Some(SkipSpaces(s, b + 1))
  }

  /** `name\s*=\s*["']` at `c`: just after the opening quote of the name literal. */
  function NameOpenEnd(s: string, c: nat): (r: Option<nat>)
    requires c <= |s|
    ensures r.Some? ==> c < r.value <= |s| && StartsAt(s, c, "name") && IsQuote(s[r.value - 1])
  {
    if !StartsAt(s, c, "name") then None
    else
      var d := SkipSpaces(s, c + 4);
      if d == |s| || s[d] != '=' then None
      else
        var e := SkipSpaces(s, d + 1);
        if e == |s| || !IsQuote(s[e]) then None else Some(e + 1)
  }

  /** Where the optional `nativeQuery` group of an annotation at `p` is read: after the name
      literal when the optional `name = '…',` group matches, and otherwise where the arguments
      start. */
  function RestStart(s: string, p: nat): (r: Option<nat>)
    requires p <= |s|
    ensures r.Some? ==> ArgsStart(s, p).Some? && p < r.value <= |s|
    ensures r.Some? ==> var c := ArgsStart(s, p).value;
      r.value == c || (NameOpenEnd(s, c).Some? && r == NameLiteralEnd(s, NameOpenEnd(s, c).value))
    ensures ArgsStart(s, p).Some? ==> r.Some?
  {
    match ArgsStart(s, p)
    case None => None
    case Some(c) =>
      var named := if NameOpenEnd(s, c).Some? then NameLiteralEnd(s, NameOpenEnd(s, c).value) else None;
      if named.Some? then named else Some(c)
  }

  /** `/@(?:Named)?Query\s*\(\s*(?:name\s*=\s*["'].*?["']\s*,\s*)?…/` at `p`. The native flag and
      the literal are those of the rest of the annotation read at `RestStart`: the flag is
      native exactly when the `nativeQuery` group read there captured `true`. */
  function AnnotationAt(s: string, p: nat): (r: Option<Hit>)
    requires p <= |s|
    ensures r.Some? ==> r.value.start == p && p < r.value.end <= |s|
    ensures r.Some? ==> |r.value.content| >= 2 && IsQuote(r.value.content[0])
    ensures r.Some? ==> AnnotationFlagRule(s, p, r.value)
  {
    match RestStart(s, p)
    case None => None
    case Some(k) =>
      match AnnotationRest(s, k)
      case None => None
      case Some((e, native, lit)) => Some(Hit(p, e, lit, native))
  }

  /** The flag and literal of an annotation hit `h` at `p` are read at `RestStart(s, p)`, and
      the flag is native exactly when the `nativeQuery` word written there is `true`. */
  predicate AnnotationFlagRule(s: string, p: nat, h: Hit)
    requires p <= |s|
  {
    RestStart(s, p).Some? &&
    var k := RestStart(s, p).value;
    AnnotationRest(s, k) == Some((h.end, h.native, h.content))
    && (h.native <==> NativeFlagAt(s, k).Some? && NativeFlagAt(s, k).value.1 == "true")
  }

  function MatchAt(site: Site, s: string, p: nat): (r: Option<Hit>)
    requires p <= |s|
    ensures r.Some? ==> r.value.start == p && p < r.value.end <= |s|
  {
    match site
    case Declaration => DeclarationAt(s, p)
    case CreateCall => CreateCallAt(s, p)
    case Annotation => AnnotationAt(s, p)
  }

  /** Every start position's match, if any. */
  predicate ValidTable(table: seq<Option<Hit>>) {
    forall p :: 0 <= p < |table| && table[p].Some? ==>
      table[p].value.start == p && p < table[p].value.end <= |table|
  }

  function MatchTable(site: Site, s: string): (table: seq<Option<Hit>>)
    ensures |table| == |s| && ValidTable(table)
    ensures forall p :: 0 <= p < |s| ==> table[p] == MatchAt(site, s, p)
  {
    seq(|s|, p requires 0 <= p < |s| => MatchAt(site, s, p))
  }

  /** The `while ((match = pattern.exec(text)) !== null)` loop from `lastIndex = from`: each
      search takes the leftmost match at or after the last match's end. */
  function ExecLoop(table: seq<Option<Hit>>, from: nat): (hits: seq<Hit>)
    requires ValidTable(table) && from <= |table|
    ensures forall i :: 0 <= i < |hits| ==> from <= hits[i].start < hits[i].end <= |table|
    ensures forall i :: 0 <= i < |hits| ==> table[hits[i].start] == Some(hits[i])
    ensures forall i, j :: 0 <= i < j < |hits| ==> hits[i].end <= hits[j].start
    decreases |table| - from
  {
    if from == |table| then []
    else match table[from]
      case Some(h) => [h] + ExecLoop(table, h.end)
      case None => ExecLoop(table, from + 1)
  }

  /** No match starts in `[a, b)`. */
  predicate NoMatchBetween(table: seq<Option<Hit>>, a: nat, b: nat) {
    forall p :: a <= p < b && p < |table| ==> table[p].None?
  }

  /** No match starts in the gap after any of `hits`. */
  predicate GapsClear(table: seq<Option<Hit>>, hits: seq<Hit>) {
    forall i :: 0 <= i < |hits| ==> NoMatchBetween(table, hits[i].end, GapEnd(hits, i, |table|))
  }

  /** Where the gap after hit `i` ends: the next hit's start, or the end of the text. */
  function GapEnd(hits: seq<Hit>, i: nat, n: nat): nat
    requires i < |hits|
  {
    if i + 1 < |hits| then hits[i + 1].start else n
  }

  /** The first search finds the leftmost match. */
  lemma {:induction false} ExecLoopStartsLeftmost(table: seq<Option<Hit>>, from: nat)
    requires ValidTable(table) && from <= |table|
    ensures var hits := ExecLoop(table, from);
      NoMatchBetween(table, from, if hits == [] then |table| else hits[0].start)
    decreases |table| - from
  {
    if from < |table| && table[from].None? {
      ExecLoopStartsLeftmost(table, from + 1);
    }
  }

  /** The loop never skips a match: none starts in the gap after any hit. */
  lemma {:induction false} ExecLoopSkipsNothing(table: seq<Option<Hit>>, from: nat)
    requires ValidTable(table) && from <= |table|
    ensures GapsClear(table, ExecLoop(table, from))
    decreases |table| - from
  {
    if from < |table| {
      if table[from].Some? {
        var h := table[from].value;
        ExecLoopSkipsNothing(table, h.end);
        ExecLoopStartsLeftmost(table, h.end);
        var rest := ExecLoop(table, h.end);
        assert ExecLoop(table, from) == [h] + rest;
        SkipsNothingHitStep(table, from, h, rest);
      } else {
        assert ExecLoop(table, from) == ExecLoop(table, from + 1);
        ExecLoopSkipsNothing(table, from + 1);
      }
    }
  }

  /** A hit at `from` followed by the hits of the search from its end. */
  lemma SkipsNothingHitStep(table: seq<Option<Hit>>, from: nat, h: Hit, rest: seq<Hit>)
    requires ValidTable(table) && from < |table| && table[from] == Some(h)
    requires rest == ExecLoop(table, h.end)
    requires GapsClear(table, rest)
    requires NoMatchBetween(table, h.end, if rest == [] then |table| else rest[0].start)
    ensures GapsClear(table, [h] + rest)
  {
    var hits := [h] + rest;
    forall i | 0 <= i < |hits|
      ensures NoMatchBetween(table, hits[i].end, GapEnd(hits, i, |table|))
    {
      if i > 0 {
        assert hits[i] == rest[i - 1];
        assert GapEnd(hits, i, |table|) == GapEnd(rest, i - 1, |table|);
      }
    }
  }

  /** Without any match the loop finds nothing. */
  lemma {:induction false} ExecLoopEmpty(table: seq<Option<Hit>>, from: nat)
    requires ValidTable(table) && from <= |table|
    requires forall p :: from <= p < |table| ==> table[p].None?
    ensures ExecLoop(table, from) == []
    decreases |table| - from
  {
    if from < |table| {
      ExecLoopEmpty(table, from + 1);
    }
  }

  /** The matches of one site kind over the whole text. */
  function Hits(site: Site, s: string): (hits: seq<Hit>)
    ensures forall i :: 0 <= i < |hits| ==> hits[i].start < hits[i].end <= |s|
  {
    ExecLoop(MatchTable(site, s), 0)
  }

  /** Every hit is a match at its start, hits do not overlap, and no match is skipped. */
  lemma HitsAreLeftmostMatches(site: Site, s: string)
    ensures var hits := Hits(site, s);
      && (forall i :: 0 <= i < |hits| ==> MatchAt(site, s, hits[i].start) == Some(hits[i]))
      && (forall i, j :: 0 <= i < j < |hits| ==> hits[i].end <= hits[j].start)
      && (forall p :: 0 <= p < |s| && (hits == [] || p < hits[0].start) ==> MatchAt(site, s, p).None?)
      && (forall i, p :: 0 <= i < |hits| && hits[i].end <= p < GapEnd(hits, i, |s|) ==> MatchAt(site, s, p).None?)
  {
    HitsMatch(site, s);
    HitsStartLeftmost(site, s);
    HitsSkipNothing(site, s);
  }

  lemma HitsMatch(site: Site, s: string)
    ensures var hits := Hits(site, s);
      forall i :: 0 <= i < |hits| ==> MatchAt(site, s, hits[i].start) == Some(hits[i])
  {
    var table := MatchTable(site, s);
    var hits := Hits(site, s);
    forall i | 0 <= i < |hits| ensures MatchAt(site, s, hits[i].start) == Some(hits[i]) {
      assert table[hits[i].start] == Some(hits[i]);
    }
  }

  lemma HitsStartLeftmost(site: Site, s: string)
    ensures var hits := Hits(site, s);
      forall p :: 0 <= p < |s| && (hits == [] || p < hits[0].start) ==> MatchAt(site, s, p).None?
  {
    var table := MatchTable(site, s);
    var hits := Hits(site, s);
    ExecLoopStartsLeftmost(table, 0);
    forall p | 0 <= p < |s| && (hits == [] || p < hits[0].start) ensures MatchAt(site, s, p).None? {
      assert table[p].None?;
    }
  }

  lemma HitsSkipNothing(site: Site, s: string)
    ensures var hits := Hits(site, s);
      forall i, p :: 0 <= i < |hits| && hits[i].end <= p < GapEnd(hits, i, |s|) ==> MatchAt(site, s, p).None?
  {
    var table := MatchTable(site, s);
    var hits := Hits(site, s);
    ExecLoopSkipsNothing(table, 0);
    forall i, p | 0 <= i < |hits| && hits[i].end <= p < GapEnd(hits, i, |s|) ensures MatchAt(site, s, p).None? {
      assert NoMatchBetween(table, hits[i].end, GapEnd(hits, i, |table|));
      assert table[p].None?;
    }
  }

  /** The candidate queries of one site kind, before de-duplication. */
  function Candidates(site: Site, s: string): (cs: seq<QueryInfo>)
    ensures |cs| == |Hits(site, s)|
    ensures forall i :: 0 <= i < |cs| ==> cs[i].isNative == Some(Hits(site, s)[i].native)
  {
    var hits := Hits(site, s);
    seq(|hits|, i requires 0 <= i < |hits| => ExtractQueryFromContent(hits[i].content, Some(hits[i].native)))
  }

  /** The key `isDuplicateQuery` compares. */
  function Form(q: QueryInfo): string {
    FormatQueryScan(q.query)
  }

  predicate NonEmptyQuery(q: QueryInfo) {
    q.query != []
  }

  lemma IsDuplicateQueryHasKey(queries: seq<QueryInfo>, newQuery: string)
    ensures IsDuplicateQuery(queries, newQuery) <==> HasKey(queries, Form, FormatQueryScan(newQuery))
  {
    IsDuplicateQuerySpec(queries, newQuery);
  }

  /** The push condition of `scanQueries`, `extractedQuery.query && !isDuplicateQuery(queries,
      extractedQuery.query)`, is the admission test of `KeepFirstBy` with the normal form as key. */
  lemma PushConditionIsKeepFirst(queries: seq<QueryInfo>, c: QueryInfo)
    ensures (c.query != [] && !IsDuplicateQuery(queries, c.query)) <==>
      (NonEmptyQuery(c) && !HasKey(queries, Form, Form(c)))
  {
    IsDuplicateQueryHasKey(queries, c.query);
  }

  function AllCandidates(text: string): seq<QueryInfo> {
    Candidates(Declaration, text) + Candidates(CreateCall, text) + Candidates(Annotation, text)
  }

  /** `scanQueries`: the candidates of declarations, then `create*Query` calls, then annotations,
      each pushed when non-empty and not a duplicate of one already pushed. */
  function ScanQueries(text: string): seq<QueryInfo> {
    KeepFirstBy([], AllCandidates(text), Form, NonEmptyQuery)
  }

  /** `scanQueries` returns a subsequence of the candidates (declarations, then calls, then
      annotations, each in source order) with no empty query and no two queries of the same
      normal form, every non-empty candidate is represented by an entry of its normal form, and
      that entry is the first non-empty candidate of the form. */
  lemma ScanQueriesSpec(text: string)
    ensures var r := ScanQueries(text);
      && (forall i :: 0 <= i < |r| ==> r[i].query != [])
      && (forall i, j :: 0 <= i < j < |r| ==> FormatQueryScan(r[i].query) != FormatQueryScan(r[j].query))
      && IsSubseq(r, AllCandidates(text))
      && (forall c :: c in AllCandidates(text) && c.query != [] ==> IsDuplicateQuery(r, c.query))
      && (forall n :: 0 <= n < |r| ==> FirstOfItsForm(AllCandidates(text), r[n]))
  {
    var all := AllCandidates(text);
    var r := ScanQueries(text);
    KeepFirstByExtends([], all, Form, NonEmptyQuery);
    KeepFirstByDistinct([], all, Form, NonEmptyQuery);
    KeepFirstByAdmissible([], all, Form, NonEmptyQuery);
    KeepFirstByCovers([], all, Form, NonEmptyQuery);
    assert r[0..] == r;
    forall c | c in all && c.query != [] ensures IsDuplicateQuery(r, c.query) {
      assert NonEmptyQuery(c);
      IsDuplicateQueryHasKey(r, c.query);
    }
    forall i, j | 0 <= i < j < |r| ensures FormatQueryScan(r[i].query) != FormatQueryScan(r[j].query) {
      assert Form(r[i]) != Form(r[j]);
    }
    forall i | 0 <= i < |r| ensures r[i].query != [] {
      assert NonEmptyQuery(r[i]);
    }
    KeepFirstByFirst([], all, Form, NonEmptyQuery);
    forall n | 0 <= n < |r| ensures FirstOfItsForm(all, r[n]) {
      var j :| 0 <= j < |all| && all[j] == r[n] && NoEarlierKey(all, j, Form, NonEmptyQuery, Form(r[n]));
      assert forall i :: 0 <= i < j && all[i].query != [] ==> FormatQueryScan(all[i].query) != FormatQueryScan(r[n].query) by {
        forall i | 0 <= i < j && all[i].query != [] ensures FormatQueryScan(all[i].query) != FormatQueryScan(r[n].query) {
          assert NonEmptyQuery(all[i]);
        }
      }
    }
  }

  /** `q` is a candidate, and no non-empty candidate before it has its display form: the first
      occurrence of a form is the one `scanQueries` pushes. */
  predicate FirstOfItsForm(all: seq<QueryInfo>, q: QueryInfo) {
    exists j :: 0 <= j < |all| && all[j] == q
      && forall i :: 0 <= i < j && all[i].query != [] ==> FormatQueryScan(all[i].query) != FormatQueryScan(q.query)
  }

  /** How each site kind sets the native flag of a hit `h`: a declaration by the naming rule on
      its variable name, a call by being `.createNativeQuery`, an annotation by the captured
      `nativeQuery` word being `true`. */
  predicate SiteFlagRule(site: Site, s: string, h: Hit)
    requires h.start <= h.end <= |s|
  {
    match site
    case Declaration => DeclFlagRule(s, h.start, h.end, h.native)
    case CreateCall => h.native <==> StartsAt(s, h.start, ".createNativeQuery")
    case Annotation => AnnotationFlagRule(s, h.start, h)
  }

  /** Every hit's flag follows its site kind's rule. */
  lemma HitFlag(site: Site, text: string, i: nat)
    requires i < |Hits(site, text)|
    ensures SiteFlagRule(site, text, Hits(site, text)[i])
  {
    HitsMatch(site, text);
    var h := Hits(site, text)[i];
    assert MatchAt(site, text, h.start) == Some(h);
  }

  /** Every scanned query is the extraction of some hit's captured text under that hit's flag, and
      the flag follows the site's syntax: the classifier is never consulted. */
  lemma ScanFlagsAreSyntactic(text: string, q: QueryInfo)
    ensures q in ScanQueries(text) ==> exists site: Site, i ::
      0 <= i < |Hits(site, text)| && SiteFlagRule(site, text, Hits(site, text)[i])
      && q == ExtractQueryFromContent(Hits(site, text)[i].content, Some(Hits(site, text)[i].native))
  {
    if q !in ScanQueries(text) { return; }
    assert q in AllCandidates(text) by {
      KeepFirstByExtends([], AllCandidates(text), Form, NonEmptyQuery);
      var r := ScanQueries(text);
      assert r[0..] == r;
      SubseqMembers(r, AllCandidates(text));
    }
    var site: Site := if q in Candidates(Declaration, text) then Declaration
      else if q in Candidates(CreateCall, text) then CreateCall else Annotation;
    var i := CandidateHit(site, text, q);
    HitFlag(site, text, i);
  }

  /** A candidate is the extraction of the hit at the same index. */
  lemma CandidateHit(site: Site, text: string, q: QueryInfo) returns (i: nat)
    requires q in Candidates(site, text)
    ensures i < |Hits(site, text)|
    ensures q == ExtractQueryFromContent(Hits(site, text)[i].content, Some(Hits(site, text)[i].native))
  {
    var cs := Candidates(site, text);
    i :| 0 <= i < |cs| && cs[i] == q;
  }
}
