/** The older extractor and classifier nested in the extension's activation code: strip
    comments, accept a bare query, otherwise glue together the quoted segments after a query
    start, and classify with a larger indicator table whose ties go to JPQL. */
module Extension {
  import opened Wrappers
  import opened Text
  import opened Regex
  import opened Classifier
  import QueryUtils

  // ---------------------------------------------------------------------------------------
  // Comment removal

  /** The first line terminator at or after `i`, or `|s|`: where `//.*$` (multiline) stops. */
  function LineEnd(s: string, i: nat): (r: nat)
    requires i <= |s|
    ensures i <= r <= |s|
    ensures forall k :: i <= k < r ==> !IsLineTerminator(s[k])
    ensures r == |s| || IsLineTerminator(s[r])
    decreases |s| - i
  {
    if i == |s| || IsLineTerminator(s[i]) then i else LineEnd(s, i + 1)
  }

  predicate DoubleSlashAt(s: string, k: nat) {
    k + 1 < |s| && s[k] == '/' && s[k + 1] == '/'
  }

  /** `replace(/\/\/.*$/gm, '')` from position `p`: every `//` up to (not including) the end
      of its line is removed. The result never contains `//`, and it is the input itself when
      there was none. */
  function StripLineComments(s: string, p: nat): (r: string)
    requires p <= |s|
    ensures |r| <= |s| - p
    ensures forall k :: 0 <= k < |r| ==> !DoubleSlashAt(r, k)
    ensures r != [] ==> (r[0] == s[p] && !StartsAt(s, p, "//")) || IsLineTerminator(r[0])
    ensures (forall k :: p <= k < |s| ==> !DoubleSlashAt(s, k)) ==> r == s[p..]
    decreases |s| - p
  {
    if p == |s| then []
    else if StartsAt(s, p, "//") then
      assert DoubleSlashAt(s, p);
      StripLineComments(s, LineEnd(s, p))
    else
      var rest := StripLineComments(s, p + 1);
      var r := [s[p]] + rest;
      assert forall k :: 0 <= k < |r| ==> !DoubleSlashAt(r, k) by {
        forall k | 0 <= k < |r| ensures !DoubleSlashAt(r, k) {
          if k > 0 && k + 1 < |r| {
            assert r[k] == rest[k - 1] && r[k + 1] == rest[k];
            assert !DoubleSlashAt(rest, k - 1);
          }
        }
      }
      r
  }

  /** The lazy global block-comment replacement from position `p`: an opening slash-star is
      removed together with everything up to the first closing star-slash that starts at
      least two characters later; an opening with no such closing stays. */
  function StripBlockComments(s: string, p: nat): (r: string)
    requires p <= |s|
    ensures |r| <= |s| - p
    ensures (forall k: nat :: p <= k <= |s| ==> !StartsAt(s, k, "/*")) ==> r == s[p..]
    decreases |s| - p
  {
    if p == |s| then []
    else if StartsAt(s, p, "/*") then
      match IndexOf(s, "*/", p + 2)
      case Some(k) => StripBlockComments(s, k + 2)
      case None => [s[p]] + StripBlockComments(s, p + 1)
    else [s[p]] + StripBlockComments(s, p + 1)
  }

  /** Line comments first, then block comments. */
  function StripComments(text: string): string {
    StripBlockComments(StripLineComments(text, 0), 0)
  }

  /** Text without any `//` and without any opening slash-star is left as it is. */
  lemma CommentFreeUnchanged(text: string)
    requires !Contains(text, "//") && !Contains(text, "/*")
    ensures StripComments(text) == text
  {
    forall k | 0 <= k < |text| ensures !DoubleSlashAt(text, k) {
      if DoubleSlashAt(text, k) {
        assert StartsAt(text, k, "//");
      }
    }
    assert StripLineComments(text, 0) == text[0..] == text;
  }

  /** After comment stripping no `//` survives at the line stage, so no line comment can
      contribute to the rest of the extraction. */
  lemma NoLineCommentSurvives(text: string)
    ensures !Contains(StripLineComments(text, 0), "//")
  {
    var r := StripLineComments(text, 0);
    forall i: nat | i <= |r| ensures !StartsAt(r, i, "//") {
      if i + 2 <= |r| {
        assert !DoubleSlashAt(r, i);
        assert r[i..i + 2] == [r[i], r[i + 1]];
      }
    }
  }

  // ---------------------------------------------------------------------------------------
  // Bare queries and start patterns

  const Keywords: seq<string> := ["SELECT", "UPDATE", "DELETE", "INSERT", "WITH"]

  /** `/^(SELECT|UPDATE|DELETE|INSERT|WITH)/` on an already uppercased text. */
  predicate StartsWithKeyword(upper: string) {
    exists i :: 0 <= i < |Keywords| && StartsAt(upper, 0, Keywords[i])
  }

  const Quote: Class := Union(Single('"'), Single('\''))

  /** `String\s+(?:sql\w*|jpql|hql|consulta\w*)\s*=\s*["']` */
  const DeclarationStart: Re :=
    Chain([Lit("String"), Spaces1,
           Alt(Alt(Cat(Lit("sql"), Star(Ch(WordClass))), Lit("jpql")),
               Alt(Lit("hql"), Cat(Lit("consulta"), Star(Ch(WordClass))))),
           Spaces, Lit("="), Spaces, Ch(Quote)])

  /** `(?:entityManager|em|session)\.create(?:Native)?Query\s*\(\s*["']` */
  const CreateCallStart: Re :=
    Chain([Alt(Alt(Lit("entityManager"), Lit("em")), Lit("session")), Lit(".create"),
           Opt(Lit("Native")), Lit("Query"), Spaces, Lit("("), Spaces, Ch(Quote)])

  /** `@(?:Named)?Query\s*\(\s*(?:nativeQuery\s*=\s*(?:true|false)\s*,\s*)?(?:value\s*=\s*)?["']` */
  const AnnotationStart: Re :=
    Chain([Lit("@"), Opt(Lit("Named")), Lit("Query"), Spaces, Lit("("), Spaces,
           Opt(Chain([Lit("nativeQuery"), Spaces, Lit("="), Spaces,
                      Alt(Lit("true"), Lit("false")), Spaces, Lit(","), Spaces])),
           Opt(Chain([Lit("value"), Spaces, Lit("="), Spaces])),
           Ch(Quote)])

  const StartPatterns: seq<Re> := [DeclarationStart, CreateCallStart, AnnotationStart]

  /** Some start pattern occurs (all three are case-sensitive). */
  predicate HasQueryStart(text: string) {
    exists i :: 0 <= i < |StartPatterns| && Test(StartPatterns[i], false, text)
  }

  // ---------------------------------------------------------------------------------------
  // Quoted segments

  /** The next quote character at or after `i`, or `|s|`. */
  function NextQuote(s: string, i: nat): (r: nat)
    requires i <= |s|
    ensures i <= r <= |s|
    ensures forall k :: i <= k < r ==> !IsQuote(s[k])
    ensures r == |s| || IsQuote(s[r])
    decreases |s| - i
  {
    if i == |s| || IsQuote(s[i]) then i else NextQuote(s, i + 1)
  }

  /** The `exec` loop of `/["']([^"']+)["']/g` from position `p`, concatenating the captured
      segments. A match starts at a quote whose next quote is not adjacent; the segment is the
      text between them and the search resumes after the closing quote. Opening and closing
      quotes need not be the same character. */
  function QuotedSegments(s: string, p: nat): (r: string)
    requires p <= |s|
    ensures |r| <= |s| - p
    ensures forall k :: 0 <= k < |r| ==> !IsQuote(r[k])
    decreases |s| - p
  {
    if p == |s| then []
    else if IsQuote(s[p]) then
      var k := NextQuote(s, p + 1);
      if k < |s| && k > p + 1 then
        var rest := QuotedSegments(s, k + 1);
        s[p + 1..k] + rest
      else QuotedSegments(s, p + 1)
    else QuotedSegments(s, p + 1)
  }

  /** No quote character in `s[a..b]`. */
  predicate QuoteFree(s: string, a: nat, b: nat)
    requires b <= |s|
  {
    forall m :: a <= m < b ==> !IsQuote(s[m])
  }

  /** Without any quote character there is no segment. */
  lemma {:induction false} NoQuoteNoSegments(s: string, p: nat)
    requires p <= |s| && QuoteFree(s, p, |s|)
    ensures QuotedSegments(s, p) == []
    decreases |s| - p
  {
    if p < |s| {
      NoQuoteNoSegments(s, p + 1);
    }
  }

  /** Text with exactly two quote characters, not adjacent, yields exactly the text between
      them. */
  lemma OneLiteralSegment(s: string, p: nat, k: nat)
    requires p + 1 < k < |s| && IsQuote(s[p]) && IsQuote(s[k])
    requires forall m :: 0 <= m < |s| && m != p && m != k ==> !IsQuote(s[m])
    ensures QuotedSegments(s, 0) == s[p + 1..k]
  {
    assert QuoteFree(s, 0, p) && QuoteFree(s, p + 1, k) && QuoteFree(s, k + 1, |s|);
    SegmentBetween(s, p, k);
  }

  lemma SegmentBetween(s: string, p: nat, k: nat)
    requires p + 1 < k < |s| && IsQuote(s[p]) && IsQuote(s[k])
    requires QuoteFree(s, 0, p) && QuoteFree(s, p + 1, k) && QuoteFree(s, k + 1, |s|)
    ensures QuotedSegments(s, 0) == s[p + 1..k]
  {
    SkipQuoteFree(s, 0, p);
    NoQuoteNoSegments(s, k + 1);
    NextQuoteAfterFree(s, p + 1, k);
    SegmentAtQuote(s, p, k);
  }

  /** One loop step: the segment from the quote at `p` to the next quote at `k`, when no
      segment follows. */
  lemma SegmentAtQuote(s: string, p: nat, k: nat)
    requires p + 1 < k < |s| && IsQuote(s[p]) && NextQuote(s, p + 1) == k
    requires QuotedSegments(s, k + 1) == []
    ensures QuotedSegments(s, p) == s[p + 1..k]
  {
    assert s[p + 1..k] + [] == s[p + 1..k];
  }

  /** Quote-free text before `p` is skipped by the segment loop. */
  lemma {:induction false} SkipQuoteFree(s: string, i: nat, p: nat)
    requires i <= p <= |s| && QuoteFree(s, i, p)
    ensures QuotedSegments(s, i) == QuotedSegments(s, p)
    decreases p - i
  {
    if i < p {
      SkipQuoteFree(s, i + 1, p);
    }
  }

  lemma {:induction false} NextQuoteAfterFree(s: string, i: nat, k: nat)
    requires i <= k < |s| && IsQuote(s[k]) && QuoteFree(s, i, k)
    ensures NextQuote(s, i) == k
    decreases k - i
  {
    if i < k {
      NextQuoteAfterFree(s, i + 1, k);
    }
  }

  // ---------------------------------------------------------------------------------------
  // extractCompleteQuery

  /** The extracted text: a bare query comes back trimmed; after a start pattern, the trimmed
      concatenation of the quoted segments; otherwise the trimmed comment-free text. */
  function ExtractCompleteQuery(text: string): (r: string)
    ensures var clean := StripComments(text);
      && (StartsWithKeyword(UpperStr(Trim(clean))) ==> r == Trim(clean))
      && (!HasQueryStart(clean) ==> r == Trim(clean))
      && (HasQueryStart(clean) && !StartsWithKeyword(UpperStr(Trim(clean))) ==>
            r == Trim(QuotedSegments(clean, 0)))
  {
    var clean := StripComments(text);
    var t := Trim(clean);
    if StartsWithKeyword(UpperStr(t)) then t
    else if HasQueryStart(clean) then Trim(QuotedSegments(clean, 0))
    else t
  }

  /** Trimming cannot bring in a quote. */
  lemma TrimKeepsQuoteFree(s: string)
    requires forall k :: 0 <= k < |s| ==> !IsQuote(s[k])
    ensures forall k :: 0 <= k < |Trim(s)| ==> !IsQuote(Trim(s)[k])
  {
    TrimChars(s);
    forall k | 0 <= k < |Trim(s)| ensures !IsQuote(Trim(s)[k]) {
      assert Trim(s)[k] in s;
    }
  }

  /** The extracted text never begins or ends with whitespace. */
  lemma ExtractedIsTrimmed(text: string)
    ensures var r := ExtractCompleteQuery(text);
      r == [] || (!IsSpace(r[0]) && !IsSpace(r[|r| - 1]))
  {
    var clean := StripComments(text);
    ExtractCompleteQueryCases(text);
    TrimmedEither(ExtractCompleteQuery(text), clean, QuotedSegments(clean, 0));
  }

  lemma TrimmedEither(r: string, a: string, b: string)
    requires r == Trim(a) || r == Trim(b)
    ensures r == [] || (!IsSpace(r[0]) && !IsSpace(r[|r| - 1]))
  {
    TrimEnds(a);
    TrimEnds(b);
  }

  /** The extracted text is one of the two trimmed candidates. */
  lemma ExtractCompleteQueryCases(text: string)
    ensures var clean := StripComments(text); var r := ExtractCompleteQuery(text);
      r == Trim(clean) || r == Trim(QuotedSegments(clean, 0))
  {}

  /** Whenever the quoted segments were used, the extracted text holds no quote character. */
  lemma SegmentQueryHasNoQuote(text: string)
    ensures HasQueryStart(StripComments(text)) && !StartsWithKeyword(UpperStr(Trim(StripComments(text)))) ==>
      forall k :: 0 <= k < |ExtractCompleteQuery(text)| ==> !IsQuote(ExtractCompleteQuery(text)[k])
  {
    if HasQueryStart(StripComments(text)) && !StartsWithKeyword(UpperStr(Trim(StripComments(text)))) {
      TrimKeepsQuoteFree(QuotedSegments(StripComments(text), 0));
    }
  }

  // ---------------------------------------------------------------------------------------
  // determineIfNative (the strict variant)

  const WordOrDot: Class := Union(WordClass, Single('.'))
  const Word: Class := WordClass

  /** The ten JPQL patterns, case-insensitive, worth 2 each. */
  const JpqlPatterns: seq<Cond> := [
    Matches(Chain([Lit("JOIN"), Spaces1, Lit("FETCH")]), true),
    Matches(Chain([WordBoundary, Lit("IN"), Spaces, Lit("("), Spaces, Lit(":"), Plus(Ch(Word)),
                   Spaces, Lit(")")]), true),
    Matches(Chain([WordBoundary, Lit("TYPE"), Spaces, Lit("(")]), true),
    Matches(Chain([WordBoundary, Lit("MEMBER"), Spaces1, Lit("OF"), WordBoundary]), true),
    Matches(Chain([WordBoundary, Lit("IS"), Spaces1, Lit("EMPTY"), WordBoundary]), true),
    Matches(Chain([WordBoundary, Lit("NEW"), Spaces1, Plus(Ch(WordOrDot)), Spaces, Lit("(")]), true),
    Matches(Chain([WordBoundary, Lit("INDEX"), Spaces, Lit("(")]), true),
    Matches(Chain([WordBoundary, Lit("TREAT"), Spaces, Lit("(")]), true),
    Matches(Chain([WordBoundary, Lit("ENTRY"), Spaces, Lit("(")]), true),
    Matches(Chain([WordBoundary, Lit("CASE"), Spaces1, Lit("WHEN"), Spaces1,
                   Star(Ch(Negate(Single('=')))), Spaces1, Lit("IS"), Spaces1, Lit("NULL"),
                   WordBoundary]), true)
  ]

  const CreateTable: Re := Chain([Lit("CREATE"), Spaces1, Opt(Cat(Lit("TEMP"), Spaces1)), Lit("TABLE")])
  const AlterTable: Re := Chain([Lit("ALTER"), Spaces1, Lit("TABLE")])
  const DropTable: Re := Chain([Lit("DROP"), Spaces1, Lit("TABLE")])
  const Exec: Re := Chain([Lit("EXEC"), Spaces1])
  const Execute: Re := Chain([Lit("EXECUTE"), Spaces1])
  const StoredProcedure: Re := Chain([WordBoundary, Lit("SP_")])
  const CommonTableParts: seq<Re> := [Lit("WITH"), Spaces1, Plus(Ch(Word)), Spaces1, Lit("AS"), Spaces1, Lit("(")]
  const CommonTable: Re := Chain(CommonTableParts)
  const InsertColumns: Re :=
    Chain([Lit("INSERT"), Spaces1, Lit("INTO"), Spaces1, Plus(Ch(WordOrDot)), Spaces, Lit("(")])
  const MergeInto: Re := Chain([Lit("MERGE"), Spaces1, Lit("INTO")])
  const SelectTop: Re := Chain([Lit("SELECT"), Spaces1, Lit("TOP"), Spaces1])
  const RowNum: Re := WholeWord("ROWNUM")
  const Dual: Re := WholeWord("DUAL")
  const SchemaTableColumn: Re :=
    Chain([WordBoundary, Plus(Ch(Word)), Lit("."), Plus(Ch(Word)), Lit("."), Plus(Ch(Word)), WordBoundary])
  const BracketedName: Re := Chain([Lit("["), Plus(Ch(Word)), Lit("]")])

  /** The fourteen native patterns, worth 2 each; all but the bracketed name are
      case-insensitive. They are listed in three groups, in the source's order. */
  const StatementPatterns: seq<Cond> := [
    Matches(CreateTable, true), Matches(AlterTable, true), Matches(DropTable, true),
    Matches(Exec, true), Matches(Execute, true)
  ]
  const ClausePatterns: seq<Cond> := [
    Matches(StoredProcedure, true), Matches(CommonTable, true), Matches(InsertColumns, true),
    Matches(MergeInto, true), Matches(SelectTop, true)
  ]
  const DialectPatterns: seq<Cond> := [
    Matches(RowNum, true), Matches(Dual, true), Matches(SchemaTableColumn, true),
    Matches(BracketedName, false)
  ]
  const NativePatterns: seq<Cond> := StatementPatterns + ClausePatterns + DialectPatterns

  const LowerOrUnderscore: Class := Union(Range('a', 'z'), Single('_'))

  /** The four schema-prefix patterns, case-insensitive, worth 3 each. */
  const SchemaPatterns: seq<Cond> := [
    Matches(Chain([WordBoundary, Lit("el_"), Plus(Ch(LowerOrUnderscore)), Lit("."),
                   Plus(Ch(LowerOrUnderscore)), WordBoundary]), true),
    Matches(Chain([WordBoundary, Lit("cop_"), Plus(Ch(LowerOrUnderscore)), WordBoundary]), true),
    Matches(Chain([WordBoundary, Lit("gg_"), Plus(Ch(LowerOrUnderscore)), WordBoundary]), true),
    Matches(Chain([WordBoundary, Lit("dic_"), Plus(Ch(LowerOrUnderscore)), WordBoundary]), true)
  ]

  /** A capitalised entity name, with neither `.` nor `_` anywhere in the query. */
  const EntityBonus: Cond :=
    Both(Matches(QueryUtils.EntityName, false), Both(Lacks(HasChar('.')), Lacks(HasChar('_'))))

  /** `:[a-zA-Z0-9_]+` somewhere in the query, however many times. */
  const NamedParam: Cond := Matches(Cat(Lit(":"), Plus(Ch(Word))), false)

  const BonusIndicators: seq<Indicator> := [Indicator(EntityBonus, 3), Indicator(NamedParam, 1)]

  const JpqlIndicators: seq<Indicator> := Weighted(JpqlPatterns, 2) + BonusIndicators

  const NativeIndicators: seq<Indicator> :=
    Weighted(NativePatterns, 2) + Weighted(SchemaPatterns, 3) + [Indicator(HasChar('_'), 1)]

  /** Ties go to JPQL: `nativeScore > jpqlScore`. */
  const Scheme: Classifier.Scheme := Classifier.Scheme(NativeIndicators, JpqlIndicators, FavorJpql)

  function DetermineIfNative(query: string): (native: bool)
    ensures native <==> Score(NativeIndicators, query) > Score(JpqlIndicators, query)
  {
    IsNative(Scheme, query)
  }

  /** Appending two single indicators to a table adds their weights exactly when they hold. */
  lemma ScoreWithTwo(a: seq<Indicator>, x: Indicator, y: Indicator, query: string)
    ensures Score(a + [x, y], query) ==
      Score(a, query) + (if Holds(x.cond, query) then x.weight else 0)
      + (if Holds(y.cond, query) then y.weight else 0)
  {
    ScoreConcat(a, [x, y], query);
    ScoreConcat([x], [y], query);
    assert [x, y] == [x] + [y];
    ScoreSingle(x, query);
    ScoreSingle(y, query);
  }

  /** The JPQL score splits into the patterns, a bonus of 3 that needs an entity name and
      neither `.` nor `_`, and exactly 1 for any number of named parameters. */
  lemma JpqlScoreParts(query: string)
    ensures Score(JpqlIndicators, query) ==
      Score(Weighted(JpqlPatterns, 2), query)
      + (if Test(QueryUtils.EntityName, false, query) && '.' !in query && '_' !in query then 3 else 0)
      + (if Holds(NamedParam, query) then 1 else 0)
  {
    BonusScore(Weighted(JpqlPatterns, 2), query);
  }

  /** The two bonus indicators after any table. */
  lemma BonusScore(a: seq<Indicator>, query: string)
    ensures Score(a + BonusIndicators, query) ==
      Score(a, query)
      + (if Test(QueryUtils.EntityName, false, query) && '.' !in query && '_' !in query then 3 else 0)
      + (if Holds(NamedParam, query) then 1 else 0)
  {
    ScoreWithTwo(a, Indicator(EntityBonus, 3), Indicator(NamedParam, 1), query);
    assert Holds(Lacks(HasChar('.')), query) <==> '.' !in query;
    assert Holds(Lacks(HasChar('_')), query) <==> '_' !in query;
    assert Holds(EntityBonus, query) <==>
      Test(QueryUtils.EntityName, false, query) && '.' !in query && '_' !in query;
  }

  /** The native score splits into the patterns, the schema prefixes and exactly 1 for any
      number of underscores. */
  lemma NativeScoreParts(query: string)
    ensures Score(NativeIndicators, query) ==
      Score(Weighted(NativePatterns, 2), query) + Score(Weighted(SchemaPatterns, 3), query)
      + (if '_' in query then 1 else 0)
  {
    var a, b := Weighted(NativePatterns, 2), Weighted(SchemaPatterns, 3);
    ScoreConcat(a + b, [Indicator(HasChar('_'), 1)], query);
    ScoreConcat(a, b, query);
    ScoreSingle(Indicator(HasChar('_'), 1), query);
  }

  /** The entity bonus is never earned by a query that contains `.` or `_`. */
  lemma EntityBonusNeedsPlainQuery(query: string)
    requires '.' in query || '_' in query
    ensures Score(JpqlIndicators, query) ==
      Score(Weighted(JpqlPatterns, 2), query) + (if Holds(NamedParam, query) then 1 else 0)
  {
    JpqlScoreParts(query);
  }

  /** At most 24 on the JPQL side (10 x 2 + 3 + 1) and 41 on the native side
      (14 x 2 + 4 x 3 + 1). */
  lemma ScoresBounded(query: string)
    ensures Score(JpqlIndicators, query) <= 24
    ensures Score(NativeIndicators, query) <= 41
  {
    JpqlScoreParts(query);
    NativeScoreParts(query);
    ScoreBounds(Weighted(JpqlPatterns, 2), query);
    ScoreBounds(Weighted(NativePatterns, 2), query);
    ScoreBounds(Weighted(SchemaPatterns, 3), query);
    WeightedTotal(JpqlPatterns, 2);
    WeightedTotal(NativePatterns, 2);
    WeightedTotal(SchemaPatterns, 3);
  }

  lemma StatementPatternsConsume()
    ensures MinLen(CreateTable) > 0 && MinLen(AlterTable) > 0 && MinLen(DropTable) > 0
    ensures MinLen(Exec) > 0 && MinLen(Execute) > 0
  {
    assert MinLen(CreateTable) > 0 by {
      QueryUtils.ChainWithLit([Lit("CREATE"), Spaces1, Opt(Cat(Lit("TEMP"), Spaces1)), Lit("TABLE")], 0, "CREATE");
    }
    assert MinLen(AlterTable) > 0 by {
      QueryUtils.ChainWithLit([Lit("ALTER"), Spaces1, Lit("TABLE")], 0, "ALTER");
    }
    assert MinLen(DropTable) > 0 by {
      QueryUtils.ChainWithLit([Lit("DROP"), Spaces1, Lit("TABLE")], 0, "DROP");
    }
    assert MinLen(Exec) > 0 by {
      QueryUtils.ChainWithLit([Lit("EXEC"), Spaces1], 0, "EXEC");
    }
    assert MinLen(Execute) > 0 by {
      QueryUtils.ChainWithLit([Lit("EXECUTE"), Spaces1], 0, "EXECUTE");
    }
  }

  lemma ClausePatternsConsume()
    ensures MinLen(StoredProcedure) > 0 && MinLen(CommonTable) > 0 && MinLen(InsertColumns) > 0
    ensures MinLen(MergeInto) > 0 && MinLen(SelectTop) > 0
  {
    assert MinLen(StoredProcedure) > 0 by {
      QueryUtils.ChainWithLit([WordBoundary, Lit("SP_")], 1, "SP_");
    }
    assert MinLen(CommonTable) > 0 by {
      QueryUtils.ChainWithLit(CommonTableParts, 0, "WITH");
    }
    assert MinLen(InsertColumns) > 0 by {
      QueryUtils.ChainWithLit([Lit("INSERT"), Spaces1, Lit("INTO"), Spaces1, Plus(Ch(WordOrDot)), Spaces, Lit("(")], 0, "INSERT");
    }
    assert MinLen(MergeInto) > 0 by {
      QueryUtils.ChainWithLit([Lit("MERGE"), Spaces1, Lit("INTO")], 0, "MERGE");
    }
    assert MinLen(SelectTop) > 0 by {
      QueryUtils.ChainWithLit([Lit("SELECT"), Spaces1, Lit("TOP"), Spaces1], 0, "SELECT");
    }
  }

  /** A common table expression is recognised only with white space between `AS` and the
      opening bracket: every match ends with `(` right after a white-space character. */
  lemma CommonTableEndsAfterSpace(s: string, p: nat, m: nat)
    requires p <= |s| && m in Ends(CommonTable, s, p, true)
    ensures 2 <= m <= |s| && s[m - 1] == '(' && IsSpace(s[m - 2])
  {
    var head := [Lit("WITH"), Spaces1, Plus(Ch(Word)), Spaces1, Lit("AS")];
    assert head + [Spaces1, Lit("(")] == CommonTableParts;
    ChainEndsSpaceThen(head, '(', s, p, m, true);
    SingleNonLetterCI('(', s[m - 1]);
    SpaceClassCI(s[m - 2]);
  }

  /** Position `m` ends a `(` that follows a white-space character. */
  predicate SpacedBracketAt(s: string, m: nat) {
    2 <= m <= |s| && s[m - 1] == '(' && IsSpace(s[m - 2])
  }

  /** The common-table pattern matches only text holding a `(` right after white space. */
  lemma CommonTableNeedsSpacedBracket(s: string)
    requires Holds(Matches(CommonTable, true), s)
    ensures exists m: nat :: SpacedBracketAt(s, m)
  {
    var p: nat :| p <= |s| && Ends(CommonTable, s, p, true) != {};
    var m :| m in Ends(CommonTable, s, p, true);
    CommonTableEndsAfterSpace(s, p, m);
    assert SpacedBracketAt(s, m);
  }

  /** Text opening with `WITH t AS (`: the pattern from `AS` on stops after the bracket. */
  lemma CommonTableFromAs(s: string)
    requires 11 <= |s| && s[7] == 'A' && s[8] == 'S' && s[9] == ' ' && s[10] == '('
    ensures 11 in Ends(Chain(CommonTableParts[4..]), s, 7, true)
  {
    var rs := CommonTableParts;
    assert 11 in Ends(Chain(rs[7..]), s, 11, true);
    assert StartsAtCI(s, 10, "(");
    LitEndsCI("(", s, 10);
    ChainStep(rs, 6, s, 10, 11, 11, true);
    PlusOne(SpaceClass, s, 9, true);
    ChainStep(rs, 5, s, 9, 10, 11, true);
    assert StartsAtCI(s, 7, "AS");
    LitEndsCI("AS", s, 7);
    ChainStep(rs, 4, s, 7, 9, 11, true);
  }

  /** Text opening with `WITH t AS (`: the pattern after `WITH` stops after the bracket. */
  lemma CommonTableFromName(s: string)
    requires 11 <= |s| && s[4] == ' ' && s[5] == 't' && s[6] == ' '
    requires s[7] == 'A' && s[8] == 'S' && s[9] == ' ' && s[10] == '('
    ensures 11 in Ends(Chain(CommonTableParts[1..]), s, 4, true)
  {
    var rs := CommonTableParts;
    CommonTableFromAs(s);
    PlusOne(SpaceClass, s, 6, true);
    ChainStep(rs, 3, s, 6, 7, 11, true);
    PlusOne(Word, s, 5, true);
    ChainStep(rs, 2, s, 5, 6, 11, true);
    PlusOne(SpaceClass, s, 4, true);
    ChainStep(rs, 1, s, 4, 5, 11, true);
  }

  /** A text that opens with `WITH t AS (` earns the common-table bonus. */
  lemma CommonTableMatchesSpacedBracket(s: string)
    requires 11 <= |s| && s[..11] == "WITH t AS ("
    ensures Holds(Matches(CommonTable, true), s)
  {
    var rs := CommonTableParts;
    assert forall i :: 0 <= i < 11 ==> s[i] == s[..11][i];
    CommonTableFromName(s);
    assert StartsAtCI(s, 0, "WITH");
    LitEndsCI("WITH", s, 0);
    ChainStep(rs, 0, s, 0, 4, 11, true);
    assert rs[0..] == rs;
    TestAt(CommonTable, true, s, 0, 11);
  }

  /** `WITH t AS(x)`, with no space before the bracket, earns no common-table bonus. */
  lemma CommonTableNeedsSpaceBeforeBracket()
    ensures !Holds(Matches(CommonTable, true), "WITH t AS(x)")
  {
    var s := "WITH t AS(x)";
    if Holds(Matches(CommonTable, true), s) {
      CommonTableNeedsSpacedBracket(s);
      assert false;
    }
  }

  lemma DialectPatternsConsume()
    ensures MinLen(RowNum) > 0 && MinLen(Dual) > 0
    ensures MinLen(SchemaTableColumn) > 0 && MinLen(BracketedName) > 0
  {
    WholeWordConsumes("ROWNUM");
    WholeWordConsumes("DUAL");
    SchemaTableColumnConsumes();
    assert MinLen(BracketedName) > 0 by {
      QueryUtils.ChainWithLit([Lit("["), Plus(Ch(Word)), Lit("]")], 0, "[");
    }
  }

  lemma WholeWordConsumes(w: string)
    requires w != []
    ensures MinLen(WholeWord(w)) > 0
  {
    QueryUtils.ChainWithLit([WordBoundary, Lit(w), WordBoundary], 1, w);
  }

  lemma SchemaTableColumnConsumes()
    ensures MinLen(SchemaTableColumn) > 0
  {
    var rs := [WordBoundary, Plus(Ch(Word)), Lit("."), Plus(Ch(Word)), Lit("."), Plus(Ch(Word)), WordBoundary];
    assert rs[2] == Lit(".");
    QueryUtils.ChainWithLit(rs, 2, ".");
  }

  predicate AllNeedInput(conds: seq<Cond>) {
    forall i :: 0 <= i < |conds| ==> QueryUtils.NeedsInput(conds[i])
  }

  lemma ConcatNeedsInput(a: seq<Cond>, b: seq<Cond>)
    requires AllNeedInput(a) && AllNeedInput(b)
    ensures AllNeedInput(a + b)
  {
    forall i | 0 <= i < |a + b| ensures QueryUtils.NeedsInput((a + b)[i]) {
      if i < |a| { assert (a + b)[i] == a[i]; } else { assert (a + b)[i] == b[i - |a|]; }
    }
  }

  lemma FiveNeedInput(a: Cond, b: Cond, c: Cond, d: Cond, e: Cond)
    requires QueryUtils.NeedsInput(a) && QueryUtils.NeedsInput(b) && QueryUtils.NeedsInput(c)
    requires QueryUtils.NeedsInput(d) && QueryUtils.NeedsInput(e)
    ensures AllNeedInput([a, b, c, d, e])
  {}

  lemma FourNeedInput(a: Cond, b: Cond, c: Cond, d: Cond)
    requires QueryUtils.NeedsInput(a) && QueryUtils.NeedsInput(b)
    requires QueryUtils.NeedsInput(c) && QueryUtils.NeedsInput(d)
    ensures AllNeedInput([a, b, c, d])
  {}

  lemma StatementPatternsNeedInput()
    ensures AllNeedInput(StatementPatterns)
  {
    StatementPatternsConsume();
    FiveNeedInput(Matches(CreateTable, true), Matches(AlterTable, true), Matches(DropTable, true),
      Matches(Exec, true), Matches(Execute, true));
  }

  lemma ClausePatternsNeedInput()
    ensures AllNeedInput(ClausePatterns)
  {
    ClausePatternsConsume();
    FiveNeedInput(Matches(StoredProcedure, true), Matches(CommonTable, true),
      Matches(InsertColumns, true), Matches(MergeInto, true), Matches(SelectTop, true));
  }

  lemma DialectPatternsNeedInput()
    ensures AllNeedInput(DialectPatterns)
  {
    DialectPatternsConsume();
    FourNeedInput(Matches(RowNum, true), Matches(Dual, true), Matches(SchemaTableColumn, true),
      Matches(BracketedName, false));
  }

  /** Every native pattern needs at least one character to match. */
  lemma NativePatternsNeedInput()
    ensures AllNeedInput(NativePatterns)
  {
    StatementPatternsNeedInput();
    ClausePatternsNeedInput();
    DialectPatternsNeedInput();
    ConcatNeedsInput(StatementPatterns, ClausePatterns);
    ConcatNeedsInput(StatementPatterns + ClausePatterns, DialectPatterns);
  }

  lemma SchemaPatternsNeedInput()
    ensures AllNeedInput(SchemaPatterns)
  {
    var el := Chain([WordBoundary, Lit("el_"), Plus(Ch(LowerOrUnderscore)), Lit("."),
                     Plus(Ch(LowerOrUnderscore)), WordBoundary]);
    var cop := Chain([WordBoundary, Lit("cop_"), Plus(Ch(LowerOrUnderscore)), WordBoundary]);
    var gg := Chain([WordBoundary, Lit("gg_"), Plus(Ch(LowerOrUnderscore)), WordBoundary]);
    var dic := Chain([WordBoundary, Lit("dic_"), Plus(Ch(LowerOrUnderscore)), WordBoundary]);
    assert MinLen(el) > 0 by {
      QueryUtils.ChainWithLit([WordBoundary, Lit("el_"), Plus(Ch(LowerOrUnderscore)), Lit("."),
                               Plus(Ch(LowerOrUnderscore)), WordBoundary], 1, "el_");
    }
    assert MinLen(cop) > 0 by {
      QueryUtils.ChainWithLit([WordBoundary, Lit("cop_"), Plus(Ch(LowerOrUnderscore)), WordBoundary], 1, "cop_");
    }
    assert MinLen(gg) > 0 by {
      QueryUtils.ChainWithLit([WordBoundary, Lit("gg_"), Plus(Ch(LowerOrUnderscore)), WordBoundary], 1, "gg_");
    }
    assert MinLen(dic) > 0 by {
      QueryUtils.ChainWithLit([WordBoundary, Lit("dic_"), Plus(Ch(LowerOrUnderscore)), WordBoundary], 1, "dic_");
    }
    FourNeedInput(Matches(el, true), Matches(cop, true), Matches(gg, true), Matches(dic, true));
  }

  /** A table of conditions that all need input scores 0 on the empty query. */
  lemma WeightedScoreOnEmpty(conds: seq<Cond>, w: nat)
    requires AllNeedInput(conds)
    ensures Score(Weighted(conds, w), []) == 0
  {
    QueryUtils.TableFailsOnEmpty(Weighted(conds, w));
    ScoreBounds(Weighted(conds, w), []);
  }

  /** The empty query has no native hit, so with ties going to JPQL it is JPQL. */
  lemma EmptyQueryIsJpql()
    ensures !DetermineIfNative([])
  {
    NativePatternsNeedInput();
    SchemaPatternsNeedInput();
    WeightedScoreOnEmpty(NativePatterns, 2);
    WeightedScoreOnEmpty(SchemaPatterns, 3);
    NativeScoreParts([]);
  }

  /** Any tie, not only the empty one, is JPQL here, the opposite of the newer classifier. */
  lemma TiesAreJpql(query: string)
    ensures Score(NativeIndicators, query) == Score(JpqlIndicators, query) ==> !DetermineIfNative(query)
  {}

  // ---------------------------------------------------------------------------------------
  // extractQuery

  datatype Extracted = Extracted(query: string, isNative: bool)

  /** The extracted text, classified by the strict classifier. */
  function ExtractQuery(text: string): (r: Extracted)
    ensures r.query == ExtractCompleteQuery(text)
    ensures r.isNative <==>
      Score(NativeIndicators, r.query) > Score(JpqlIndicators, r.query)
  {
    var q := ExtractCompleteQuery(text);
    Extracted(q, DetermineIfNative(q))
  }
}
