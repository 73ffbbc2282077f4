# Hibernate Query Tester: a verified model of its query logic

Hibernate Query Tester is a VS Code extension for trying JPQL and native SQL queries against a
database. A TypeScript client finds queries in Java source and sends them to a Java server that
runs them through Hibernate. This project models the deterministic core of both halves as pure
Dafny functions and proves properties about them.

The modules follow the source files:

- `Text`, `Seqs`/`KeyedSeqs`, `Regex` and `Wrappers` hold the shared vocabulary.
  - `Text` covers JavaScript's and Java's character classes, `trim`, ASCII case mapping, substring search and decimal rendering.
  - `Seqs`/`KeyedSeqs` cover de-duplication that keeps first occurrences.
  - `Regex` gives the set-of-end-positions meaning of the regular-expression fragment the classifiers test with.
  - `Wrappers` provides `Option` for `null`/`undefined` and `Result` for a thrown exception.
- `Classifier` is the weighted-indicator score that both query classifiers share. The tie-break is an explicit parameter.
- `QueryUtils` (client/src/utils/queryUtils.ts) has five parts:
  - the three query-site scanners, each written as a hand-made matcher plus the `exec` loop;
  - literal stitching;
  - the display normal form;
  - de-duplication;
  - the classifier, whose ties go to native.
- `Extension` is the older extractor and classifier nested in client/src/extension.ts. Its ties go to JPQL.
- `Sidebar` is the sidebar's document scan (`_scanQueries`). The sidebar's `_normalizeQuery`, `_formatResults` and the quote pre-processing of `_formatQuery` are character-for-character copies of the query service's, so `QueryService` models them once.
- `QueryService` covers the query service's keyword normalisation, column-union table, formatter pre-processing, constructor defaults and `executeQuery` forwarding.
- `Webview` covers the parameter detection and the native guess in client/media/main.js.
- `TestHarness` covers the enhanced detector, type guess, empty pretty-print and linter that the webview test suite defines for itself.
- `GlobalState` models VS Code's `globalState` as a map. `Storage` (a move-to-front history capped at 50) and `StorageService` (a prepend-only history capped at 100) are the two stores built on it.
- `Logger` models the level filter, the repeat suppression and the routing of server log lines.
- `JavaValues`, `QueryResult`, `QueryExecutor`, `HibernateDialect`, `HibernateManager` and `Server` model the server:
  - parameter conversion and binding;
  - the shaping of native rows;
  - the dialect table and the re-initialisation guard;
  - request dispatch.

Parameters stand in for everything outside the model:

- the clock;
- date parsing;
- `toString` and date rendering;
- JSON parsing of a server log line;
- the layout passes of the formatters;
- whether Hibernate's session-factory build succeeds;
- the rows a Hibernate session returns.

Where the code does something other than its documentation suggests, the model follows the code:

- `scanQueries` never consults the classifier. Every flag it reports comes from the syntax of the site.
- `HibernateManager.initialize` checks for reuse before it checks the configuration.
  - An empty configuration is therefore accepted when a factory exists, the version is unchanged and the recorded dialect is the default.
  - The version is recorded before the configuration check, so it changes even when initialisation then fails.
- `convertParameterValue` returns any string containing an ASCII letter, other than a boolean word, unchanged. So ISO date-times written with `T`, UUIDs with hex letters and numbers with an exponent never reach the date, UUID or exponent conversions.
- The `java.util.Date` branch of `convertParameterValue` is unreachable, because such values are already standard JPA types.
- `removeParamSet` tests the stored value for truthiness, so a stored falsy value is never removed.

## Model

| member | source | states |
|---|---|---|
| Classifier.ScoreBounds | client/src/utils/queryUtils.ts:146-195 | a score never exceeds the total weight of the indicators, and it is zero exactly when no indicator of positive weight matches |
| Classifier.WeightedTotal | client/src/utils/queryUtils.ts:166-186 | n indicators of weight w have total weight n * w |
| Classifier.ScoreConcat | client/src/utils/queryUtils.ts:166-186 | the score and the total weight of two indicator lists run one after the other add up |
| Classifier.ScoreMonotone | client/src/utils/queryUtils.ts:166-186 | a query on which every indicator that matched another query also matches scores at least as much |
| Classifier.NativeWins | client/src/utils/queryUtils.ts:194 | the higher score wins and the tie-break decides only an equal score |
| Classifier.MoreNativeHitsKeepNative | client/src/utils/queryUtils.ts:146-195 | a query judged native stays native when it gains native indicators and loses JPQL ones |
| Classifier.TieBreakOnlyMattersOnTies | client/src/extension.ts:247 | the `>=` and `>` comparisons of the two classifiers disagree exactly when the scores are equal |
| Classifier.NoHitsFollowsTieBreak | client/src/utils/queryUtils.ts:194 | a query matching no indicator at all is classified by the tie-break alone |
| QueryUtils.FormatQueryScanSpec | client/src/utils/queryUtils.ts:203-206 | the display form has no white space at either end, no two white-space characters in a row, and formatting it again changes nothing |
| QueryUtils.IsDuplicateQuerySpec | client/src/utils/queryUtils.ts:215-218 | a query is a duplicate exactly when some listed query has the same display form |
| QueryUtils.IsDuplicateQueryHasKey | client/src/utils/queryUtils.ts:215-218 | the duplicate test is the generic "some element has this key" test with the display form as the key |
| QueryUtils.NeedsInputFailsOnEmpty | client/src/utils/queryUtils.ts:146-195 | an indicator pattern that must consume input never holds of the empty query |
| QueryUtils.ChainWithLit | client/src/utils/queryUtils.ts:149-162 | a pattern with a non-empty literal part has a positive minimum match length |
| QueryUtils.JpqlPatternsNeedInput | client/src/utils/queryUtils.ts:148-155 | each of the six JPQL patterns must consume input |
| QueryUtils.NativePatternsNeedInput | client/src/utils/queryUtils.ts:158-163 | each of the four native patterns must consume input |
| QueryUtils.EntityNameNeedsInput | client/src/utils/queryUtils.ts:188-192 | the capitalised-entity-name check must consume input |
| QueryUtils.TableFailsOnEmpty | client/src/utils/queryUtils.ts:169-180 | every indicator of a table whose patterns need input fails on the empty query |
| QueryUtils.EmptyFollowsTieBreak | client/src/utils/queryUtils.ts:194 | when no indicator can hold of the empty query, the empty query is classified by the tie-break alone |
| QueryUtils.NativeIndicatorsNeedInput | client/src/utils/queryUtils.ts:158-185 | every native indicator, the underscore check included, needs input |
| QueryUtils.JpqlIndicatorsNeedInput | client/src/utils/queryUtils.ts:148-192 | every JPQL indicator, the entity-name check included, needs input |
| QueryUtils.AllNeedInputConcat | client/src/utils/queryUtils.ts:148-192 | tables whose indicators need input can be joined and still need input |
| QueryUtils.EmptyQueryIsNative | client/src/utils/queryUtils.ts:165-194 | the empty query scores 0 on both sides and `nativeScore >= jpqlScore` classifies it as native |
| QueryUtils.ScoresBounded | client/src/utils/queryUtils.ts:165-192 | the native score is at most 9 (four patterns worth 2 and the underscore worth 1) and the JPQL score at most 14 |
| QueryUtils.TiesAreNative | client/src/utils/queryUtils.ts:194 | every tie, not only the empty one, classifies as native |
| QueryUtils.NativeHitsNeverFlipToJpql | client/src/utils/queryUtils.ts:169-194 | a query whose native hits grow and JPQL hits shrink stays native |
| QueryUtils.SkipUntil | client/src/utils/queryUtils.ts:120 | the first position at or after `i` holding a stop character (or the end), with no stop character before it |
| QueryUtils.ToCharAt | client/src/utils/queryUtils.ts:120-121 | a `to_char(expr, 'fmt` match consumes at least one character and stays inside the text |
| QueryUtils.ProcessExtractedQuery | client/src/utils/queryUtils.ts:114-138 | a query that is not native is only trimmed |
| QueryUtils.ToCharNeedsQuote | client/src/utils/queryUtils.ts:120-121 | a `to_char` match needs a single quote after its start |
| QueryUtils.RepairToCharWithoutMatch | client/src/utils/queryUtils.ts:120-121 | without a `to_char` match the replacement copies the text |
| QueryUtils.NativeRepairLeavesPlainQueries | client/src/utils/queryUtils.ts:114-138 | a native query with no `to_char` match and no `'YYYY`, `'MM` or `'DD` literal is only trimmed |
| QueryUtils.NativeQuoteFreeIsTrimmed | client/src/utils/queryUtils.ts:114-138 | a native query without a single quote is only trimmed |
| QueryUtils.SeparatorAt | client/src/utils/queryUtils.ts:83 | a `+` at the position always separates; no separator means the next non-space character is not `+` |
| QueryUtils.SplitOnPlus | client/src/utils/queryUtils.ts:83 | splitting yields at least one piece and no piece contains `+` |
| QueryUtils.SplitFrom | client/src/utils/queryUtils.ts:83 | the split from a given position yields at least one piece, none containing `+` |
| QueryUtils.SplitFromWithoutPlus | client/src/utils/queryUtils.ts:83 | text without `+` is one piece from the given position to the end |
| QueryUtils.SplitWithoutPlus | client/src/utils/queryUtils.ts:83 | text without `+` splits into itself alone |
| QueryUtils.LiteralClose | client/src/utils/queryUtils.ts:88 | the literal closes on the same quote character, no line terminator lies inside, and without that quote there is no literal |
| QueryUtils.FirstLiteralWithoutQuotes | client/src/utils/queryUtils.ts:88-91 | a part without quote characters contains no literal |
| QueryUtils.ExtractQueryFromContent | client/src/utils/queryUtils.ts:75-105 | a given hint is kept as the native flag; no literal text gives the empty query; without a hint the flag is the classifier's verdict on the processed query |
| QueryUtils.NoLiteralNoQuery | client/src/utils/queryUtils.ts:75-105 | content without quote characters yields the empty query, whatever the hint |
| QueryUtils.NoQuotesInParts | client/src/utils/queryUtils.ts:83 | the pieces of quote-free content are quote-free |
| QueryUtils.SplitPiecesAreSlices | client/src/utils/queryUtils.ts:83 | every character of every piece occurs in the split text |
| QueryUtils.DrawnFromCons | client/src/utils/queryUtils.ts:83 | a slice followed by pieces drawn from the rest is drawn from the whole |
| QueryUtils.LiteralTextsOfQuoteFree | client/src/utils/queryUtils.ts:86-92 | quote-free pieces contribute no literal text |
| QueryUtils.DeclNameEnd | client/src/utils/queryUtils.ts:15 | the variable name (one of `sql\w*`, `jpql`, `hql`, `consulta\w*`) is non-empty and inside the text |
| QueryUtils.DeclarationAt | client/src/utils/queryUtils.ts:15-25 | a declaration match starts with `String` where asked and ends just after a `;` its captured text does not hold; the variable name starts at the first character after the white space that follows `String`, is `sql…`, `jpql`, `hql` or `consulta…` and ends inside the match, and the flag is native exactly when that name passes the naming rule |
| QueryUtils.NativeByNameOfVariables | client/src/utils/queryUtils.ts:19-24 | among the accepted variable names, exactly `jpql`, `hql` and the `consulta…` names that mention `jpql` or `hql` are read as JPQL |
| QueryUtils.DeclNameAt | client/src/utils/queryUtils.ts:15-25 | the native flag of a declaration is exactly the variable-name rule (starts with `sql`, or mentions neither `jpql` nor `hql`) |
| QueryUtils.AssignedAt | client/src/utils/queryUtils.ts:15 | `\s*=\s*([^;]*);` ends just after a `;` and captures no `;` |
| QueryUtils.CreateCallAt | client/src/utils/queryUtils.ts:35-42 | the call is native exactly when it reads `.createNativeQuery`, and the captured text holds neither `;` nor `)` |
| QueryUtils.QuoteClose | client/src/utils/queryUtils.ts:52 | the lazy literal closes on the first quote of either kind, with no quote or line terminator before it |
| QueryUtils.NativeFlagAt | client/src/utils/queryUtils.ts:52 | the optional group matches only at `nativeQuery`, consumes input, and captures the word `true` or `false` as spelled in the text after the `=` |
| QueryUtils.ValuePrefixEnd | client/src/utils/queryUtils.ts:52 | the optional `value =` prefix ends inside the text |
| QueryUtils.AnnotationRest | client/src/utils/queryUtils.ts:52-55 | the rest of the annotation captures a quoted literal of at least two characters, and its flag is native exactly when the `nativeQuery` group is present and captured `true` |
| QueryUtils.QuotedAt | client/src/utils/queryUtils.ts:52 | the captured literal is the matched slice, quotes included |
| QueryUtils.NameLiteralEnd | client/src/utils/queryUtils.ts:52 | the lazy `name = '…',` group, when it matches, resumes inside the text at a point where the rest of the annotation matches |
| QueryUtils.NameLiteralEndIsLazy | client/src/utils/queryUtils.ts:52 | the name literal closes at the leftmost quote, before any line terminator, after which `\s*,\s*` and the rest of the annotation match, and when no such quote exists the group does not match |
| QueryUtils.RestStart | client/src/utils/queryUtils.ts:52 | the optional `nativeQuery` group is read right after `(` and its spaces, or after the name literal when the name group matches; it is defined exactly when the annotation opens with `@(Named)Query (` |
| QueryUtils.AnnotationAt | client/src/utils/queryUtils.ts:52-55 | an annotation match starts where asked, captures a quoted literal, takes its end, flag and literal from the rest of the annotation read at `RestStart`, and is native exactly when the `nativeQuery` word written there is `true` |
| QueryUtils.MatchAt | client/src/utils/queryUtils.ts:15-63 | every site pattern's match starts where asked and consumes input |
| QueryUtils.MatchTable | client/src/utils/queryUtils.ts:18-63 | the table holds, for every start position, that position's match |
| QueryUtils.ExecLoop | client/src/utils/queryUtils.ts:18-32 | the `exec` loop's hits are matches at their starts, in order, without overlap |
| QueryUtils.ExecLoopStartsLeftmost | client/src/utils/queryUtils.ts:18 | the first hit is the leftmost match |
| QueryUtils.ExecLoopSkipsNothing | client/src/utils/queryUtils.ts:18-32 | no match starts in the gap after any hit |
| QueryUtils.SkipsNothingHitStep | client/src/utils/queryUtils.ts:18-32 | a hit followed by the hits after its end leaves no match in between |
| QueryUtils.ExecLoopEmpty | client/src/utils/queryUtils.ts:18 | without any match the loop finds nothing |
| QueryUtils.Hits | client/src/utils/queryUtils.ts:18-63 | every hit of a site kind is a non-empty range inside the text |
| QueryUtils.HitsAreLeftmostMatches | client/src/utils/queryUtils.ts:18-63 | the hits are exactly the leftmost-first, non-overlapping matches of the site pattern |
| QueryUtils.HitsMatch | client/src/utils/queryUtils.ts:18-63 | every hit is the site pattern's match at its start |
| QueryUtils.HitsStartLeftmost | client/src/utils/queryUtils.ts:18-63 | no match starts before the first hit |
| QueryUtils.HitsSkipNothing | client/src/utils/queryUtils.ts:18-63 | no match starts between one hit's end and the next hit |
| QueryUtils.Candidates | client/src/utils/queryUtils.ts:18-63 | one candidate per hit, flagged with the native flag the hit's syntax gave |
| QueryUtils.PushConditionIsKeepFirst | client/src/utils/queryUtils.ts:29-31 | the push condition (a non-empty query not already present by display form) is exactly "keep the first of each key" |
| KeyedSeqs.KeepFirstByFirst | client/src/utils/queryUtils.ts:29-31 | every element kept after the accumulator is a candidate whose key the accumulator lacks and that no earlier admissible candidate shares: the first occurrence of a key is the one kept |
| QueryUtils.ScanQueriesSpec | client/src/utils/queryUtils.ts:11-66 | the result holds only non-empty queries, no two with the same display form, in candidate order (declarations, then calls, then annotations), every non-empty candidate is represented, and each kept query is the first non-empty candidate of its display form, so a later duplicate never replaces it |
| QueryUtils.ScanFlagsAreSyntactic | client/src/utils/queryUtils.ts:11-66 | every scanned query is the extraction of some hit's captured text under that hit's flag, and that flag follows its site's rule: naming rule for declarations, `.createNativeQuery` for calls, the `nativeQuery` word read at the pinned point for annotations |
| QueryUtils.HitFlag | client/src/utils/queryUtils.ts:19-55 | every hit of a site kind sets its flag by that kind's rule: for a declaration the naming rule on the name right after `String` and its white space, for an annotation the `nativeQuery` word read at `RestStart` |
| QueryUtils.CandidateHit | client/src/utils/queryUtils.ts:27-58 | each candidate is the extraction of the hit at its index, called with that hit's flag |
| Extension.LineEnd | client/src/extension.ts:98 | the end of the line: no line terminator before it, and a terminator or the end of the text at it |
| Extension.StripLineComments | client/src/extension.ts:98 | no `//` survives the line-comment pass; text without `//` is left as it is |
| Extension.StripBlockComments | client/src/extension.ts:98 | the block-comment pass never lengthens the text and leaves text without `/*` as it is |
| Extension.CommentFreeUnchanged | client/src/extension.ts:98 | text with neither `//` nor `/*` passes comment removal unchanged |
| Extension.NoLineCommentSurvives | client/src/extension.ts:98 | after the line-comment pass the text contains no `//` |
| Extension.NextQuote | client/src/extension.ts:124 | the next quote character at or after a position, with none before it |
| Extension.QuotedSegments | client/src/extension.ts:124-132 | the concatenated inner texts of the `["']([^"']+)["']` matches hold no quote character and are no longer than the text |
| Extension.NoQuoteNoSegments | client/src/extension.ts:124-132 | quote-free text has no quoted segment |
| Extension.OneLiteralSegment | client/src/extension.ts:124-132 | text with exactly two quote characters yields the text between them |
| Extension.SegmentBetween | client/src/extension.ts:124-132 | a single literal surrounded by quote-free text yields its inner text |
| Extension.SegmentAtQuote | client/src/extension.ts:128-131 | a match at an opening quote captures up to the next quote |
| Extension.SkipQuoteFree | client/src/extension.ts:128 | the search for the next match skips quote-free text |
| Extension.NextQuoteAfterFree | client/src/extension.ts:124 | after quote-free text, the next quote is the first quote character |
| Extension.ExtractCompleteQuery | client/src/extension.ts:96-139 | comments go first; a text starting with SELECT, UPDATE, DELETE, INSERT or WITH is returned trimmed; without a start pattern the trimmed comment-free text is returned; otherwise the trimmed concatenation of the quoted segments |
| Extension.TrimKeepsQuoteFree | client/src/extension.ts:134 | trimming keeps text quote-free |
| Extension.ExtractedIsTrimmed | client/src/extension.ts:96-139 | the extracted query has no white space at either end |
| Extension.TrimmedEither | client/src/extension.ts:102-138 | every branch's result is a trimmed text |
| Extension.ExtractCompleteQueryCases | client/src/extension.ts:96-139 | the result is either the trimmed comment-free text or the trimmed quoted segments |
| Extension.SegmentQueryHasNoQuote | client/src/extension.ts:122-135 | a query stitched from a declaration, call or annotation holds no quote character |
| Extension.DetermineIfNative | client/src/extension.ts:154-248 | native exactly when the native score strictly exceeds the JPQL score |
| Extension.CommonTableEndsAfterSpace | client/src/extension.ts:179 | every match of the common-table pattern ends with `(` right after a white-space character |
| Extension.CommonTableNeedsSpacedBracket | client/src/extension.ts:179 | text the common-table pattern matches holds a `(` right after white space |
| Extension.CommonTableNeedsSpaceBeforeBracket | client/src/extension.ts:179 | `WITH t AS(x)`, with no space before the bracket, does not match |
| Extension.CommonTableFromAs | client/src/extension.ts:179 | on text opening with `WITH t AS (`, the pattern from `AS` on matches up to the bracket |
| Extension.CommonTableFromName | client/src/extension.ts:179 | on the same text, the pattern after `WITH` matches up to the bracket |
| Extension.CommonTableMatchesSpacedBracket | client/src/extension.ts:179 | any text opening with `WITH t AS (` matches |
| Extension.ScoreWithTwo | client/src/extension.ts:234-245 | two extra indicators add their weights when they hold |
| Extension.JpqlScoreParts | client/src/extension.ts:156-240 | the JPQL score is 2 per pattern hit, 3 for a capitalised entity name in a query with neither `.` nor `_`, and 1 for any named parameter |
| Extension.BonusScore | client/src/extension.ts:197-240 | the entity-name and named-parameter bonuses add 3 and 1 under their conditions |
| Extension.NativeScoreParts | client/src/extension.ts:171-245 | the native score is 2 per native pattern hit, 3 per schema-prefix hit and 1 for any underscore |
| Extension.EntityBonusNeedsPlainQuery | client/src/extension.ts:198-202 | a query holding `.` or `_` never earns the entity bonus |
| Extension.ScoresBounded | client/src/extension.ts:156-245 | the JPQL score is at most 24 and the native score at most 41 |
| Extension.StatementPatternsConsume | client/src/extension.ts:173-177 | the table, EXEC and EXECUTE patterns must consume input |
| Extension.ClausePatternsConsume | client/src/extension.ts:178-182 | the procedure, CTE, INSERT, MERGE and TOP patterns must consume input |
| Extension.DialectPatternsConsume | client/src/extension.ts:183-186 | the ROWNUM, DUAL, three-part name and bracket patterns must consume input |
| Extension.WholeWordConsumes | client/src/extension.ts:183-184 | a whole-word pattern of a non-empty word must consume input |
| Extension.SchemaTableColumnConsumes | client/src/extension.ts:185 | the `schema.table.column` pattern must consume input |
| Extension.ConcatNeedsInput | client/src/extension.ts:156-195 | joined tables of input-consuming indicators still need input |
| Extension.FiveNeedInput | client/src/extension.ts:173-186 | five input-consuming patterns form an input-consuming table |
| Extension.FourNeedInput | client/src/extension.ts:183-194 | four input-consuming patterns form an input-consuming table |
| Extension.StatementPatternsNeedInput | client/src/extension.ts:173-177 | none of the statement patterns holds of the empty query |
| Extension.ClausePatternsNeedInput | client/src/extension.ts:178-182 | none of the clause patterns holds of the empty query |
| Extension.DialectPatternsNeedInput | client/src/extension.ts:183-186 | none of the dialect patterns holds of the empty query |
| Extension.NativePatternsNeedInput | client/src/extension.ts:171-187 | none of the fourteen native patterns holds of the empty query |
| Extension.SchemaPatternsNeedInput | client/src/extension.ts:190-195 | none of the schema-prefix patterns holds of the empty query |
| Extension.WeightedScoreOnEmpty | client/src/extension.ts:213-231 | input-consuming patterns score 0 on the empty query |
| Extension.EmptyQueryIsJpql | client/src/extension.ts:247 | the empty query is a 0-0 tie and classifies as JPQL |
| Extension.TiesAreJpql | client/src/extension.ts:247 | every tie classifies as JPQL |
| Extension.ExtractQuery | client/src/extension.ts:94-151 | the query is the extracted text and the flag is the strict native-over-JPQL score comparison on it |
| Sidebar.DeclarationAt | client/src/sidebar.ts:406 | a declaration match starts with `String` and ends just after the opening quote of its value |
| Sidebar.QuoteAssignedAt | client/src/sidebar.ts:406 | `\s*=\s*["']` ends just after a quote character |
| Sidebar.ReceiverEnd | client/src/sidebar.ts:417 | a receiver is read exactly when the text names `entityManager`, `em` or `session` there |
| Sidebar.CreateCallAt | client/src/sidebar.ts:417 | a `create*Query` match ends just after an opening quote and begins with one of the three receivers followed by `.create` |
| Sidebar.ReceiverDotCreate | client/src/sidebar.ts:417 | a receiver followed by `.create` spells `entityManager.create`, `em.create` or `session.create` at the match start |
| Sidebar.CreateCallOnEm | client/src/sidebar.ts:417 | `em.createQuery("` is recognised and the match ends after its quote |
| Sidebar.CreateCallTail | client/src/sidebar.ts:417 | once the receiver and `.createQuery` are read, a bracket and a quote right after them complete the match |
| Sidebar.NativeFlagEnd | client/src/sidebar.ts:426 | the optional `nativeQuery = true,` (or `false`) group begins with `nativeQuery` and consumes input |
| Sidebar.ValueEnd | client/src/sidebar.ts:426 | the optional `value =` group begins with `value` and consumes input |
| Sidebar.AnnotationAt | client/src/sidebar.ts:426 | an annotation match begins with `@NamedQuery` or `@Query` and ends just after an opening quote |
| Sidebar.AnnotationNameEnd | client/src/sidebar.ts:426 | `@(?:Named)?Query` is read only where one of the two names is written |
| Sidebar.AnnotationArgsAt | client/src/sidebar.ts:426 | the arguments after the bracket end just after an opening quote |
| Sidebar.MatchAt | client/src/sidebar.ts:406-428 | each start pattern's match consumes input inside the text |
| Sidebar.MatchTable | client/src/sidebar.ts:409-432 | the table records a match at exactly the positions where the start pattern matches, with its end |
| Sidebar.MatchStarts | client/src/sidebar.ts:409-432 | the `exec` loop's starts are increasing positions where the pattern matches |
| Sidebar.MatchStartsAreLeftmost | client/src/sidebar.ts:409-432 | no match starts before the first start or in the gap after any match |
| Sidebar.ExtractFullQuery | client/src/sidebar.ts:379-403 | the result is missing exactly when neither the end marker nor `}` follows the start; a result holds no quote character and is trimmed |
| Sidebar.ExtractAtMarker | client/src/sidebar.ts:381-402 | when the end marker occurs, the block ends at its first occurrence and the result is the trimmed concatenation of the quoted segments in the block |
| Sidebar.ExtractOneLiteral | client/src/sidebar.ts:379-403 | a statement holding a single literal before its end marker yields that literal's trimmed text |
| Sidebar.BlockQuotes | client/src/sidebar.ts:389 | the block cut from the text keeps the positions of its quote characters |
| Sidebar.SiteQueries | client/src/sidebar.ts:409-432 | one extraction per match of the start pattern |
| Sidebar.Present | client/src/sidebar.ts:411 | the `query &&` test keeps exactly the non-empty, non-null extractions |
| Sidebar.MapFormat | client/src/sidebar.ts:435-437 | every query is whitespace-collapsed and trimmed, position by position |
| Sidebar.NonEmpty | client/src/sidebar.ts:438 | the filter keeps exactly the non-empty entries |
| Sidebar.CleanQueriesNormal | client/src/sidebar.ts:434-441 | every reported entry is non-empty, has no run of white space, and is in scan normal form |
| Sidebar.CleanQueriesMembers | client/src/sidebar.ts:434-441 | the reported list has no duplicates and holds exactly the non-empty normal forms of the pushed queries |
| Sidebar.CleanQueriesOfFormatted | client/src/sidebar.ts:435-441 | de-duplication after the filter keeps each non-empty formatted entry once |
| Sidebar.MapFormatMembers | client/src/sidebar.ts:435-437 | a value is a formatted entry exactly when it is the normal form of some pushed query |
| Sidebar.ScanDocument | client/src/sidebar.ts:364-460 | without an editor the reply is the no-editor error; otherwise success holds exactly when the cleaned list is non-empty, which is then both reported and saved, with the count in the message |
| Sidebar.CleanQueriesEmptyIff | client/src/sidebar.ts:443 | the cleaned list is empty exactly when no pushed query has a non-empty normal form |
| Sidebar.SiteQueriesClean | client/src/sidebar.ts:392-402 | every extraction is free of quote characters |
| Sidebar.PushedAreQuoteFree | client/src/sidebar.ts:409-432 | every pushed query is non-empty and quote-free |
| Sidebar.DedupePresentClean | client/src/sidebar.ts:411-412 | the `!queries.includes(query)` de-duplication keeps only quote-free entries |
| QueryService.FirstKeyword | client/src/services/queryService.ts:56-57 | the first whole-word, case-insensitive occurrence of a keyword at or after a position; none before it |
| QueryService.ReplaceFirst | client/src/services/queryService.ts:56-57 | only the first whole-word occurrence is rewritten, to the keyword's upper-case spelling; the rest of the text is unchanged and the length is kept |
| QueryService.NormalizeWith | client/src/services/queryService.ts:52-60 | rewriting a list of keywords in turn keeps the length |
| QueryService.NormalizeQuery | client/src/services/queryService.ts:46-61 | normalisation keeps the length of the query |
| QueryService.UpOn | client/src/services/queryService.ts:57 | upper-casing a set of positions changes exactly those positions' letters |
| QueryService.Interval | client/src/services/queryService.ts:57 | the positions a keyword occurrence covers |
| QueryService.UpperStrIdempotent | client/src/services/queryService.ts:56 | upper-casing twice is upper-casing once |
| QueryService.SameUpperSameWordChars | client/src/services/queryService.ts:56 | texts with the same upper-case image agree on where the word characters are, so `\b` sees the same boundaries |
| QueryService.KeywordAtUpper | client/src/services/queryService.ts:56 | a case-insensitive whole-word occurrence depends only on the upper-case image |
| QueryService.FirstKeywordUpper | client/src/services/queryService.ts:56-57 | texts with the same upper-case image have their first occurrence at the same place |
| QueryService.ReplaceFirstIsUpOn | client/src/services/queryService.ts:57 | replacing the first occurrence is upper-casing the positions it covers |
| QueryService.UpOnKeepsUpper | client/src/services/queryService.ts:55-58 | upper-casing positions keeps the upper-case image |
| QueryService.UpOnTwice | client/src/services/queryService.ts:55-58 | two rounds of upper-casing are one round over the union of positions |
| QueryService.NormalizeWithIsUpOn | client/src/services/queryService.ts:52-60 | the keyword loop upper-cases exactly the positions the first occurrences cover |
| QueryService.NormalizeChangesCaseOnly | client/src/services/queryService.ts:46-61 | the result has the input's length and upper-case image, and each character is either kept or upper-cased |
| QueryService.NormalizeIdempotent | client/src/services/queryService.ts:46-61 | normalising twice is normalising once |
| QueryService.NormalizeWithIdempotent | client/src/services/queryService.ts:52-60 | the keyword loop is idempotent for any keyword list |
| QueryService.NormalizeTouchesOnlyKeywords | client/src/services/queryService.ts:55-58 | a character outside every keyword's first whole-word occurrence is never changed, so words such as `fromDate` stay as written |
| QueryService.NormalizeWithOutside | client/src/services/queryService.ts:55-58 | for any keyword list, characters outside the first occurrences are kept |
| QueryService.CoveredNeedsMatch | client/src/services/queryService.ts:56-57 | a position is rewritten only when a first occurrence covers it |
| QueryService.Keys | client/src/services/queryService.ts:71 | `Object.keys` lists the row's keys in insertion order |
| QueryService.FormatResults | client/src/services/queryService.ts:63-85 | a missing or empty input gives `[]`; otherwise one row per input row, each with exactly the column keys, holding the item's own value or `null` for an absent one |
| QueryService.AllKeyVisitsMembers | client/src/services/queryService.ts:69-72 | the keys visited are exactly the keys of the rows |
| QueryService.FormatResultsColumns | client/src/services/queryService.ts:69-76 | the columns are the union of the rows' keys, without duplicates, in first-seen order |
| QueryService.FormatResultsHasNoUndefined | client/src/services/queryService.ts:77-82 | no cell of the table is `undefined` |
| QueryService.Unquote | client/src/services/queryService.ts:92-98 | one outer pair is removed only when the text is at least two characters long and starts and ends with the same quote character; otherwise the text is kept |
| QueryService.JointAt | client/src/services/queryService.ts:101 | a quote-`+`-quote joint starts and ends with a quote and holds a `+` |
| QueryService.ReplaceJoints | client/src/services/queryService.ts:101 | replacing the joints never lengthens the text and leaves text without `+` as it is |
| QueryService.PreparePlainQuery | client/src/services/queryService.ts:88-101 | a query that is not quoted and holds no `+` is only trimmed by the pre-processing |
| QueryService.CountConcat | client/src/services/queryService.ts:101 | counting a character is additive over concatenation |
| QueryService.ReplaceJointsRemovesPlus | client/src/services/queryService.ts:101 | the joint replacement never adds a `+`, and removes one when a joint is present |
| QueryService.NewService | client/src/services/queryService.ts:9-14 | the port defaults to 8089, the host to 127.0.0.1, and the Hibernate version starts at 5.6.15 |
| QueryService.ExecuteQuery | client/src/services/queryService.ts:28-44 | the client receives the normalised query with the parameters, flag and configuration unchanged; the version is updated only for a non-empty configured version, and nothing else changes |
| Webview.ParamAt | client/media/main.js:332 | a match is `:` followed by an identifier or `?` followed by digits, capturing the name; no match means the next character cannot start one |
| Webview.ParamTable | client/media/main.js:332-336 | the table records exactly the positions where a parameter pattern matches, with its end and capture |
| Webview.Captures | client/media/main.js:336-338 | every capture of the `exec` loop is written in the query after its marker |
| Webview.DetectQueryParams | client/media/main.js:328-345 | an empty query gives `[]`; the result has no duplicates, holds only identifiers and digit strings, holds exactly the captured names, in order of first occurrence |
| Webview.CapturesAreNames | client/media/main.js:332-338 | every capture is an identifier `[a-zA-Z][a-zA-Z0-9]*` or a digit string |
| Webview.InsideMatch | client/media/main.js:332-336 | no new match starts inside a match, as the loop resumes at its end |
| Webview.ExecFindsEveryParam | client/media/main.js:336-342 | the loop finds every position where a parameter pattern matches |
| Webview.FoundAfterHit | client/media/main.js:336-342 | a hit followed by a complete search from its end misses no match |
| Webview.HitAtCons | client/media/main.js:336 | a hit found later stays found when an earlier hit is prepended |
| Webview.EveryParamReported | client/media/main.js:328-345 | every parameter written in the query is reported |
| Webview.NoMarkersNoParams | client/media/main.js:332 | without `:` before a letter and `?` before a digit, nothing is reported, so a bare `?` contributes nothing |
| Webview.ContainsChar | client/media/main.js:797-799 | `includes` of a one-character string is membership |
| Webview.ColonMeansJpql | client/media/main.js:795-799 | a query containing `:` is never taken as native |
| Webview.LikelyNativeIgnoresCase | client/media/main.js:795 | the heuristic reads the lower-cased query, so letter case does not matter |
| Webview.SelectFromIsNative | client/media/main.js:795-799 | `select … from …` without `:` is taken as native |
| TestHarness.LiteralEnd | client/test/media/main.test.js:270-277 | a single-quoted literal, with backslash escapes, ends just after its closing quote |
| TestHarness.Placeholder | client/test/media/main.test.js:273-280 | a literal's placeholder holds no `:`, `?` or quote character, so no parameter is read from it |
| TestHarness.Mask | client/test/media/main.test.js:270-281 | masking never lowers the count of masked literals |
| TestHarness.MaskWithoutQuote | client/test/media/main.test.js:270-281 | text without the quote character is copied unchanged |
| TestHarness.MaskCopiesStretch | client/test/media/main.test.js:271 | a stretch without the quote character is copied as it is |
| TestHarness.LiteralEndPlain | client/test/media/main.test.js:270 | a literal without escapes ends at the next quote of its kind |
| TestHarness.TokenAt | client/test/media/main.test.js:284 | a match is named after `:` and positional after `?`; a `?` always matches, a bare one only when no digit follows, and a numbered one reads digits only |
| TestHarness.Collect | client/test/media/main.test.js:289-305 | the loop only appends to the parameters found so far |
| TestHarness.CollectWithoutMarkers | client/test/media/main.test.js:289-305 | text without `:` and `?` adds no parameter |
| TestHarness.QuestionInLiteralIgnored | client/test/media/main.test.js:266-305 | a `?` inside a quoted literal is masked and yields no parameter |
| TestHarness.BareNames | client/test/media/main.test.js:302-303 | bare placeholders are named `param1`, `param2`, … in order |
| TestHarness.BarePlaceholdersNumbered | client/test/media/main.test.js:289-305 | a text of bare `?` placeholders yields one `paramN` per `?`, numbered on from the count so far |
| TestHarness.BareStepNumbered | client/test/media/main.test.js:300-303 | one bare `?` step keeps the numbering |
| TestHarness.PlainStepNumbered | client/test/media/main.test.js:289 | a character that starts no parameter keeps the numbering |
| TestHarness.CountCharStep | client/test/media/main.test.js:302 | the count of `?` splits at the first character |
| TestHarness.CollectBareStep | client/test/media/main.test.js:300-303 | a bare `?` appends the next `paramN` and moves on by one character |
| TestHarness.CollectPlainStep | client/test/media/main.test.js:289 | a character that starts no parameter is skipped |
| TestHarness.BareQueryParams | client/test/media/main.test.js:262-308 | a query of bare `?` placeholders, without quotes or `:`, yields `param1` … `paramN` with N the number of `?` |
| TestHarness.NumberedCountSkipsDigits | client/test/media/main.test.js:360 | digits after a `?` do not change the count of numbered placeholders |
| TestHarness.QuestionMarksSplit | client/test/media/main.test.js:360-361 | every `?` is either numbered or bare |
| TestHarness.Verdict | client/test/media/main.test.js:366-373 | native exactly when the native score is larger; the confidence is the native share in [0, 1], above one half exactly when native |
| TestHarness.ShareBounds | client/test/media/main.test.js:368 | a share of a positive total lies in [0, 1] and exceeds one half exactly when it is the larger part |
| TestHarness.DetectQueryType | client/test/media/main.test.js:310-374 | the empty query gives `{isNative: false, confidence: 0}`; otherwise the confidence lies in [0, 1] and the query is native exactly when the native score is larger |
| TestHarness.ParameterScores | client/test/media/main.test.js:358-364 | bare placeholders add 2 each to the native score and numbered ones 2 each to the JPQL score |
| TestHarness.PrettifyInput | client/test/media/main.test.js:380 | the trimmed, collapsed input has no run of white space |
| TestHarness.PrettifyQuery | client/test/media/main.test.js:376-426 | the empty query gives the empty text; otherwise the layout is applied to the trimmed, collapsed input |
| TestHarness.CollapseKeepsLast | client/test/media/main.test.js:380 | collapsing keeps a last character that is not white space |
| TestHarness.PrettifyInputTrimmed | client/test/media/main.test.js:380 | the prepared input is trimmed, and empty exactly for a blank query |
| TestHarness.Report | client/test/media/main.test.js:436-497 | the report lists only failed checks, at most one issue per check |
| TestHarness.ReportedIffFailed | client/test/media/main.test.js:436-497 | with distinct issues, a check's issue is reported exactly when it failed |
| TestHarness.ConstantIssuesDistinct | client/test/media/main.test.js:432-494 | the fixed issues differ from each other and from the empty-query issue |
| TestHarness.ParenDistinct | client/test/media/main.test.js:457-461 | the parentheses issue differs from every fixed issue |
| TestHarness.ChecksOf | client/test/media/main.test.js:438-495 | the seven checks carry distinct issues, none of them the empty-query issue |
| TestHarness.Checks | client/test/media/main.test.js:438-495 | the checks of a query carry seven distinct issues, none of them the empty-query issue |
| TestHarness.ValidateQuery | client/test/media/main.test.js:428-498 | a blank query gives exactly the `Query is empty` error; otherwise that error never appears and there are at most seven issues |
| TestHarness.ValidateQueryIssues | client/test/media/main.test.js:436-497 | for a non-blank query each check's issue is reported exactly when that check fails |
| TestHarness.ReportOfChecks | client/test/media/main.test.js:438-495 | SELECT without FROM, an empty WHERE, unequal bracket counts, an odd count of `'` or `"`, a JOIN without ON and `SELECT *` are each reported exactly when they hold |
| GlobalState.SetRecordEntry | client/src/services/storageService.ts:60-64 | setting one name of an object-valued key changes that name only and leaves every other key as it was |
| GlobalState.RemoveRecordEntry | client/src/services/storageService.ts:94-100 | a present, truthy entry is deleted and only its key is rewritten; otherwise, an absent name included, nothing is written |
| GlobalState.SetFavorite | client/src/services/storageService.ts:70-74 | the favourite is stored under its name and no other key changes |
| GlobalState.RemoveFavorite | client/src/services/storageService.ts:76-82 | a present favourite is deleted and nothing else changes; an absent name writes nothing |
| GlobalState.RemoveKeepsOtherNames | client/src/services/storageService.ts:94-100 | removing one name keeps every other name and its value |
| GlobalState.QueriesOf | client/src/storage.ts:36 | the mirrored list holds the query of each entry, position by position |
| Storage.Migrate | client/src/storage.ts:58-63 | each legacy string becomes an entry with empty parameters and the native flag off, in the same order |
| Storage.GetQueryHistory | client/src/storage.ts:48-73 | a non-empty history is returned as stored; an empty one with legacy strings is migrated and saved under the new key only; with neither, the result is empty and nothing is written |
| Storage.RemoveFirst | client/src/storage.ts:15-18 | the first entry with the query is taken out and the rest keep their order; without one the history is unchanged |
| Storage.RemoveFirstHead | client/src/storage.ts:15-17 | a match at the head is the one removed |
| Storage.RemoveFirstStep | client/src/storage.ts:15-17 | an entry before the first match is kept in front |
| Storage.QueriesOfCons | client/src/storage.ts:36 | the query list of a history is its head's query followed by the rest's |
| Storage.FirstIndexCons | client/src/storage.ts:15 | `findIndex` past a different head is one more than in the tail |
| Storage.SpliceCons | client/src/storage.ts:17 | splicing past the head keeps the head |
| Storage.MoveToFront | client/src/storage.ts:14-31 | the new entry comes first, followed by the history without the earlier entry for that query, with the last entry popped past 50 |
| Storage.SaveQuery | client/src/storage.ts:11-38 | the history key holds the moved history, the legacy key mirrors its query strings, and no other key changes |
| Storage.MoveToFrontBounded | client/src/storage.ts:28-31 | a history of at most 50 entries stays within 50 |
| Storage.MoveToFrontDropsOldest | client/src/storage.ts:28-31 | a full history saving a new query loses exactly its last entry |
| Storage.NoDupsWithout | client/src/storage.ts:17 | removing one element of a duplicate-free list keeps it duplicate-free and without that element |
| Storage.RemoveFirstNoDups | client/src/storage.ts:15-18 | without duplicates before, the history has none after the removal and no longer holds the query |
| Storage.QueriesOfSplice | client/src/storage.ts:17-36 | the query list of a spliced history is the spliced query list |
| Storage.ConsPrefixNoDups | client/src/storage.ts:21-31 | prepending a new value to a prefix of a duplicate-free list keeps it duplicate-free |
| Storage.MoveToFrontNoDups | client/src/storage.ts:15-31 | if no query appeared twice before, none does after, and the saved query appears exactly once, at the front |
| Storage.MoveToFrontQueries | client/src/storage.ts:21-37 | the mirrored strings are the saved query followed by the remaining queries, cut at the cap |
| Storage.QueriesOfConsPrefix | client/src/storage.ts:36 | the query list of an entry before a prefix is the query before the prefix's queries |
| Storage.MoveToFrontKeepsOrder | client/src/storage.ts:15-31 | the other entries keep their relative order: the old history without the earlier entry, possibly cut at the end |
| Storage.MigrationKeepsOrder | client/src/storage.ts:52-67 | migrated entries keep the legacy strings' order, with empty parameters and the native flag off |
| Storage.GetQueries | client/src/storage.ts:40-46 | the query of each loaded entry, in order; a stored history is returned as it is without a write; an empty history returns the legacy strings, and when there are any, also writes their migrated entries under the new key and nothing else |
| Storage.ClearQueries | client/src/storage.ts:75-78 | both history keys are emptied and nothing else changes |
| Storage.ClearedHistoryIsEmpty | client/src/storage.ts:48-78 | after clearing, loading the history gives nothing, as there are no legacy strings to migrate |
| Storage.SaveParams | client/src/storage.ts:80-84 | the parameters are stored under the query and no other key changes |
| Storage.ClearParams | client/src/storage.ts:90-92 | the saved parameters become the empty object and nothing else changes |
| Storage.SaveFavoriteQuery | client/src/storage.ts:94-98 | the favourite is stored under its name and no other key changes |
| Storage.RemoveFavoriteQuery | client/src/storage.ts:104-110 | only the named favourite is deleted; an absent name writes nothing |
| Storage.SaveParamSet | client/src/storage.ts:113-117 | the set is stored under its name and no other key changes |
| Storage.RemoveParamSet | client/src/storage.ts:123-129 | a present, truthy set is deleted and nothing else changes; otherwise nothing is written |
| Storage.SaveScannedQueries | client/src/storage.ts:132-134 | the scanned list is stored as given and nothing else changes |
| Storage.ClearScannedQueries | client/src/storage.ts:140-142 | the scanned list becomes empty and nothing else changes |
| StorageService.Prepend | client/src/services/storageService.ts:30-36 | the new entry comes first and the old ones follow in order, the last one popped past 100 |
| StorageService.SaveQuery | client/src/services/storageService.ts:19-40 | the history becomes the prepended history and no other key changes |
| StorageService.PrependBounded | client/src/services/storageService.ts:33-36 | a history within 100 entries stays within 100; below the cap nothing is lost, at the cap only the last entry |
| StorageService.SaveQueryKeepsDuplicates | client/src/services/storageService.ts:19-40 | saving the same query twice keeps both entries |
| StorageService.ClearQueries | client/src/services/storageService.ts:42-44 | the history becomes empty and nothing else changes |
| StorageService.SaveScannedQueries | client/src/services/storageService.ts:50-54 | the stored list has no duplicates, holds exactly the given queries in first-occurrence order, is the input itself when that had no duplicates, and nothing else changes |
| Logger.LevelFromString | client/src/logger.ts:223-232 | a name whose upper-case form is a level's name gives that level; anything else gives INFO |
| Logger.LevelNameRoundTrip | client/src/logger.ts:63-73 | reading back a level's own name, in any letter case, gives that level |
| Logger.Indicator | client/src/logger.ts:101-110 | the indicator is always five characters: the level's name padded with spaces |
| Logger.SetLogLevel | client/src/logger.ts:63-79 | the level becomes the parsed one, the duplicate counters stay, and a line is written exactly when the level changed |
| Logger.Log | client/src/logger.ts:112-139 | a message below the level changes nothing; a repeat within 1000 ms increments the count, keeps the last message and time, and writes `[repeated n times]` only when n <= 5 or n is a multiple of 10; any other message resets the count, records message and time, and writes one line |
| Logger.RepeatBurst | client/src/logger.ts:119-124 | a burst of repeats adds its length to the count without touching the last message or time, writing exactly the announced lines |
| Logger.AnnouncedShift | client/src/logger.ts:121 | the announcements of a burst split at its first repeat |
| Logger.FirstFiveAnnounced | client/src/logger.ts:121 | the first five repeats are all announced |
| Logger.ServerLogLevel | client/src/logger.ts:146-156 | a level other than INFO is signalled by the line and is the highest signalled one (ERROR > WARN > DEBUG > TRACE); INFO exactly when nothing is signalled |
| Logger.SkipUntil | client/src/logger.ts:160 | the first position at or after `i` holding the character, or the end |
| Logger.SkipClassName | client/src/logger.ts:160 | the end of the run of `[a-zA-Z0-9.]` characters |
| Logger.LineEnd | client/src/logger.ts:160 | `.` stops at the first line terminator |
| Logger.LevelWordAt | client/src/logger.ts:160 | the level word read is written there; none means no level name starts there |
| Logger.HeadAt | client/src/logger.ts:160 | the time and thread part: a time stamp, and a non-empty thread without `]` |
| Logger.ClassAndMessageAt | client/src/logger.ts:160 | the class name is a non-empty run of `[a-zA-Z0-9.]` and the message holds no line terminator |
| Logger.TailAt | client/src/logger.ts:160 | level, class and message: the level name is written where read |
| Logger.LogLineAt | client/src/logger.ts:160-165 | a match has a time stamp, a non-empty thread without `]`, a non-empty class name, a one-line message and a level named in the line |
| Logger.FirstLogLine | client/src/logger.ts:161 | the first match of the layout, searched from left to right; none means no position matches |
| Logger.NoLogLineStep | client/src/logger.ts:161 | the search moves past a position without a match |
| Logger.ThreadInfo | client/src/logger.ts:169 | a thread name longer than 15 characters is cut to its first 12 plus `...`; shorter ones are kept |
| Logger.JsSubstring | client/src/logger.ts:188 | `substring` swaps reversed bounds |
| Logger.LastIndexOfChar | client/src/logger.ts:187 | the last position of the character |
| Logger.IndexOfChar | client/src/logger.ts:186 | the first position of the character |
| Logger.ParseServerLog | client/src/logger.ts:144-218 | a line in the Hibernate layout is logged once at its own level; a line without braces is logged as it is at its signalled level; there are one or two calls |
| Logger.ShownThreadIsShort | client/src/logger.ts:169-174 | an important line shows its thread cut to at most 15 characters |
| QueryExecutor.ParseNumeral | server/src/main/java/com/querytester/QueryExecutor.java:239 | a string the number pattern `-?\d+(\.\d+)?([Ee][+-]?\d+)?` accepts parses into sign, whole digits, fraction and exponent that render back to exactly that string |
| QueryExecutor.RenderNumeralParses | server/src/main/java/com/querytester/QueryExecutor.java:239 | every well-formed numeral renders to a string the number pattern parses back to the same numeral (the other half of the round trip) |
| QueryExecutor.IntegerValue | server/src/main/java/com/querytester/QueryExecutor.java:241-257 | an integer becomes an `int` exactly when it lies in the 32-bit range, a `long` exactly when it lies in the 64-bit range but not the 32-bit one, and a `BigInteger` otherwise, always with the same value |
| QueryExecutor.NumberValue | server/src/main/java/com/querytester/QueryExecutor.java:239-267 | a numeral without fraction or exponent becomes the integer of its signed digits; one with either becomes a decimal; the result is always a number |
| QueryExecutor.ConvertData | server/src/main/java/com/querytester/QueryExecutor.java:238-297 | a non-text string becomes its number when it matches the number pattern, else a boolean exactly when it is a boolean word (true for true/yes/y/1), else a date only when it has a date shape and parses, else a UUID only for the UUID shape, else stays the same string |
| QueryExecutor.ConvertParameterValue | server/src/main/java/com/querytester/QueryExecutor.java:199-310 | arrays of either kind and collections become lists of their converted items, strings go through the string conversion, every other value (null, numbers, booleans, dates, ...) is returned unchanged |
| QueryExecutor.ConvertedKinds | server/src/main/java/com/querytester/QueryExecutor.java:199-310 | a conversion result is null exactly when the input was null; a string result is the input itself; otherwise it is a list, a JPA standard type or the unchanged input |
| QueryExecutor.StringKinds | server/src/main/java/com/querytester/QueryExecutor.java:224-298 | a string parameter never becomes null; when it stays a string it is the same string, otherwise it is a JPA standard type |
| QueryExecutor.ConvertIdempotent | server/src/main/java/com/querytester/QueryExecutor.java:199-310 | converting a converted value again changes nothing |
| QueryExecutor.IntegerTextConverts | server/src/main/java/com/querytester/QueryExecutor.java:239-257 | the decimal text of any integer converts back to that integer, in the narrowest of int, long and BigInteger that holds it |
| QueryExecutor.OneAndZeroAreIntegers | server/src/main/java/com/querytester/QueryExecutor.java:239-248 | "1" and "0" become the integers 1 and 0: the number branch runs before the boolean branch that also lists them |
| QueryExecutor.BooleanWordsConvert | server/src/main/java/com/querytester/QueryExecutor.java:274-277 | a boolean word other than "1"/"0" escapes the text rule and becomes true exactly for true, yes and y in any letter case |
| QueryExecutor.LetteredDateTimeStaysText | server/src/main/java/com/querytester/QueryExecutor.java:232-236 | an ISO date-time written with the letter `T` contains a letter and is returned as the same string before the date conversion is reached |
| QueryExecutor.IsoDateConverts | server/src/main/java/com/querytester/QueryExecutor.java:279-285 | a `yyyy-MM-dd` string that the date parser accepts becomes that date |
| QueryExecutor.IsoDateNotNumeral | server/src/main/java/com/querytester/QueryExecutor.java:239-277 | a `yyyy-MM-dd` string is neither a number nor a boolean word |
| QueryExecutor.BindOutcome | server/src/main/java/com/querytester/QueryExecutor.java:169-181 | a parameter binds by name exactly when the query contains `:key`; otherwise by position exactly when the key is all digits and fits an int; it fails when the digits overflow; it is skipped when the key is not all digits; bound values are the converted value |
| QueryExecutor.PositionalRoundTrip | server/src/main/java/com/querytester/QueryExecutor.java:174-178 | the decimal text of any position up to the int maximum, when the query does not name it, binds at that very position |
| QueryExecutor.ApplyParameters | server/src/main/java/com/querytester/QueryExecutor.java:161-191 | no parameters bind nothing; otherwise each parameter, in order, gets its own outcome and one failing does not stop the others |
| QueryExecutor.BindAllSplits | server/src/main/java/com/querytester/QueryExecutor.java:167-190 | binding a concatenation of parameter lists is binding each list in turn |
| QueryExecutor.FormatBasicValue | server/src/main/java/com/querytester/QueryExecutor.java:649-669 | the formatted value is always plain (null, string, number or boolean), null exactly for null, unchanged for plain values, and an enum's name for an enum |
| QueryExecutor.FormatIdempotent | server/src/main/java/com/querytester/QueryExecutor.java:649-669 | formatting a formatted value changes nothing |
| QueryExecutor.ColumnNamesDistinct | server/src/main/java/com/querytester/QueryExecutor.java:124 | the column names `Col0`, `Col1`, ... are pairwise distinct |
| QueryExecutor.RowMapKeys | server/src/main/java/com/querytester/QueryExecutor.java:122-125 | a row of n cells becomes a map whose keys are exactly `Col0` .. `Col(n-1)`, so no cell is lost |
| QueryExecutor.RowMapReadBack | server/src/main/java/com/querytester/QueryExecutor.java:122-125 | reading a row map back at `Col0` .. `Col(n-1)` gives the row's formatted cells in their original order |
| QueryExecutor.ConvertNativeResultToMaps | server/src/main/java/com/querytester/QueryExecutor.java:110-143 | null or empty results give no rows; when the first row is an `Object[]` every row becomes its column map, and a later row that is not an `Object[]` (a null or a primitive array included) is a cast failure; otherwise, a primitive array first row included, every value becomes a one-entry `Result` map; the row count is kept |
| QueryExecutor.PrimitiveArrayRowIsScalar | server/src/main/java/com/querytester/QueryExecutor.java:119-136 | a first row that is a primitive array is not an `Object[]`, so it is rendered whole by `toString` under `Result` |
| QueryExecutor.NativeRowsArePlain | server/src/main/java/com/querytester/QueryExecutor.java:110-143 | every value in every native result map is plain |
| QueryExecutor.ValidateInput | server/src/main/java/com/querytester/QueryExecutor.java:145-152 | a query is accepted exactly when it is present and has a character Java's `trim` keeps; a rejected query gets the "Query cannot be null or empty" message |
| QueryExecutor.ExecuteNativeSql | server/src/main/java/com/querytester/QueryExecutor.java:74-108 | a blank query throws before anything runs; otherwise the reply is a success exactly when the statement and the conversion succeed and the commit does not throw; whenever it carries results they are the converted native rows with the elapsed time, under the native success message or, when the commit threw, under `Error executing native SQL: ` and the commit's message; every other failure is an `Error executing native SQL: ...` reply without results, carrying the statement's exception message or, when a row is not an `Object[]`, the cast's |
| QueryExecutor.Commit | server/src/main/java/com/querytester/QueryExecutor.java:53-69 | a commit that succeeds leaves the filled-in reply as it is; one that throws turns it into an error reply that keeps its results and execution time |
| QueryExecutor.CommitFailureKeepsResults | server/src/main/java/com/querytester/QueryExecutor.java:90-106 | a statement that ran and converted, followed by a failing commit, gives an `ERROR` reply that still carries the rows |
| QueryExecutor.ExecuteJpql | server/src/main/java/com/querytester/QueryExecutor.java:38-71 | a blank query throws before anything runs; otherwise the reply is a success exactly when the query succeeds and the commit does not throw; whenever it carries results they are the entity rows with the elapsed time, under the JPQL success message or, when the commit threw, under `Error executing JPQL: ` and the commit's message; every other failure is an `Error executing JPQL: ...` reply without results, carrying the query's exception message |
| HibernateDialect.FirstFragment | server/src/main/java/com/querytester/HibernateManager.java:169-174 | the first URL fragment, in the fixed order, that the URL contains: every earlier fragment is absent, and none is found only when the URL contains none of them |
| HibernateDialect.GetDialectIsTableLookup | server/src/main/java/com/querytester/HibernateManager.java:164-197 | the chain of `contains` tests agrees, for every URL and version, with a lookup of the first matching fragment in the dialect table of the version's family, a missing URL or fragment giving the family default |
| HibernateDialect.FragmentHit | server/src/main/java/com/querytester/HibernateManager.java:169-174 | the first fragment hit is mysql exactly when the URL contains mysql, mariadb exactly when it contains mariadb but not mysql, and so on down the order |
| HibernateDialect.UnknownUrlGetsDefault | server/src/main/java/com/querytester/HibernateManager.java:165-197 | a missing URL, or one containing none of the fragments, gets the family default, which is the MySQL dialect of that family |
| HibernateDialect.DialectDependsOnFamilyOnly | server/src/main/java/com/querytester/HibernateManager.java:164-188 | two versions that agree on starting with `6` pick the same dialect for every URL |
| HibernateDialect.MySqlWins | server/src/main/java/com/querytester/HibernateManager.java:169-179 | a URL containing `mysql` gets the family's MySQL dialect whatever other fragments it contains |
| HibernateManager.IsSameConfiguration | server/src/main/java/com/querytester/HibernateManager.java:134-149 | the check throws only when the version is null, or when it equals the recorded one and the configuration is null; otherwise it is true exactly when both the version and the dialect of the configured URL equal the recorded ones |
| HibernateManager.Initialize | server/src/main/java/com/querytester/HibernateManager.java:29-129 | an existing factory with the same configuration changes nothing; a throwing check fails before anything is recorded; past that the version is recorded first, even on failure; every failure carries "Hibernate initialization failed"; success leaves a factory |
| HibernateManager.MissingConfigFails | server/src/main/java/com/querytester/HibernateManager.java:43-72 | a null or empty configuration that is not reused fails, and the version it carried stays recorded |
| HibernateManager.EmptyConfigReusesDefault | server/src/main/java/com/querytester/HibernateManager.java:32-149 | an empty configuration with the recorded version is reused when the recorded dialect is the default: the reuse check runs before the empty-configuration check |
| HibernateManager.RepeatIsNoop | server/src/main/java/com/querytester/HibernateManager.java:29-35 | after a successful initialisation, the same configuration and version again leave the state unchanged and succeed, whether or not a build would succeed |
| HibernateManager.NewVersionRebuilds | server/src/main/java/com/querytester/HibernateManager.java:36-129 | a new version with a non-empty configuration records the version and the URL's dialect and then has a factory exactly when the build succeeds |
| Server.FieldSet | server/src/main/java/com/querytester/Server.java:124-126 | the field set is absent exactly when the field list is, and otherwise holds exactly the listed names |
| Server.HandleRequest | server/src/main/java/com/querytester/Server.java:103-147 | a missing request, command or query is an invalid request that leaves Hibernate alone; an unknown command is reported by name; `executeQuery` always initialises; a success implies `executeQuery` and a successful initialisation; after a successful initialisation the reply is that of the native executor when `isNative` is set and of the JPQL executor (with the requested fields as a set) otherwise, an exception becoming `Error executing command: ...` |
| Server.ReplyShape | server/src/main/java/com/querytester/Server.java:103-147 | every reply is `SUCCESS` or `ERROR`; a success carries results, and an error carries results only when the transaction's commit threw |
| Server.InitFailureReported | server/src/main/java/com/querytester/Server.java:115-145 | a failed initialisation gives `Error executing command: Hibernate initialization failed` |
| Server.ExactlyOneExecutor | server/src/main/java/com/querytester/Server.java:129-135 | the reply is the selected executor's and does not depend on what the other executor would do |
| Server.BlankQueryFails | server/src/main/java/com/querytester/Server.java:129-145 | a blank query is reported as a command error, and after a successful initialisation the message is the executor's empty-query message |
| Server.RepeatedRequestReusesFactory | server/src/main/java/com/querytester/Server.java:115-121 | a second identical `executeQuery` request after a successful one leaves the Hibernate state as it was |
| QueryResult.Failure | server/src/main/java/com/querytester/QueryExecutor.java:671-675 | an error reply is a fresh reply with status `ERROR`, no results, and the message `prefix: ` followed by the cause |
| QueryResult.HandleError | server/src/main/java/com/querytester/QueryExecutor.java:671-675 | the status becomes `ERROR` and the message `prefix: message`; results and execution time stay as they were |

## Left out

- Sockets, the thread pool, JSON (de)serialisation, spawning the Java process (`activate`/`deactivate`) and the socket client are I/O and are not modelled. The server receives a parsed request.
- The entity scan, `EntityScanner` and the request's `entityLibPath`, `entityPackages` and `projectScan` fields only reach the entity scan, so they are not modelled.
- The registry and session-factory build, its lock and the closing of the old factory are reduced to the `builds` parameter of `HibernateManager.Initialize`.
- Hibernate sessions, transactions, the 30-second timeout, `convertToMaps`, entity reflection, proxies and their caches are not modelled. The executor's session is a parameter that yields rows or fails.
- `tryParseDateTime` is a parameter. Parsing `Double` and `BigDecimal` values is not modelled: a numeral with a fraction or an exponent becomes a decimal tag. Date rendering in `formatBasicValue` is a parameter.
- The line-by-line layout of `formatQuery`/`_formatQuery` and of the test harness's `prettifyQuery` is a parameter. Only the pre-processing and the empty case are modelled.
- Case mapping is ASCII only. JavaScript's `toUpperCase` of non-ASCII characters (for example U+0131 or U+017F) is not modelled.
- The logger's output channel is the list of written lines. Its header, `Date.now`, the time-of-day formatting and the configuration listener are not modelled.
- The configuration and telemetry services, the webview content provider, the sidebar provider's message routing, and the DOM and UI code of client/media/main.js and client/src/sidebar.ts are not modelled.
- QueryUtils.ProcessExtractedQuery: for native queries the `to_char`/date-literal repair is transcribed, and the model proves only that it leaves alone a query with nothing to repair (`QueryUtils.NativeRepairLeavesPlainQueries`). That a repaired query gains its closing quotes is not stated.
- QueryUtils.DetermineIfNative: the classifications of the JOIN FETCH, MEMBER OF, IS EMPTY and NEW example queries are not proved. Scoring those concrete long literals is beyond what the verifier settles quickly. The general score properties (`QueryUtils.TiesAreNative`, `QueryUtils.NativeHitsNeverFlipToJpql`, `QueryUtils.ScoresBounded`) are proved.
- Logger.ParseServerLog: when a line does not match the log-line pattern but holds braces, the outcome depends on the JSON-parse parameter. The contract only bounds it to one or two calls.
- TestHarness.PrettifyQuery: only the empty case and the whitespace collapse before the layout pass are stated.
- QueryService.PreparePlainQuery: states the pre-processing only for a query that has no outer quote and no `+`. The general quote and joint stripping is covered by `QueryService.Unquote`, `QueryService.ReplaceJoints` and `QueryService.ReplaceJointsRemovesPlus`.
- Logger.ThreadInfo: strings are sequences of Unicode characters. The source's lengths and slices count UTF-16 code units, so the `> 15` test and the 12-unit cut differ for thread names outside the Basic Multilingual Plane.
- Logger.ParseServerLog: the `< 80` length test likewise counts characters, not UTF-16 code units.
- QueryExecutor.ValidateInput: Java's `trim` and blank test are modelled on characters, not UTF-16 code units. The two agree, since every character `trim` removes is a single unit.
- TestHarness.Verdict: the confidence is an exact `real` share. The source divides in floating point, so the stored value may differ in its last bits, though the native verdict does not depend on it.
- TestHarness.DetectQueryType: inherits the exact-share confidence of `TestHarness.Verdict`.
- QueryExecutor.Commit: a rollback that itself throws, and a `close` of the session that throws after the commit, are not modelled.
- QueryService.FormatResults: keys are looked up as own properties only. In JavaScript `item[key]` also finds names inherited from `Object.prototype` (`constructor`, `toString`, `valueOf`, `hasOwnProperty`, ...), so a row lacking such a column gets the inherited value, not `null`; and a column named `__proto__` never becomes an own key of the row. Neither is modelled, so the contract's null-for-absent rule and its exact column keys hold only for other column names.
