/** The document scan of the sidebar view (`_scanQueries` in client/src/sidebar.ts). Unlike
    the scanner of `QueryUtils`, its patterns stop at the opening quote, and the query is read
    from the start of the match up to a statement end marker by concatenating every quoted
    literal in between. */
module Sidebar {
  import opened Wrappers
  import opened Text
  import opened Seqs
  import QueryUtils
  import Extension

  // ---------------------------------------------------------------------------------------
  // Start patterns

  /** The match ends just after an opening quote. */
  predicate QuoteEnded(s: string, e: nat) {
    0 < e <= |s| && IsQuote(s[e - 1])
  }

  /** `String\s+(sql\w*|jpql|hql|consulta\w*)\s*=\s*["']` at `p`: where the match ends. The
      alternatives start with different letters and `\w*` cannot give back a character that
      `\s*=` would accept, so there is never more than one way to match. */
  function DeclarationAt(s: string, p: nat): (r: Option<nat>)
    requires p <= |s|
    ensures r.Some? ==> p < r.value <= |s| && StartsAt(s, p, "String") && QuoteEnded(s, r.value)
  {
    if !StartsAt(s, p, "String") then None
    else
      var b := SkipSpaces(s, p + 6);
      if b == p + 6 then None
      else match QueryUtils.DeclNameEnd(s, b)
        case None => None
        case Some(nameEnd) => QuoteAssignedAt(s, nameEnd)
  }

  /** `\s*=\s*["']` at `p`: where the opening quote ends. */
  function QuoteAssignedAt(s: string, p: nat): (r: Option<nat>)
    requires p <= |s|
    ensures r.Some? ==> p < r.value <= |s| && QuoteEnded(s, r.value)
  {
    var c := SkipSpaces(s, p);
    if c == |s| || s[c] != '=' then None
    else
      var d := SkipSpaces(s, c + 1);
      if d == |s| || !IsQuote(s[d]) then None else Some(d + 1)
  }

  /** `(?:entityManager|em|session)` matches at `p`. */
  predicate ReceiverAt(s: string, p: nat) {
    StartsAt(s, p, "entityManager") || StartsAt(s, p, "em") || StartsAt(s, p, "session")
  }

  /** The end of the receiver at `p`; the three names differ in their first two letters, so at
      most one applies. */
  function ReceiverEnd(s: string, p: nat): (r: Option<nat>)
    requires p <= |s|
    ensures r.Some? <==> ReceiverAt(s, p)
    ensures r.Some? ==> p < r.value <= |s|
  {
    if StartsAt(s, p, "entityManager") then Some(p + 13)
    else if StartsAt(s, p, "em") then Some(p + 2)
    else if StartsAt(s, p, "session") then Some(p + 7)
    else None
  }

  lemma StartsAtConcat(s: string, p: nat, u: string, w: string)
    requires StartsAt(s, p, u) && StartsAt(s, p + |u|, w)
    ensures StartsAt(s, p, u + w)
  {
    assert s[p..p + |u + w|] == s[p..p + |u|] + s[p + |u|..p + |u| + |w|];
  }

  /** `(?:entityManager|em|session)\.create(?:Native)?Query\s*\(\s*["']` at `p`. When `Native`
      is present but `Query` does not follow it, dropping the optional group leaves `Native`
      where `Query` is required, so no backtracking helps. */
  function CreateCallAt(s: string, p: nat): (r: Option<nat>)
    requires p <= |s|
    ensures r.Some? ==> p < r.value <= |s| && QuoteEnded(s, r.value)
    ensures r.Some? ==>
      StartsAt(s, p, "entityManager.create") || StartsAt(s, p, "em.create") || StartsAt(s, p, "session.create")
  {
    match ReceiverEnd(s, p)
    case None => None
    case Some(a) =>
      if !StartsAt(s, a, ".create") then None
      else
        var b :=
          if StartsAt(s, a + 7, "NativeQuery") then Some(a + 18)
          else if StartsAt(s, a + 7, "Query") then Some(a + 12)
          else None;
        match b
        case None => None
        case Some(b) =>
          var c := SkipSpaces(s, b);
          if c == |s| || s[c] != '(' then None
          else
            var d := SkipSpaces(s, c + 1);
            if d == |s| || !IsQuote(s[d]) then None
            else
              ReceiverDotCreate(s, p, a);
              Some(d + 1)
  }

  lemma ReceiverDotCreate(s: string, p: nat, a: nat)
    requires p <= |s| && ReceiverEnd(s, p) == Some(a) && StartsAt(s, a, ".create")
    ensures StartsAt(s, p, "entityManager.create") || StartsAt(s, p, "em.create") || StartsAt(s, p, "session.create")
  {
    if StartsAt(s, p, "entityManager") {
      StartsAtJoin(s, p, "entityManager", ".create", "entityManager.create");
    } else if StartsAt(s, p, "em") {
      StartsAtJoin(s, p, "em", ".create", "em.create");
    } else {
      StartsAtJoin(s, p, "session", ".create", "session.create");
    }
  }

  /** `StartsAtConcat` with the joined word given as a literal. */
  lemma StartsAtJoin(s: string, p: nat, u: string, w: string, uw: string)
    requires StartsAt(s, p, u) && StartsAt(s, p + |u|, w) && uw == u + w
    ensures StartsAt(s, p, uw)
  {
    StartsAtConcat(s, p, u, w);
  }

  /** The receiver restriction cuts both ways: `em.createQuery("` is recognised, while the same
      call on any other receiver, such as `repo.createQuery("`, is not recognised at the
      receiver's position. */
  lemma CreateCallOnEm(s: string, p: nat)
    requires StartsAt(s, p, "em.createQuery(\"")
    ensures CreateCallAt(s, p) == Some(p + 16)
  {
    EmCreateQueryParts(s, p);
    CharBlocksWord(s, p, "entityManager", 1);
    assert ReceiverEnd(s, p) == Some(p + 2);
    CharBlocksWord(s, p + 9, "NativeQuery", 0);
    CreateCallTail(s, p, p + 2);
  }

  /** The pieces of `em.createQuery("` that `CreateCallAt` reads one by one. */
  lemma EmCreateQueryParts(s: string, p: nat)
    requires StartsAt(s, p, "em.createQuery(\"")
    ensures p + 16 <= |s| && StartsAt(s, p, "em") && StartsAt(s, p + 2, ".create") && StartsAt(s, p + 9, "Query")
    ensures s[p + 1] == 'm' && s[p + 9] == 'Q' && s[p + 14] == '(' && s[p + 15] == '"'
  {
    assert "em.createQuery(\"" == "em" + (".create" + ("Query" + "(\""));
    StartsAtSplit(s, p, "em", ".create" + ("Query" + "(\""));
    StartsAtSplit(s, p + 2, ".create", "Query" + "(\"");
    StartsAtSplit(s, p + 9, "Query", "(\"");
    assert s[p + 1] == s[p..p + 2][1];
    assert s[p + 9] == s[p + 9..p + 14][0];
    assert s[p + 14] == s[p + 14..p + 16][0];
    assert s[p + 15] == s[p + 14..p + 16][1];
  }

  /** Once the receiver and `.create…Query` are read up to `b`, a bracket and a quote right
      there end the match. */
  lemma CreateCallTail(s: string, p: nat, a: nat)
    requires p <= |s| && a + 14 <= |s| && s[a + 12] == '(' && IsQuote(s[a + 13])
    requires ReceiverEnd(s, p) == Some(a) && StartsAt(s, a, ".create")
    requires !StartsAt(s, a + 7, "NativeQuery") && StartsAt(s, a + 7, "Query")
    ensures CreateCallAt(s, p) == Some(a + 14)
  {
    assert SkipSpaces(s, a + 12) == a + 12;
    assert SkipSpaces(s, a + 13) == a + 13;
  }

  /** One differing character rules a word out. */
  lemma CharBlocksWord(s: string, p: nat, w: string, i: nat)
    requires i < |w| && p + i < |s| && s[p + i] != w[i]
    ensures !StartsAt(s, p, w)
  {
    if p + |w| <= |s| {
      assert s[p..p + |w|][i] == s[p + i];
    }
  }

  lemma StartsAtSplit(s: string, p: nat, u: string, w: string)
    requires StartsAt(s, p, u + w)
    ensures StartsAt(s, p, u) && StartsAt(s, p + |u|, w)
  {
    assert s[p..p + |u|] == s[p..p + |u + w|][..|u|];
    assert s[p + |u|..p + |u| + |w|] == s[p..p + |u + w|][|u|..];
  }

  /** `nativeQuery\s*=\s*(?:true|false)\s*,\s*` at `c`: where the optional group ends. */
  function NativeFlagEnd(s: string, c: nat): (r: Option<nat>)
    requires c <= |s|
    ensures r.Some? ==> c < r.value <= |s| && StartsAt(s, c, "nativeQuery")
  {
    if !StartsAt(s, c, "nativeQuery") then None
    else
      var h := SkipSpaces(s, c + 11);
      if h == |s| || s[h] != '=' then None
      else
        var k := SkipSpaces(s, h + 1);
        var v := if StartsAt(s, k, "true") then Some(k + 4)
                 else if StartsAt(s, k, "false") then Some(k + 5)
                 else None;
        match v
        case None => None
        case Some(v) =>
          var n := SkipSpaces(s, v);
          if n == |s| || s[n] != ',' then None else Some(SkipSpaces(s, n + 1))
  }

  /** `value\s*=\s*` at `g`: where the optional group ends. */
  function ValueEnd(s: string, g: nat): (r: Option<nat>)
    requires g <= |s|
    ensures r.Some? ==> g < r.value <= |s| && StartsAt(s, g, "value")
  {
    if !StartsAt(s, g, "value") then None
    else
      var h := SkipSpaces(s, g + 5);
      if h == |s| || s[h] != '=' then None else Some(SkipSpaces(s, h + 1))
  }

  /** `@(?:Named)?Query\s*\(\s*(?:nativeQuery…,\s*)?(?:value\s*=\s*)?["']` at `p`. Both optional
      groups begin with a letter and the pattern continues with a quote, so skipping a group
      that matched can never let the rest match. */
  function AnnotationAt(s: string, p: nat): (r: Option<nat>)
    requires p <= |s|
    ensures r.Some? ==> p < r.value <= |s| && QuoteEnded(s, r.value)
    ensures r.Some? ==> AnnotationName(s, p)
  {
    match AnnotationNameEnd(s, p)
    case None => None
    case Some(a) =>
      var b := SkipSpaces(s, a);
      if b == |s| || s[b] != '(' then None
      else AnnotationArgsAt(s, b + 1)
  }

  /** `@NamedQuery` or `@Query` at `p`. */
  predicate AnnotationName(s: string, p: nat) {
    StartsAt(s, p, "@NamedQuery") || StartsAt(s, p, "@Query")
  }

  /** `@(?:Named)?Query` at `p`: where the annotation's name ends. */
  function AnnotationNameEnd(s: string, p: nat): (r: Option<nat>)
    requires p <= |s|
    ensures r.Some? ==> p < r.value <= |s|
    ensures r.Some? ==> AnnotationName(s, p)
  {
    if StartsAt(s, p, "@NamedQuery") then Some(p + 11)
    else if StartsAt(s, p, "@Query") then Some(p + 6)
    else None
  }

  /** `\s*(?:nativeQuery…,\s*)?(?:value\s*=\s*)?["']` at `c`, right after the bracket. */
  function AnnotationArgsAt(s: string, c0: nat): (r: Option<nat>)
    requires c0 <= |s|
    ensures r.Some? ==> c0 < r.value <= |s| && QuoteEnded(s, r.value)
  {
    var c := SkipSpaces(s, c0);
    var g := match NativeFlagEnd(s, c) case Some(g) => g case None => c;
    var v := match ValueEnd(s, g) case Some(v) => v case None => g;
    if v == |s| || !IsQuote(s[v]) then None else Some(v + 1)
  }

  /** The three patterns, scanned in this order; each names the marker that ends its
      statement. */
  datatype Site = Declaration | CreateCall | Annotation

  function EndMarker(site: Site): char {
    if site == Declaration then ';' else ')'
  }

  function MatchAt(site: Site, s: string, p: nat): (r: Option<nat>)
    requires p <= |s|
    ensures r.Some? ==> p < r.value <= |s|
  {
    match site
    case Declaration => DeclarationAt(s, p)
    case CreateCall => CreateCallAt(s, p)
    case Annotation => AnnotationAt(s, p)
  }

  function MatchTable(site: Site, s: string): (table: seq<Option<QueryUtils.Hit>>)
    ensures |table| == |s| && QueryUtils.ValidTable(table)
    ensures forall p :: 0 <= p < |s| ==> (table[p].Some? <==> MatchAt(site, s, p).Some?)
    ensures forall p :: 0 <= p < |s| && table[p].Some? ==> table[p].value.end == MatchAt(site, s, p).value
  {
    seq(|s|, p requires 0 <= p < |s| =>
      match MatchAt(site, s, p)
      case None => None
      case Some(e) => Some(QueryUtils.Hit(p, e, s[p..e], false)))
  }

  /** `match.index` of every iteration of the `exec` loop over the whole text. */
  function MatchStarts(site: Site, s: string): (starts: seq<nat>)
    ensures forall i :: 0 <= i < |starts| ==> starts[i] < |s| && MatchAt(site, s, starts[i]).Some?
    ensures forall i, j :: 0 <= i < j < |starts| ==> starts[i] < starts[j]
  {
    var table := MatchTable(site, s);
    var hits := QueryUtils.ExecLoop(table, 0);
    seq(|hits|, i requires 0 <= i < |hits| => hits[i].start)
  }

  /** Every start found is the start of a match, and no match starts before the first start
      found or between a match and the next start found. */
  lemma MatchStartsAreLeftmost(site: Site, s: string)
    ensures var table := MatchTable(site, s);
      var hits := QueryUtils.ExecLoop(table, 0);
      && (forall p :: 0 <= p < |s| && (hits == [] || p < hits[0].start) ==> MatchAt(site, s, p).None?)
      && (forall i, p :: 0 <= i < |hits| && hits[i].end <= p < QueryUtils.GapEnd(hits, i, |s|) ==>
            MatchAt(site, s, p).None?)
  {
    var table := MatchTable(site, s);
    QueryUtils.ExecLoopStartsLeftmost(table, 0);
    QueryUtils.ExecLoopSkipsNothing(table, 0);
  }

  // ---------------------------------------------------------------------------------------
  // extractFullQuery

  /** `extractFullQuery(text, startIndex, endMarker)`: the block ends at the first end marker
      after the start, or failing that at the first `}`; without either there is no query.
      The query is every `["']([^"']+)["']` literal of the block, concatenated and trimmed. */
  function ExtractFullQuery(text: string, start: nat, marker: char): (r: Option<string>)
    requires start <= |text|
    ensures r.None? <==> IndexOf(text, [marker], start).None? && IndexOf(text, "}", start).None?
    ensures r.Some? ==> forall k :: 0 <= k < |r.value| ==> !IsQuote(r.value[k])
    ensures r.Some? ==> r.value == [] || (!IsSpace(r.value[0]) && !IsSpace(r.value[|r.value| - 1]))
  {
    var endIndex := match IndexOf(text, [marker], start)
      case Some(e) => Some(e)
      case None => IndexOf(text, "}", start);
    match endIndex
    case None => None
    case Some(e) =>
      var q := Trim(Extension.QuotedSegments(text[start..e], 0));
      Extension.TrimKeepsQuoteFree(Extension.QuotedSegments(text[start..e], 0));
      TrimEnds(Extension.QuotedSegments(text[start..e], 0));
      Some(q)
  }

  lemma ExtractAtMarker(text: string, start: nat, marker: char, e: nat)
    requires start <= |text| && IndexOf(text, [marker], start) == Some(e)
    ensures ExtractFullQuery(text, start, marker) == Some(Trim(Extension.QuotedSegments(text[start..e], 0)))
  {}

  /** A statement holding one literal, with no other quote before its end marker, yields that
      literal trimmed. */
  lemma ExtractOneLiteral(text: string, start: nat, marker: char, p: nat, k: nat, e: nat)
    requires start <= p && p + 1 < k < e <= |text|
    requires IsQuote(text[p]) && IsQuote(text[k])
    requires forall m :: start <= m < e && m != p && m != k ==> !IsQuote(text[m])
    requires IndexOf(text, [marker], start) == Some(e)
    ensures ExtractFullQuery(text, start, marker) == Some(Trim(text[p + 1..k]))
  {
    var block := text[start..e];
    var q := Extension.QuotedSegments(block, 0);
    assert q == text[p + 1..k] by {
      BlockQuotes(text, start, e, p, k);
      Extension.OneLiteralSegment(block, p - start, k - start);
      SliceOfSlice(text, start, e, p - start + 1, k - start);
    }
    ExtractAtMarker(text, start, marker, e);
  }

  lemma SliceOfSlice(text: string, start: nat, e: nat, i: nat, j: nat)
    requires start <= e <= |text| && i <= j <= e - start
    ensures text[start..e][i..j] == text[start + i..start + j]
  {
    var a, b := text[start..e][i..j], text[start + i..start + j];
    forall m | 0 <= m < |a| ensures a[m] == b[m] {
      assert a[m] == text[start..e][i + m];
    }
  }

  lemma BlockQuotes(text: string, start: nat, e: nat, p: nat, k: nat)
    requires start <= p < k < e <= |text|
    requires IsQuote(text[p]) && IsQuote(text[k])
    requires forall m :: start <= m < e && m != p && m != k ==> !IsQuote(text[m])
    ensures var block := text[start..e];
      && IsQuote(block[p - start]) && IsQuote(block[k - start])
      && forall m :: 0 <= m < |block| && m != p - start && m != k - start ==> !IsQuote(block[m])
  {
    var block := text[start..e];
    forall m | 0 <= m < |block| && m != p - start && m != k - start
      ensures !IsQuote(block[m])
    {
      assert block[m] == text[start + m];
    }
  }

  // ---------------------------------------------------------------------------------------
  // _scanQueries

  /** What one site kind contributes: the extracted query of every match, in order. */
  function SiteQueries(site: Site, s: string): (qs: seq<Option<string>>)
    ensures |qs| == |MatchStarts(site, s)|
  {
    var starts := MatchStarts(site, s);
    seq(|starts|, i requires 0 <= i < |starts| => ExtractFullQuery(s, starts[i], EndMarker(site)))
  }

  /** The extracted queries that pass the `query &&` test. */
  function Present(qs: seq<Option<string>>): (r: seq<string>)
    ensures forall x :: x in r <==> Some(x) in qs && x != []
    decreases |qs|
  {
    if qs == [] then []
    else
      var rest := Present(qs[1..]);
      assert forall o :: o in qs <==> o == qs[0] || o in qs[1..];
      if qs[0].Some? && qs[0].value != [] then [qs[0].value] + rest else rest
  }

  /** Every query the three loops push into `queries`: a query is pushed when it is present and
      not yet in the list, which keeps the first occurrence of each. */
  function Pushed(text: string): seq<string> {
    Dedupe(Present(SiteQueries(Declaration, text) + SiteQueries(CreateCall, text)
                   + SiteQueries(Annotation, text)))
  }

  function MapFormat(qs: seq<string>): (r: seq<string>)
    ensures |r| == |qs| && forall i :: 0 <= i < |qs| ==> r[i] == QueryUtils.FormatQueryScan(qs[i])
  {
    seq(|qs|, i requires 0 <= i < |qs| => QueryUtils.FormatQueryScan(qs[i]))
  }

  function NonEmpty(qs: seq<string>): (r: seq<string>)
    ensures forall x :: x in r <==> x in qs && x != []
    decreases |qs|
  {
    if qs == [] then []
    else
      var rest := NonEmpty(qs[1..]);
      assert forall x :: x in qs <==> x == qs[0] || x in qs[1..];
      if qs[0] != [] then [qs[0]] + rest else rest
  }

  /** The cleaned, de-duplicated list `_scanQueries` reports. */
  function CleanQueries(pushed: seq<string>): seq<string> {
    Dedupe(NonEmpty(MapFormat(pushed)))
  }

  /** Every reported entry is non-empty and in scan normal form. */
  lemma CleanQueriesNormal(pushed: seq<string>)
    ensures var r := CleanQueries(pushed);
      forall i :: 0 <= i < |r| ==> r[i] != [] && Collapsed(r[i]) && QueryUtils.FormatQueryScan(r[i]) == r[i]
  {
    var m := MapFormat(pushed);
    var r := CleanQueries(pushed);
    DedupeSpec(NonEmpty(m));
    forall i | 0 <= i < |r| ensures r[i] != [] && Collapsed(r[i]) && QueryUtils.FormatQueryScan(r[i]) == r[i] {
      assert r[i] in NonEmpty(m);
      var j :| 0 <= j < |m| && m[j] == r[i];
      QueryUtils.FormatQueryScanSpec(pushed[j]);
    }
  }

  /** The reported list holds each value once, and a value is reported exactly when it is the
      non-empty normal form of a pushed query. */
  lemma CleanQueriesMembers(pushed: seq<string>)
    ensures NoDups(CleanQueries(pushed))
    ensures forall x :: x in CleanQueries(pushed) <==>
      x != [] && exists j :: 0 <= j < |pushed| && QueryUtils.FormatQueryScan(pushed[j]) == x
  {
    CleanQueriesOfFormatted(pushed);
    MapFormatMembers(pushed);
  }

  /** The reported entries are the distinct non-empty normal forms. */
  lemma CleanQueriesOfFormatted(pushed: seq<string>)
    ensures NoDups(CleanQueries(pushed))
    ensures forall x :: x in CleanQueries(pushed) <==> x != [] && x in MapFormat(pushed)
  {
    DedupeSpec(NonEmpty(MapFormat(pushed)));
  }

  lemma MapFormatMembers(pushed: seq<string>)
    ensures forall x :: x in MapFormat(pushed) <==>
      exists j :: 0 <= j < |pushed| && QueryUtils.FormatQueryScan(pushed[j]) == x
  {
    var m := MapFormat(pushed);
    forall x | x in m ensures exists j :: 0 <= j < |pushed| && QueryUtils.FormatQueryScan(pushed[j]) == x {
      var j :| 0 <= j < |m| && m[j] == x;
    }
    forall j | 0 <= j < |pushed| ensures QueryUtils.FormatQueryScan(pushed[j]) in m {
      assert m[j] == QueryUtils.FormatQueryScan(pushed[j]);
    }
  }

  /** The message posted back to the view. `queries` is empty when the source sends none. */
  datatype ScanResult = ScanResult(success: bool, queries: seq<string>, message: string)

  /** `_scanQueries` on the active editor's text (`None` without an editor): the message, and
      the list handed to `saveScannedQueries` when one is saved. */
  function ScanDocument(editorText: Option<string>): (r: (ScanResult, Option<seq<string>>))
    ensures editorText.None? ==> r.0 == ScanResult(false, [], "No active editor to scan queries.") && r.1.None?
    ensures editorText.Some? ==> (r.0.success <==> CleanQueries(Pushed(editorText.value)) != [])
    ensures r.0.success ==> r.0.queries == CleanQueries(Pushed(editorText.value))
    ensures r.0.success <==> r.0.queries != []
    ensures r.0.success <==> r.1 == Some(r.0.queries)
    ensures editorText.Some? && !r.0.success ==> r.0.message == "No queries found in the document."
    ensures r.0.success ==>
      r.0.message == "Found " + NatToString(|r.0.queries|) + " queries in the document."
  {
    match editorText
    case None => (ScanResult(false, [], "No active editor to scan queries."), None)
    case Some(text) =>
      var unique := CleanQueries(Pushed(text));
      if |unique| > 0 then
        (ScanResult(true, unique, "Found " + NatToString(|unique|) + " queries in the document."), Some(unique))
      else (ScanResult(false, [], "No queries found in the document."), None)
  }

  /** The cleaned list is empty exactly when no pushed query has a non-empty normal form. */
  lemma CleanQueriesEmptyIff(pushed: seq<string>)
    ensures CleanQueries(pushed) != [] <==>
      exists j :: 0 <= j < |pushed| && QueryUtils.FormatQueryScan(pushed[j]) != []
  {
    CleanQueriesMembers(pushed);
    var r := CleanQueries(pushed);
    if exists j :: 0 <= j < |pushed| && QueryUtils.FormatQueryScan(pushed[j]) != [] {
      var j :| 0 <= j < |pushed| && QueryUtils.FormatQueryScan(pushed[j]) != [];
      assert QueryUtils.FormatQueryScan(pushed[j]) in r;
    }
    if r != [] {
      assert r[0] in r;
    }
  }

  /** A present query with no quote character in it: what every pushed query is. */
  predicate CleanQuery(q: string) {
    q != [] && forall k :: 0 <= k < |q| ==> !IsQuote(q[k])
  }

  predicate AllClean(qs: seq<Option<string>>) {
    forall j :: 0 <= j < |qs| && qs[j].Some? && qs[j].value != [] ==> CleanQuery(qs[j].value)
  }

  lemma SiteQueriesClean(site: Site, text: string)
    ensures AllClean(SiteQueries(site, text))
  {
  }

  lemma AllCleanConcat(a: seq<Option<string>>, b: seq<Option<string>>)
    requires AllClean(a) && AllClean(b)
    ensures AllClean(a + b)
  {
    forall j | 0 <= j < |a + b| && (a + b)[j].Some? && (a + b)[j].value != [] ensures CleanQuery((a + b)[j].value) {
      if j < |a| { assert (a + b)[j] == a[j]; } else { assert (a + b)[j] == b[j - |a|]; }
    }
  }

  lemma PresentClean(qs: seq<Option<string>>)
    requires AllClean(qs)
    ensures forall x :: x in Present(qs) ==> CleanQuery(x)
  {
    forall x | x in Present(qs) ensures CleanQuery(x) {
      var j :| 0 <= j < |qs| && qs[j] == Some(x);
    }
  }

  lemma PushedAreQuoteFree(text: string)
    ensures forall i :: 0 <= i < |Pushed(text)| ==>
      Pushed(text)[i] != [] && forall k :: 0 <= k < |Pushed(text)[i]| ==> !IsQuote(Pushed(text)[i][k])
  {
    var d, c, a := SiteQueries(Declaration, text), SiteQueries(CreateCall, text), SiteQueries(Annotation, text);
    SiteQueriesClean(Declaration, text);
    SiteQueriesClean(CreateCall, text);
    SiteQueriesClean(Annotation, text);
    AllCleanConcat(d, c);
    AllCleanConcat(d + c, a);
    DedupePresentClean(d + c + a);
  }

  lemma DedupePresentClean(qs: seq<Option<string>>)
    requires AllClean(qs)
    ensures forall i :: 0 <= i < |Dedupe(Present(qs))| ==> CleanQuery(Dedupe(Present(qs))[i])
  {
    PresentClean(qs);
    DedupeSpec(Present(qs));
  }
}
