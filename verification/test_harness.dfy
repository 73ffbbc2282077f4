/** The helpers the webview test suite defines for itself (client/test/media/main.test.js): an
    enhanced parameter detector that masks string literals first, a weighted query-type guess
    with a confidence, the empty case of the pretty-printer, and a query linter. */
module TestHarness {
  import opened Wrappers
  import opened Text
  import opened Regex
  import opened Classifier

  // ---------------------------------------------------------------------------------------
  // Literal masking

  /** The end of `q([^q\\]|\\.)*q` whose body starts at `i`. At every step only one
      alternative applies (the closing quote, an escape, or another character), and an
      iteration never starts with the quote, so the match is unique. */
  function LiteralEnd(s: string, i: nat, q: char): (r: Option<nat>)
    requires i <= |s|
    ensures r.Some? ==> i < r.value <= |s| && s[r.value - 1] == q
    decreases |s| - i
  {
    if i == |s| then None
    else if s[i] == q then Some(i + 1)
    else if s[i] == '\\' then
      if i + 1 < |s| && !IsLineTerminator(s[i + 1]) then LiteralEnd(s, i + 2, q) else None
    else LiteralEnd(s, i + 1, q)
  }

  /** The text that replaces the `n`-th masked literal. */
  function Placeholder(n: nat): (r: string)
    ensures ':' !in r && '?' !in r && '\'' !in r && '"' !in r
  {
    var head, digits := "__STRING_LITERAL_", NatToString(n);
    var r := head + digits + "__";
    forall i | 0 <= i < |r| ensures IsDigit(r[i]) || r[i] == '_' || IsLetter(r[i]) {
      if i < |head| {
        assert r[i] == head[i];
      } else if i < |head| + |digits| {
        assert r[i] == digits[i - |head|];
      }
    }
    r
  }

  /** `s.replace(/q([^q\\]|\\.)*q/g, …)` from `p`, numbering the literals from `n`: the masked
      text and the next number. */
  function Mask(s: string, p: nat, q: char, n: nat): (r: (string, nat))
    requires p <= |s|
    ensures n <= r.1
    decreases |s| - p
  {
    if p == |s| then ([], n)
    else if s[p] == q && LiteralEnd(s, p + 1, q).Some? then
      var rest := Mask(s, LiteralEnd(s, p + 1, q).value, q, n + 1);
      (Placeholder(n) + rest.0, rest.1)
    else
      var rest := Mask(s, p + 1, q, n);
      ([s[p]] + rest.0, rest.1)
  }

  /** Single-quoted literals first, then double-quoted ones, with one running counter. */
  function MaskLiterals(query: string): string {
    var single := Mask(query, 0, '\'', 0);
    Mask(single.0, 0, '"', single.1).0
  }

  /** Text without the quote character passes through unchanged. */
  lemma {:induction false} MaskWithoutQuote(s: string, p: nat, q: char, n: nat)
    requires p <= |s| && forall m :: p <= m < |s| ==> s[m] != q
    ensures Mask(s, p, q, n) == (s[p..], n)
    decreases |s| - p
  {
    if p < |s| {
      MaskWithoutQuote(s, p + 1, q, n);
      assert s[p..] == [s[p]] + s[p + 1..];
    }
  }

  /** A quote-free stretch is copied and the masking continues after it. */
  lemma {:induction false} MaskCopiesStretch(s: string, p: nat, k: nat, q: char, n: nat)
    requires p <= k <= |s| && forall m :: p <= m < k ==> s[m] != q
    ensures Mask(s, p, q, n).0 == s[p..k] + Mask(s, k, q, n).0
    ensures Mask(s, p, q, n).1 == Mask(s, k, q, n).1
    decreases k - p
  {
    if p < k {
      MaskCopiesStretch(s, p + 1, k, q, n);
      var rest := Mask(s, p + 1, q, n);
      assert Mask(s, p, q, n) == ([s[p]] + rest.0, rest.1);
      assert s[p..k] == [s[p]] + s[p + 1..k];
      assert [s[p]] + (s[p + 1..k] + Mask(s, k, q, n).0) == s[p..k] + Mask(s, k, q, n).0;
    } else {
      assert s[p..k] == [];
    }
  }

  /** A body without the quote and without a backslash ends at the next quote. */
  lemma {:induction false} LiteralEndPlain(s: string, i: nat, k: nat, q: char)
    requires i <= k < |s| && s[k] == q
    requires forall m :: i <= m < k ==> s[m] != q && s[m] != '\\'
    ensures LiteralEnd(s, i, q) == Some(k + 1)
    decreases k - i
  {
    if i < k {
      LiteralEndPlain(s, i + 1, k, q);
    }
  }

  // ---------------------------------------------------------------------------------------
  // Enhanced detectQueryParams

  /** What one match of `:([a-zA-Z][a-zA-Z0-9_]*)|\?([0-9]+)|(\?)(?![0-9])` captured. */
  datatype Token = Named(name: string) | Numbered(digits: string) | Bare

  function TokenAt(s: string, p: nat): (r: Option<(nat, Token)>)
    requires p <= |s|
    ensures r.Some? ==> p < r.value.0 <= |s|
    ensures r.Some? ==> (s[p] == ':' && r.value.1.Named?) || (s[p] == '?' && !r.value.1.Named?)
    ensures p < |s| && s[p] == '?' ==> r.Some?
    ensures r.Some? && r.value.1.Bare? ==> r.value.0 == p + 1 && (p + 1 == |s| || !IsDigit(s[p + 1]))
    ensures r.Some? && r.value.1.Numbered? ==> forall m :: p < m < r.value.0 ==> IsDigit(s[m])
  {
    if p + 1 < |s| && s[p] == ':' && IsLetter(s[p + 1]) then
      var e := SkipWordChars(s, p + 2);
      Some((e, Named(s[p + 1..e])))
    else if p + 1 < |s| && s[p] == '?' && IsDigit(s[p + 1]) then
      var e := SkipDigits(s, p + 2);
      Some((e, Numbered(s[p + 1..e])))
    else if p < |s| && s[p] == '?' then Some((p + 1, Bare))
    else None
  }

  /** `"param" + n`. */
  function BareName(n: nat): string {
    "param" + NatToString(n)
  }

  /** The `exec` loop: named and numbered parameters are pushed when not yet listed; every bare
      `?` pushes the next `paramN`. */
  function Collect(s: string, p: nat, params: seq<string>, count: nat): (r: seq<string>)
    requires p <= |s|
    ensures |params| <= |r| && r[..|params|] == params
    decreases |s| - p
  {
    if p == |s| then params
    else match TokenAt(s, p)
      case None => Collect(s, p + 1, params, count)
      case Some((e, Named(x))) => Collect(s, e, if x in params then params else params + [x], count)
      case Some((e, Numbered(x))) => Collect(s, e, if x in params then params else params + [x], count)
      case Some((e, Bare)) => Collect(s, e, params + [BareName(count + 1)], count + 1)
  }

  function DetectQueryParams(query: string): seq<string> {
    if query == [] then [] else Collect(MaskLiterals(query), 0, [], 0)
  }

  /** Without `:` or `?` nothing is added. */
  lemma {:induction false} CollectWithoutMarkers(s: string, p: nat, params: seq<string>, count: nat)
    requires p <= |s| && forall m :: p <= m < |s| ==> s[m] != ':' && s[m] != '?'
    ensures Collect(s, p, params, count) == params
    decreases |s| - p
  {
    if p < |s| {
      CollectWithoutMarkers(s, p + 1, params, count);
    }
  }

  /** A `?` inside a single-quoted literal is ignored: with one literal and no other quote, `:`
      or `?` outside it, no parameter is detected, whatever the literal holds. */
  lemma QuestionInLiteralIgnored(s: string, p: nat, k: nat)
    requires p < k < |s| && s[p] == '\'' && s[k] == '\''
    requires forall m :: p < m < k ==> s[m] != '\'' && s[m] != '\\' && s[m] != '"'
    requires forall m :: 0 <= m < |s| && (m < p || k < m) ==>
      s[m] != '\'' && s[m] != '"' && s[m] != ':' && s[m] != '?'
    ensures DetectQueryParams(s) == []
  {
    var masked := s[..p] + Placeholder(0) + s[k + 1..];
    assert Mask(s, 0, '\'', 0) == (masked, 1) by {
      MaskWithoutQuote(s, k + 1, '\'', 1);
      LiteralEndPlain(s, p + 1, k, '\'');
      assert Mask(s, p, '\'', 0) == (Placeholder(0) + s[k + 1..], 1);
      MaskCopiesStretch(s, 0, p, '\'', 0);
      assert s[0..p] == s[..p];
      assert s[..p] + (Placeholder(0) + s[k + 1..]) == masked;
      assert Mask(s, 0, '\'', 0).0 == masked && Mask(s, 0, '\'', 0).1 == 1;
    }
    assert forall c :: c in masked ==> c != '"' && c != ':' && c != '?' by {
      forall c | c in masked ensures c != '"' && c != ':' && c != '?' {
        if c in s[..p] {
          var m :| 0 <= m < p && s[..p][m] == c;
        } else if c in s[k + 1..] {
          var m :| 0 <= m < |s[k + 1..]| && s[k + 1..][m] == c;
          assert s[k + 1 + m] == c;
        }
      }
    }
    assert MaskLiterals(s) == masked by {
      forall m | 0 <= m < |masked| ensures masked[m] != '"' { assert masked[m] in masked; }
      MaskWithoutQuote(masked, 0, '"', 1);
    }
    forall m | 0 <= m < |masked| ensures masked[m] != ':' && masked[m] != '?' {
      assert masked[m] in masked;
    }
    CollectWithoutMarkers(masked, 0, [], 0);
  }

  /** `paramN` for `N` from `from + 1` to `from + k`. */
  function BareNames(from: nat, k: nat): (r: seq<string>)
    ensures |r| == k && forall i :: 0 <= i < k ==> r[i] == BareName(from + i + 1)
    decreases k
  {
    if k == 0 then [] else [BareName(from + 1)] + BareNames(from + 1, k - 1)
  }

  /** Bare placeholders are numbered `param1`, `param2`, … in order. */
  lemma {:induction false} BarePlaceholdersNumbered(s: string, p: nat, params: seq<string>, count: nat)
    requires p <= |s|
    requires forall m :: p <= m < |s| ==> s[m] != ':' && (s[m] == '?' ==> m + 1 == |s| || !IsDigit(s[m + 1]))
    ensures Collect(s, p, params, count) == params + BareNames(count, CountChar(s[p..], '?'))
    decreases |s| - p
  {
    if p < |s| {
      if s[p] == '?' {
        BarePlaceholdersNumbered(s, p + 1, params + [BareName(count + 1)], count + 1);
        BareStepNumbered(s, p, params, count);
      } else {
        BarePlaceholdersNumbered(s, p + 1, params, count);
        PlainStepNumbered(s, p, params, count);
      }
    }
  }

  lemma BareStepNumbered(s: string, p: nat, params: seq<string>, count: nat)
    requires p < |s| && s[p] == '?' && (p + 1 == |s| || !IsDigit(s[p + 1]))
    requires var more := params + [BareName(count + 1)];
      Collect(s, p + 1, more, count + 1) == more + BareNames(count + 1, CountChar(s[p + 1..], '?'))
    ensures Collect(s, p, params, count) == params + BareNames(count, CountChar(s[p..], '?'))
  {
    var k := CountChar(s[p + 1..], '?');
    CountCharStep(s, p, '?');
    CollectBareStep(s, p, params, count);
    assert BareNames(count, k + 1) == [BareName(count + 1)] + BareNames(count + 1, k);
    ConcatAssoc(params, [BareName(count + 1)], BareNames(count + 1, k));
  }

  lemma ConcatAssoc<T>(a: seq<T>, b: seq<T>, c: seq<T>)
    ensures (a + b) + c == a + (b + c)
  {}

  lemma PlainStepNumbered(s: string, p: nat, params: seq<string>, count: nat)
    requires p < |s| && s[p] != ':' && s[p] != '?'
    requires Collect(s, p + 1, params, count) == params + BareNames(count, CountChar(s[p + 1..], '?'))
    ensures Collect(s, p, params, count) == params + BareNames(count, CountChar(s[p..], '?'))
  {
    CountCharStep(s, p, '?');
    CollectPlainStep(s, p, params, count);
  }

  lemma CountCharStep(s: string, p: nat, c: char)
    requires p < |s|
    ensures CountChar(s[p..], c) == (if s[p] == c then 1 else 0) + CountChar(s[p + 1..], c)
  {
    assert s[p..][1..] == s[p + 1..];
  }

  /** A bare `?` adds the next `paramN`. */
  lemma CollectBareStep(s: string, p: nat, params: seq<string>, count: nat)
    requires p < |s| && s[p] == '?' && (p + 1 == |s| || !IsDigit(s[p + 1]))
    ensures Collect(s, p, params, count) == Collect(s, p + 1, params + [BareName(count + 1)], count + 1)
  {
    assert TokenAt(s, p) == Some((p + 1, Bare));
  }

  /** A character that is neither `:` nor `?` adds nothing. */
  lemma CollectPlainStep(s: string, p: nat, params: seq<string>, count: nat)
    requires p < |s| && s[p] != ':' && s[p] != '?'
    ensures Collect(s, p, params, count) == Collect(s, p + 1, params, count)
  {
    assert TokenAt(s, p) == None;
  }

  /** A query with no quote, no `:` and only bare `?` placeholders lists `param1` … `paramN`,
      one per `?`. */
  lemma BareQueryParams(query: string)
    requires query != []
    requires forall m :: 0 <= m < |query| ==> query[m] != '\'' && query[m] != '"' && query[m] != ':'
    requires forall m :: 0 <= m < |query| && query[m] == '?' ==> m + 1 == |query| || !IsDigit(query[m + 1])
    ensures DetectQueryParams(query) == BareNames(0, CountChar(query, '?'))
  {
    MaskWithoutQuote(query, 0, '\'', 0);
    MaskWithoutQuote(query, 0, '"', 0);
    assert query[0..] == query;
    BarePlaceholdersNumbered(query, 0, [], 0);
  }

  // ---------------------------------------------------------------------------------------
  // detectQueryType

  /** `[a-z0-9_]`, `[a-zA-Z0-9]`, `[a-zA-Z0-9_.]`, `[=!<>]`. */
  const Ident: Class := Union(Range('a', 'z'), Union(Range('0', '9'), Single('_')))
  const Alnum: Class := Union(Range('a', 'z'), Union(Range('A', 'Z'), Range('0', '9')))
  const Dotted: Class := Union(Alnum, Union(Single('_'), Single('.')))
  const Comparison: Class := Union(Single('='), Union(Single('!'), Union(Single('<'), Single('>'))))

  const IdentRun: Re := Plus(Ch(Ident))
  const AnyRun: Re := Star(Ch(NotLineTerminator))

  const NativeSelect: Re :=
    Chain([Lit("SELECT"), Spaces1, AnyRun, Spaces1, Lit("FROM"), Spaces1, IdentRun, Opt(Cat(Spaces1, IdentRun))])
  const InsertInto: Re := Chain([WordBoundary, Lit("INSERT"), Spaces1, Lit("INTO"), Spaces1, IdentRun])
  const UpdateSet: Re := Chain([WordBoundary, Lit("UPDATE"), Spaces1, IdentRun, Spaces1, Lit("SET"), WordBoundary])
  const DeleteFrom: Re := Chain([WordBoundary, Lit("DELETE"), Spaces1, Lit("FROM"), Spaces1, IdentRun])
  const CreateTable: Re := Chain([WordBoundary, Lit("CREATE"), Spaces1, Lit("TABLE"), WordBoundary])
  const AlterTable: Re := Chain([WordBoundary, Lit("ALTER"), Spaces1, Lit("TABLE"), WordBoundary])
  const DropTable: Re := Chain([WordBoundary, Lit("DROP"), Spaces1, Lit("TABLE"), WordBoundary])
  const JoinTable: Re := Chain([WordBoundary, Lit("JOIN"), Spaces1, IdentRun, Opt(Cat(Spaces1, IdentRun))])
  const GroupByColumn: Re :=
    Chain([WordBoundary, Lit("GROUP"), Spaces1, Lit("BY"), Spaces1, IdentRun, Lit("."), IdentRun])
  const OrderByColumn: Re :=
    Chain([WordBoundary, Lit("ORDER"), Spaces1, Lit("BY"), Spaces1, IdentRun, Lit("."), IdentRun])
  const TableColumn: Re := Chain([WordBoundary, IdentRun, Lit("."), IdentRun, WordBoundary])

  const FromEntity: Re :=
    Chain([WordBoundary, Lit("FROM"), Spaces1, Ch(Range('A', 'Z')), Star(Ch(Alnum)), Opt(Cat(Spaces1, Ch(Range('a', 'z'))))])
  const SelectAlias: Re :=
    Chain([WordBoundary, Lit("SELECT"), Spaces1, Ch(Range('a', 'z')), Spaces1, Lit("FROM"), Spaces1, Ch(Range('A', 'Z'))])
  const PathTwo: Re :=
    Chain([WordBoundary, Ch(Range('a', 'z')), Lit("."), Plus(Ch(Alnum)), Lit("."), Plus(Ch(Alnum)), WordBoundary])
  const JoinPath: Re := Chain([WordBoundary, Lit("JOIN"), Spaces1, Ch(Range('a', 'z')), Lit("."), Plus(Ch(Alnum)), WordBoundary])
  const JoinFetch: Re := Chain([WordBoundary, Lit("JOIN"), Spaces1, Lit("FETCH"), WordBoundary])
  const NewConstructor: Re := Chain([WordBoundary, Lit("NEW"), Spaces1, Plus(Ch(Dotted)), Lit("(")])
  const TypeTest: Re :=
    Chain([WordBoundary, Lit("TYPE"), Spaces, Lit("("), Spaces, Ch(Range('a', 'z')), Spaces, Lit(")"), Spaces, Ch(Comparison)])
  const MemberOf: Re := Chain([WordBoundary, Lit("MEMBER"), Spaces1, Lit("OF"), WordBoundary])
  const IsEmpty: Re := Chain([WordBoundary, Lit("IS"), Spaces1, Lit("EMPTY"), WordBoundary])

  /** The native indicators with their weights; every pattern carries the `i` flag. */
  const NativeIndicators: seq<Indicator> := [
    Indicator(Matches(NativeSelect, true), 3),
    Indicator(Matches(InsertInto, true), 5),
    Indicator(Matches(UpdateSet, true), 5),
    Indicator(Matches(DeleteFrom, true), 5),
    Indicator(Matches(CreateTable, true), 5),
    Indicator(Matches(AlterTable, true), 5),
    Indicator(Matches(DropTable, true), 5),
    Indicator(Matches(JoinTable, true), 2),
    Indicator(Matches(GroupByColumn, true), 2),
    Indicator(Matches(OrderByColumn, true), 2),
    Indicator(Matches(TableColumn, true), 1)
  ]

  const JpqlIndicators: seq<Indicator> := [
    Indicator(Matches(FromEntity, true), 3),
    Indicator(Matches(SelectAlias, true), 4),
    Indicator(Matches(PathTwo, true), 2),
    Indicator(Matches(JoinPath, true), 3),
    Indicator(Matches(JoinFetch, true), 5),
    Indicator(Matches(NewConstructor, true), 5),
    Indicator(Matches(TypeTest, true), 5),
    Indicator(Matches(MemberOf, true), 5),
    Indicator(Matches(IsEmpty, true), 5)
  ]

  /** The number of matches of `/:[a-zA-Z][a-zA-Z0-9_]*` + `/g`, counted by the `exec` loop. */
  function NamedCount(s: string, p: nat): nat
    requires p <= |s|
    decreases |s| - p
  {
    if p == |s| then 0
    else if p + 1 < |s| && s[p] == ':' && IsLetter(s[p + 1]) then 1 + NamedCount(s, SkipWordChars(s, p + 2))
    else NamedCount(s, p + 1)
  }

  /** Matches of `/\?[0-9]+/g`. */
  function NumberedCount(s: string, p: nat): nat
    requires p <= |s|
    decreases |s| - p
  {
    if p == |s| then 0
    else if p + 1 < |s| && s[p] == '?' && IsDigit(s[p + 1]) then 1 + NumberedCount(s, SkipDigits(s, p + 2))
    else NumberedCount(s, p + 1)
  }

  /** Matches of `/\?(?![0-9])/g`. */
  function BareCount(s: string, p: nat): nat
    requires p <= |s|
    decreases |s| - p
  {
    if p == |s| then 0
    else if s[p] == '?' && (p + 1 == |s| || !IsDigit(s[p + 1])) then 1 + BareCount(s, p + 1)
    else BareCount(s, p + 1)
  }

  /** Skipping a run of digits skips no `?`. */
  lemma {:induction false} NumberedCountSkipsDigits(s: string, p: nat, e: nat)
    requires p <= e <= |s| && forall m :: p <= m < e ==> IsDigit(s[m])
    ensures NumberedCount(s, p) == NumberedCount(s, e)
    decreases e - p
  {
    if p < e {
      NumberedCountSkipsDigits(s, p + 1, e);
    }
  }

  /** Every `?` is counted exactly once, as numbered or as bare. */
  lemma {:induction false} QuestionMarksSplit(s: string, p: nat)
    requires p <= |s|
    ensures NumberedCount(s, p) + BareCount(s, p) == CountChar(s[p..], '?')
    decreases |s| - p
  {
    if p < |s| {
      QuestionMarksSplit(s, p + 1);
      assert s[p..][1..] == s[p + 1..];
      if p + 1 < |s| && s[p] == '?' && IsDigit(s[p + 1]) {
        NumberedCountSkipsDigits(s, p + 1, SkipDigits(s, p + 2));
      }
    }
  }

  function NativeScore(query: string): nat {
    Score(NativeIndicators, query) + 2 * BareCount(query, 0)
  }

  function JpqlScore(query: string): nat {
    Score(JpqlIndicators, query) + 2 * NamedCount(query, 0) + 2 * NumberedCount(query, 0)
  }

  datatype QueryType = QueryType(isNative: bool, confidence: real)

  /** The verdict of `detectQueryType` for two scores: native when the native score is strictly
      higher, with the native share of the total as the confidence (0 when both are 0). The
      verdict and the confidence agree: native exactly when the share exceeds one half. The share
      is computed exactly here, where the source divides in floating point. */
  function Verdict(n: nat, j: nat): (r: QueryType)
    ensures r.isNative <==> n > j
    ensures 0.0 <= r.confidence <= 1.0
    ensures r.isNative <==> r.confidence > 0.5
    ensures n + j > 0 ==> r.confidence * (n + j) as real == n as real
  {
    var t := n + j;
    if t > 0 then
      ShareBounds(n as real, t as real);
      QueryType(n > j, n as real / t as real)
    else QueryType(false, 0.0)
  }

  lemma ShareBounds(n: real, t: real)
    requires 0.0 <= n <= t && t > 0.0
    ensures 0.0 <= n / t <= 1.0
    ensures n / t > 0.5 <==> 2.0 * n > t
    ensures n / t * t == n
  {
    var c := n / t;
    assert c * t == n;
  }

  /** `detectQueryType`; the share is computed exactly here, where the source divides in
      floating point. */
  function DetectQueryType(query: string): (r: QueryType)
    ensures query == [] ==> r == QueryType(false, 0.0)
    ensures 0.0 <= r.confidence <= 1.0
    ensures query != [] ==> (r.isNative <==> NativeScore(query) > JpqlScore(query))
    ensures r.isNative <==> r.confidence > 0.5
  {
    if query == [] then QueryType(false, 0.0) else Verdict(NativeScore(query), JpqlScore(query))
  }

  /** Each positional parameter, numbered or bare, moves the scores by 2: numbered ones toward
      JPQL and bare ones toward native. */
  lemma ParameterScores(query: string)
    ensures NativeScore(query) >= 2 * BareCount(query, 0)
    ensures JpqlScore(query) >= 2 * NumberedCount(query, 0)
    ensures NumberedCount(query, 0) + BareCount(query, 0) == CountChar(query, '?')
  {
    QuestionMarksSplit(query, 0);
    assert query[0..] == query;
  }

  // ---------------------------------------------------------------------------------------
  // prettifyQuery

  /** What the keyword layout of `prettifyQuery` starts from: `query.trim().replace(/\s+/g, ' ')`. */
  function PrettifyInput(query: string): (r: string)
    ensures Collapsed(r)
  {
    CollapseSpaces(Trim(query))
  }

  /** `prettifyQuery`: `''` for the empty query; otherwise the keyword layout, a parameter here,
      applied to the collapsed text. */
  function PrettifyQuery(query: string, layout: string -> string): (r: string)
    ensures query == [] ==> r == []
    ensures query != [] ==> r == layout(PrettifyInput(query))
  {
    if query == [] then [] else layout(PrettifyInput(query))
  }

  /** Collapsing keeps a last character that is not white space. */
  lemma {:induction false} CollapseKeepsLast(s: string)
    requires s != [] && !IsSpace(s[|s| - 1])
    ensures var r := CollapseSpaces(s); r != [] && !IsSpace(r[|r| - 1])
    decreases |s|
  {
    if IsSpace(s[0]) {
      var k := SkipSpaces(s, 0);
      CollapseKeepsLast(s[k..]);
    } else if |s| > 1 {
      CollapseKeepsLast(s[1..]);
    }
  }

  /** The layout always starts from a trimmed, collapsed text, which is empty only for a blank
      query. */
  lemma PrettifyInputTrimmed(query: string)
    ensures Trim(PrettifyInput(query)) == PrettifyInput(query)
    ensures PrettifyInput(query) == [] <==> AllSpace(query)
  {
    var t := Trim(query);
    var r := CollapseSpaces(t);
    assert r == PrettifyInput(query);
    assert t == [] <==> AllSpace(query) by { TrimEmptyIffBlank(query); }
    assert r == [] <==> t == [];
    if t != [] {
      assert !IsSpace(t[0]) && !IsSpace(t[|t| - 1]) by { TrimEnds(query); }
      assert !IsSpace(r[0]);
      CollapseKeepsLast(t);
      TrimOfTrimmed(r);
    }
  }

  // ---------------------------------------------------------------------------------------
  // validateQuery

  datatype Severity = Error | Warning | Info

  datatype Issue = Issue(severity: Severity, message: string)

  const SelectWord: Re := WholeWord("SELECT")
  const FromWord: Re := WholeWord("FROM")

  /** Line feed, carriage return, or the end of the input. */
  const LineEnd: Re := Alt(Ch(Single('\n')), Alt(Ch(Single('\r')), InputEnd))

  /** `\bWHERE\s*(?:\n|\r|$|\bORDER\b|\bGROUP\b)`. */
  const EmptyWhere: Re :=
    Chain([WordBoundary, Lit("WHERE"), Spaces, Alt(LineEnd, Alt(WholeWord("ORDER"), WholeWord("GROUP")))])

  /** `\bJOIN\b.*?\b(?!ON|USING|FETCH)\b[A-Za-z0-9_]+\s*(?:\n|\r|$|\bWHERE\b)`; whether the
      middle run is lazy does not change whether a match exists. */
  const JoinWithoutOn: Re :=
    Chain([WholeWord("JOIN"), AnyRun, WordBoundary,
      NotFollowedBy(Alt(Lit("ON"), Alt(Lit("USING"), Lit("FETCH")))), WordBoundary,
      Plus(Ch(WordClass)), Spaces, Alt(LineEnd, WholeWord("WHERE"))])

  /** `SELECT\s+\*`. */
  const SelectStar: Re := Chain([Lit("SELECT"), Spaces1, Lit("*")])

  const EmptyQuery: Issue := Issue(Error, "Query is empty")
  const NoFrom: Issue := Issue(Error, "SELECT statement without FROM clause")
  const NoCondition: Issue := Issue(Error, "WHERE clause without conditions")
  const OddSingle: Issue := Issue(Error, "Unbalanced single quotes")
  const OddDouble: Issue := Issue(Error, "Unbalanced double quotes")
  const NoJoinCondition: Issue := Issue(Warning, "JOIN without ON or USING clause")
  const StarSelect: Issue := Issue(Info, "Using SELECT * may return unnecessary columns")

  function ParenIssue(open: nat, close: nat): Issue {
    Issue(Error, "Unbalanced parentheses: " + NatToString(open) + " opening and " + NatToString(close) + " closing")
  }

  /** The checks of `validateQuery` after the blank test. */
  predicate SelectWithoutFrom(query: string) {
    Test(SelectWord, true, query) && !Test(FromWord, true, query)
  }

  datatype Check = Check(failed: bool, issue: Issue)

  /** The issues of the failed checks, in order. */
  function Report(checks: seq<Check>): (r: seq<Issue>)
    ensures |r| <= |checks|
    ensures forall x :: x in r ==> exists i :: 0 <= i < |checks| && checks[i] == Check(true, x)
    decreases |checks|
  {
    if checks == [] then []
    else
      var rest := Report(checks[1..]);
      assert forall i :: 0 <= i < |checks[1..]| ==> checks[1..][i] == checks[i + 1];
      (if checks[0].failed then [checks[0].issue] else []) + rest
  }

  predicate DistinctIssues(checks: seq<Check>) {
    forall i, j :: 0 <= i < j < |checks| ==> checks[i].issue != checks[j].issue
  }

  /** With distinct issues, a check's issue is reported exactly when the check fails. */
  lemma {:induction false} ReportedIffFailed(checks: seq<Check>, i: nat)
    requires i < |checks| && DistinctIssues(checks)
    ensures checks[i].issue in Report(checks) <==> checks[i].failed
    decreases |checks|
  {
    var rest := Report(checks[1..]);
    if i == 0 {
      assert checks[0].issue !in rest by {
        forall x | x in rest ensures x != checks[0].issue {
          var j :| 0 <= j < |checks[1..]| && checks[1..][j] == Check(true, x);
          assert checks[1..][j] == checks[j + 1];
        }
      }
    } else {
      assert DistinctIssues(checks[1..]) by {
        forall a, b | 0 <= a < b < |checks[1..]| ensures checks[1..][a].issue != checks[1..][b].issue {
          assert checks[1..][a] == checks[a + 1] && checks[1..][b] == checks[b + 1];
        }
      }
      ReportedIffFailed(checks[1..], i - 1);
      assert checks[1..][i - 1] == checks[i];
    }
  }

  /** The issues the checks can raise differ from each other and from the empty-query error. */
  lemma ConstantIssuesDistinct()
    ensures NoFrom != NoCondition && NoFrom != OddSingle && NoFrom != OddDouble
    ensures NoFrom != NoJoinCondition && NoFrom != StarSelect
    ensures NoCondition != OddSingle && NoCondition != OddDouble && NoCondition != NoJoinCondition
    ensures NoCondition != StarSelect && OddSingle != OddDouble && OddSingle != NoJoinCondition
    ensures OddSingle != StarSelect && OddDouble != NoJoinCondition && OddDouble != StarSelect
    ensures NoJoinCondition != StarSelect
    ensures EmptyQuery !in {NoFrom, NoCondition, OddSingle, OddDouble, NoJoinCondition, StarSelect}
  {
    assert NoFrom.message[0] == 'S' && NoCondition.message[0] == 'W' && EmptyQuery.message[0] == 'Q';
    assert OddSingle.message[11] == 's' && OddDouble.message[11] == 'd';
  }

  /** The parenthesis issue, whatever its counts, is none of the others. */
  lemma ParenDistinct(open: nat, close: nat)
    ensures ParenIssue(open, close) !in {NoFrom, NoCondition, OddSingle, OddDouble, NoJoinCondition, StarSelect, EmptyQuery}
  {
    var m := ParenIssue(open, close).message;
    assert m[..24] == "Unbalanced parentheses: ";
    assert m[0] == 'U' && m[11] == 'p';
  }

  /** The seven checks in order, from their outcomes and the two parenthesis counts. */
  function ChecksOf(noFrom: bool, emptyWhere: bool, open: nat, close: nat, oddSingle: bool,
                    oddDouble: bool, join: bool, star: bool): (r: seq<Check>)
    ensures |r| == 7 && DistinctIssues(r)
    ensures forall i :: 0 <= i < 7 ==> r[i].issue != EmptyQuery
  {
    ConstantIssuesDistinct();
    ParenDistinct(open, close);
    var r := [ Check(noFrom, NoFrom),
      Check(emptyWhere, NoCondition),
      Check(open != close, ParenIssue(open, close)),
      Check(oddSingle, OddSingle),
      Check(oddDouble, OddDouble),
      Check(join, NoJoinCondition),
      Check(star, StarSelect) ];
    r
  }

  function Checks(query: string): (r: seq<Check>)
    ensures |r| == 7 && DistinctIssues(r)
    ensures forall i :: 0 <= i < 7 ==> r[i].issue != EmptyQuery
  {
    ChecksOf(SelectWithoutFrom(query), Test(EmptyWhere, true, query),
      CountChar(query, '('), CountChar(query, ')'),
      CountChar(query, '\'') % 2 == 1, CountChar(query, '"') % 2 == 1,
      Test(JoinWithoutOn, true, query), Test(SelectStar, true, query))
  }

  /** `validateQuery`: a blank query gets exactly the "empty" error; any other query gets one
      entry per failed check, in the order the checks are written. */
  function ValidateQuery(query: string): (r: seq<Issue>)
    ensures AllSpace(query) ==> r == [EmptyQuery]
    ensures !AllSpace(query) ==> EmptyQuery !in r && |r| <= 7
  {
    TrimEmptyIffBlank(query);
    if Trim(query) == [] then [EmptyQuery] else Report(Checks(query))
  }

  /** Each issue of a query that is not blank is reported exactly when its check fails. */
  lemma ValidateQueryIssues(query: string)
    requires !AllSpace(query)
    ensures forall k :: 0 <= k < 7 ==>
      (Checks(query)[k].issue in ValidateQuery(query) <==> Checks(query)[k].failed)
  {
    var checks := Checks(query);
    assert ValidateQuery(query) == Report(checks) by { TrimEmptyIffBlank(query); }
    forall k | 0 <= k < 7 ensures checks[k].issue in Report(checks) <==> checks[k].failed {
      ReportedIffFailed(checks, k);
    }
  }

  /** The report of the seven checks names exactly the failed ones. */
  lemma ReportOfChecks(noFrom: bool, emptyWhere: bool, open: nat, close: nat, oddSingle: bool,
                       oddDouble: bool, join: bool, star: bool)
    ensures var r := Report(ChecksOf(noFrom, emptyWhere, open, close, oddSingle, oddDouble, join, star));
      (NoFrom in r <==> noFrom) && (NoCondition in r <==> emptyWhere) &&
      (ParenIssue(open, close) in r <==> open != close) && (OddSingle in r <==> oddSingle) &&
      (OddDouble in r <==> oddDouble) && (NoJoinCondition in r <==> join) && (StarSelect in r <==> star)
  {
    var checks := ChecksOf(noFrom, emptyWhere, open, close, oddSingle, oddDouble, join, star);
    ReportedIffFailed(checks, 0);
    ReportedIffFailed(checks, 1);
    ReportedIffFailed(checks, 2);
    ReportedIffFailed(checks, 3);
    ReportedIffFailed(checks, 4);
    ReportedIffFailed(checks, 5);
    ReportedIffFailed(checks, 6);
  }
}
