/** The pure pieces of the webview script (client/media/main.js): parameter detection for the
    query editor and the native-SQL guess made when a query arrives from the extension. */
module Webview {
  import opened Wrappers
  import opened Text
  import opened Seqs
  import QueryUtils

  /** `[a-zA-Z][a-zA-Z0-9]*`. */
  predicate IsIdentifier(n: string) {
    |n| >= 1 && IsLetter(n[0]) && forall i :: 1 <= i < |n| ==> IsAlnum(n[i])
  }

  predicate AllDigits(n: string) {
    |n| >= 1 && forall i :: 0 <= i < |n| ==> IsDigit(n[i])
  }

  /** `(?::([a-zA-Z][a-zA-Z0-9]*)|[\?]([0-9]+))` at `p`: where the match ends and the name it
      captures. Both runs are greedy and nothing after them can force a shorter one. */
  function ParamAt(s: string, p: nat): (r: Option<(nat, string)>)
    requires p <= |s|
    ensures r.Some? ==> p + 2 <= r.value.0 <= |s| && r.value.1 == s[p + 1..r.value.0]
    ensures r.Some? ==> (s[p] == ':' && IsIdentifier(r.value.1)) || (s[p] == '?' && AllDigits(r.value.1))
    ensures r.None? ==>
      (p + 1 >= |s| || !((s[p] == ':' && IsLetter(s[p + 1])) || (s[p] == '?' && IsDigit(s[p + 1]))))
  {
    if p + 1 < |s| && s[p] == ':' && IsLetter(s[p + 1]) then
      var e := SkipAlnum(s, p + 2);
      Some((e, s[p + 1..e]))
    else if p + 1 < |s| && s[p] == '?' && IsDigit(s[p + 1]) then
      var e := SkipDigits(s, p + 2);
      Some((e, s[p + 1..e]))
    else None
  }

  function ParamTable(s: string): (table: seq<Option<QueryUtils.Hit>>)
    ensures |table| == |s| && QueryUtils.ValidTable(table)
    ensures forall p :: 0 <= p < |s| ==> (table[p].Some? <==> ParamAt(s, p).Some?)
    ensures forall p :: 0 <= p < |s| && table[p].Some? ==>
      table[p].value.end == ParamAt(s, p).value.0 && table[p].value.content == ParamAt(s, p).value.1
  {
    seq(|s|, p requires 0 <= p < |s| =>
      match ParamAt(s, p)
      case None => None
      case Some((e, n)) => Some(QueryUtils.Hit(p, e, n, false)))
  }

  /** Some match in `s` captures `x`. */
  predicate WrittenAt(s: string, x: string) {
    exists p :: 0 <= p < |s| && ParamAt(s, p).Some? && ParamAt(s, p).value.1 == x
  }

  /** The names captured by the `exec` loop, in order, before de-duplication. */
  function Captures(s: string): (names: seq<string>)
    ensures forall i :: 0 <= i < |names| ==> WrittenAt(s, names[i])
  {
    var table := ParamTable(s);
    var hits := QueryUtils.ExecLoop(table, 0);
    var caps := seq(|hits|, i requires 0 <= i < |hits| => hits[i].content);
    forall i | 0 <= i < |caps| ensures WrittenAt(s, caps[i]) {
      var p := hits[i].start;
      assert table[p] == Some(hits[i]);
      assert ParamAt(s, p).value.1 == caps[i];
    }
    caps
  }

  /** `detectQueryParams`: the captured names, each pushed once, in order of first capture. */
  function DetectQueryParams(query: string): (r: seq<string>)
    ensures query == [] ==> r == []
    ensures NoDups(r)
    ensures forall i :: 0 <= i < |r| ==> IsIdentifier(r[i]) || AllDigits(r[i])
    ensures forall x :: x in r <==> x in Captures(query)
    ensures forall i, j :: 0 <= i < j < |r| ==>
      FirstIndex(Captures(query), r[i]) < FirstIndex(Captures(query), r[j])
  {
    if query == [] then []
    else
      var caps := Captures(query);
      DedupeSpec(caps);
      CapturesAreNames(query);
      Dedupe(caps)
  }

  lemma CapturesAreNames(s: string)
    ensures forall x :: x in Captures(s) ==> IsIdentifier(x) || AllDigits(x)
  {
    forall x | x in Captures(s) ensures IsIdentifier(x) || AllDigits(x) {
      assert WrittenAt(s, x);
      var p :| 0 <= p < |s| && ParamAt(s, p).Some? && ParamAt(s, p).value.1 == x;
    }
  }

  /** Inside a match there is neither `:` nor `?`, so no other match can start there. */
  lemma InsideMatch(s: string, p: nat, q: nat)
    requires p < q <= |s| && ParamAt(s, p).Some? && q < ParamAt(s, p).value.0
    ensures ParamAt(s, q).None?
  {
    var n := ParamAt(s, p).value.1;
    assert s[q] == n[q - p - 1];
  }

  /** Some hit starts at `p`. */
  predicate HitAt(hits: seq<QueryUtils.Hit>, p: nat) {
    exists i :: 0 <= i < |hits| && hits[i].start == p
  }

  /** The `exec` loop visits every position where a parameter starts. */
  lemma {:induction false} ExecFindsEveryParam(s: string, from: nat)
    requires from <= |s|
    ensures forall p :: from <= p < |s| && ParamAt(s, p).Some? ==>
      HitAt(QueryUtils.ExecLoop(ParamTable(s), from), p)
    decreases |s| - from
  {
    var table := ParamTable(s);
    if from < |s| {
      if table[from].Some? {
        var h := table[from].value;
        ExecFindsEveryParam(s, h.end);
        FoundAfterHit(s, from, h);
      } else {
        ExecFindsEveryParam(s, from + 1);
        assert QueryUtils.ExecLoop(table, from) == QueryUtils.ExecLoop(table, from + 1);
      }
    }
  }

  lemma FoundAfterHit(s: string, from: nat, h: QueryUtils.Hit)
    requires from < |s| && ParamTable(s)[from] == Some(h)
    requires forall p :: h.end <= p < |s| && ParamAt(s, p).Some? ==>
      HitAt(QueryUtils.ExecLoop(ParamTable(s), h.end), p)
    ensures forall p :: from <= p < |s| && ParamAt(s, p).Some? ==>
      HitAt(QueryUtils.ExecLoop(ParamTable(s), from), p)
  {
    var table := ParamTable(s);
    var rest := QueryUtils.ExecLoop(table, h.end);
    var hits := QueryUtils.ExecLoop(table, from);
    assert hits == [h] + rest;
    forall p | from <= p < |s| && ParamAt(s, p).Some? ensures HitAt(hits, p) {
      if p == from {
        assert hits[0].start == p;
      } else if p < h.end {
        InsideMatch(s, from, p);
      } else {
        HitAtCons(h, rest, p);
      }
    }
  }

  lemma HitAtCons(h: QueryUtils.Hit, rest: seq<QueryUtils.Hit>, p: nat)
    requires HitAt(rest, p)
    ensures HitAt([h] + rest, p)
  {
    var i :| 0 <= i < |rest| && rest[i].start == p;
    assert ([h] + rest)[i + 1] == rest[i];
  }

  /** Every parameter written in the query is reported: `:name` (its whole identifier) and `?n`
      (its whole digit run). */
  lemma EveryParamReported(query: string, p: nat)
    requires p < |query| && ParamAt(query, p).Some?
    ensures ParamAt(query, p).value.1 in DetectQueryParams(query)
  {
    var table := ParamTable(query);
    var hits := QueryUtils.ExecLoop(table, 0);
    ExecFindsEveryParam(query, 0);
    assert HitAt(hits, p);
    var i :| 0 <= i < |hits| && hits[i].start == p;
    assert table[p] == Some(hits[i]);
    assert Captures(query)[i] == hits[i].content;
  }

  /** Text with no `:` before a letter and no `?` before a digit has no parameters: a bare `?`
      contributes nothing. */
  lemma NoMarkersNoParams(query: string)
    requires forall p :: 0 <= p < |query| - 1 ==>
      !(query[p] == ':' && IsLetter(query[p + 1])) && !(query[p] == '?' && IsDigit(query[p + 1]))
    ensures DetectQueryParams(query) == []
  {
    var table := ParamTable(query);
    forall p | 0 <= p < |query| ensures table[p].None? {
      assert ParamAt(query, p).None?;
    }
    QueryUtils.ExecLoopEmpty(table, 0);
  }

  // ---------------------------------------------------------------------------------------
  // testQuery

  /** The guess made on `testQuery`: the lower-cased query contains `select `, then ` from ` or a
      line break followed by `from `, and no `:`. Lower-casing is ASCII; the only non-ASCII
      characters whose lower case is ASCII lower to `k` and `i`, which none of these words
      contain. */
  predicate LikelyNative(query: string) {
    var lower := LowerStr(query);
    Contains(lower, "select ") && (Contains(lower, " from ") || Contains(lower, "\nfrom ")) &&
      !Contains(lower, ":")
  }

  lemma ContainsChar(s: string, c: char)
    ensures Contains(s, [c]) <==> c in s
  {
    if c in s {
      var i :| 0 <= i < |s| && s[i] == c;
      assert StartsAt(s, i, [c]);
    }
    if Contains(s, [c]) {
      var i: nat :| i <= |s| && StartsAt(s, i, [c]);
      assert s[i] == s[i..i + 1][0];
    }
  }

  /** A query with a named parameter marker is never guessed native. */
  lemma ColonMeansJpql(query: string)
    requires ':' in query
    ensures !LikelyNative(query)
  {
    var i :| 0 <= i < |query| && query[i] == ':';
    assert LowerStr(query)[i] == ':';
    ContainsChar(LowerStr(query), ':');
  }

  /** The guess ignores letter case. */
  lemma LikelyNativeIgnoresCase(query: string)
    ensures LikelyNative(UpperStr(query)) == LikelyNative(query)
  {
    assert LowerStr(UpperStr(query)) == LowerStr(query);
  }

  /** The guess holds for a plain `select … from …` query without parameters. */
  lemma SelectFromIsNative(a: string, b: string)
    requires ':' !in a && ':' !in b
    requires forall i :: 0 <= i < |a| ==> a[i] == ToLower(a[i])
    requires forall i :: 0 <= i < |b| ==> b[i] == ToLower(b[i])
    ensures LikelyNative("select " + a + " from " + b)
  {
    var q := "select " + a + " from " + b;
    var lower := LowerStr(q);
    assert lower == q;
    assert StartsAt(lower, 0, "select ") by { assert lower[0..7] == "select "; }
    assert StartsAt(lower, 7 + |a|, " from ") by { assert lower[7 + |a|..7 + |a| + 6] == " from "; }
    assert ':' !in q;
    ContainsChar(lower, ':');
  }
}
