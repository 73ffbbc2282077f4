/** Weighted-indicator classification of a query as native SQL or JPQL. Each indicator is a
    condition on the query text and a weight; a score is the sum of the weights of the
    indicators that hold; the verdict compares the two scores with a tie-break. */
module Classifier {
  import opened Regex

  /** What an indicator checks. */
  datatype Cond =
    | Matches(re: Re, ci: bool)   // pattern.test(query), ci = the `i` flag
    | HasChar(c: char)            // query.includes(c)
    | Both(a: Cond, b: Cond)
    | Lacks(a: Cond)

  predicate Holds(cond: Cond, q: string) {
    match cond
    case Matches(re, ci) => Test(re, ci, q)
    case HasChar(c) => c in q
    case Both(a, b) => Holds(a, q) && Holds(b, q)
    case Lacks(a) => !Holds(a, q)
  }

  datatype Indicator = Indicator(cond: Cond, weight: nat)

  /** The sum of the weights of the indicators that hold of `q`. */
  function Score(rules: seq<Indicator>, q: string): nat
    decreases |rules|
  {
    if rules == [] then 0
    else (if Holds(rules[0].cond, q) then rules[0].weight else 0) + Score(rules[1..], q)
  }

  function TotalWeight(rules: seq<Indicator>): nat
    decreases |rules|
  {
    if rules == [] then 0 else rules[0].weight + TotalWeight(rules[1..])
  }

  /** No query can score more than the sum of all weights, and a score is zero exactly when no
      indicator of positive weight holds. */
  lemma {:induction false} ScoreBounds(rules: seq<Indicator>, q: string)
    ensures Score(rules, q) <= TotalWeight(rules)
    ensures Score(rules, q) == 0 <==>
      forall i :: 0 <= i < |rules| && rules[i].weight > 0 ==> !Holds(rules[i].cond, q)
    decreases |rules|
  {
    if rules != [] {
      ScoreBounds(rules[1..], q);
      forall i | 1 <= i < |rules| ensures rules[i] == rules[1..][i - 1] {}
    }
  }

  /** Conditions that all carry the same weight, as in a loop `if (pattern.test(q)) score += w`. */
  function Weighted(conds: seq<Cond>, w: nat): (rules: seq<Indicator>)
    ensures |rules| == |conds|
    ensures forall i :: 0 <= i < |rules| ==> rules[i] == Indicator(conds[i], w)
  {
    seq(|conds|, i requires 0 <= i < |conds| => Indicator(conds[i], w))
  }

  lemma {:induction false} WeightedTotal(conds: seq<Cond>, w: nat)
    ensures TotalWeight(Weighted(conds, w)) == w * |conds|
    decreases |conds|
  {
    if conds != [] {
      assert Weighted(conds, w)[1..] == Weighted(conds[1..], w);
      WeightedTotal(conds[1..], w);
    }
  }

  /** Scores and weights of two tables in sequence add up. */
  lemma {:induction false} ScoreConcat(a: seq<Indicator>, b: seq<Indicator>, q: string)
    ensures Score(a + b, q) == Score(a, q) + Score(b, q)
    ensures TotalWeight(a + b) == TotalWeight(a) + TotalWeight(b)
    decreases |a|
  {
    if a != [] {
      assert (a + b)[1..] == a[1..] + b;
      ScoreConcat(a[1..], b, q);
    } else {
      assert a + b == b;
    }
  }

  /** One indicator on its own scores its weight exactly when it holds. */
  lemma ScoreSingle(r: Indicator, q: string)
    ensures Score([r], q) == (if Holds(r.cond, q) then r.weight else 0)
    ensures TotalWeight([r]) == r.weight
  {
    assert [r][1..] == [];
  }

  /** `q2` satisfies every indicator that `q1` satisfies. */
  predicate HitsIncluded(rules: seq<Indicator>, q1: string, q2: string) {
    forall i :: 0 <= i < |rules| && Holds(rules[i].cond, q1) ==> Holds(rules[i].cond, q2)
  }

  /** Weights are non-negative, so more hits never lower a score. */
  lemma {:induction false} ScoreMonotone(rules: seq<Indicator>, q1: string, q2: string)
    requires HitsIncluded(rules, q1, q2)
    ensures Score(rules, q1) <= Score(rules, q2)
    decreases |rules|
  {
    if rules != [] {
      assert HitsIncluded(rules[1..], q1, q2) by {
        forall i | 0 <= i < |rules[1..]| && Holds(rules[1..][i].cond, q1)
          ensures Holds(rules[1..][i].cond, q2)
        {
          assert rules[1..][i] == rules[i + 1];
        }
      }
      ScoreMonotone(rules[1..], q1, q2);
      assert Holds(rules[0].cond, q1) ==> Holds(rules[0].cond, q2);
    }
  }

  /** Which side wins when the two scores are equal. */
  datatype TieBreak = FavorNative | FavorJpql

  /** The verdict from the two scores: `native >= jpql` or `native > jpql`. */
  function NativeWins(nativeScore: nat, jpqlScore: nat, tie: TieBreak): (native: bool)
    ensures nativeScore > jpqlScore ==> native
    ensures nativeScore < jpqlScore ==> !native
    ensures nativeScore == jpqlScore ==> (native <==> tie == FavorNative)
  {
    match tie
    case FavorNative => nativeScore >= jpqlScore
    case FavorJpql => nativeScore > jpqlScore
  }

  /** A classifier: its native indicators, its JPQL indicators and its tie-break. */
  datatype Scheme = Scheme(native: seq<Indicator>, jpql: seq<Indicator>, tie: TieBreak)

  function IsNative(scheme: Scheme, q: string): bool {
    NativeWins(Score(scheme.native, q), Score(scheme.jpql, q), scheme.tie)
  }

  /** Gaining native hits and losing JPQL hits can never turn a native verdict into JPQL. */
  lemma MoreNativeHitsKeepNative(scheme: Scheme, q1: string, q2: string)
    requires HitsIncluded(scheme.native, q1, q2)
    requires HitsIncluded(scheme.jpql, q2, q1)
    requires IsNative(scheme, q1)
    ensures IsNative(scheme, q2)
  {
    ScoreMonotone(scheme.native, q1, q2);
    ScoreMonotone(scheme.jpql, q2, q1);
  }

  /** Two schemes that differ only in tie-break disagree exactly on ties. */
  lemma TieBreakOnlyMattersOnTies(native: seq<Indicator>, jpql: seq<Indicator>, q: string)
    ensures IsNative(Scheme(native, jpql, FavorNative), q) != IsNative(Scheme(native, jpql, FavorJpql), q)
      <==> Score(native, q) == Score(jpql, q)
  {}

  /** When no indicator holds, both scores are zero and the tie-break alone decides. */
  lemma NoHitsFollowsTieBreak(scheme: Scheme, q: string)
    requires forall i :: 0 <= i < |scheme.native| ==> !Holds(scheme.native[i].cond, q)
    requires forall i :: 0 <= i < |scheme.jpql| ==> !Holds(scheme.jpql[i].cond, q)
    ensures IsNative(scheme, q) <==> scheme.tie == FavorNative
  {
    ScoreBounds(scheme.native, q);
    ScoreBounds(scheme.jpql, q);
  }
}
