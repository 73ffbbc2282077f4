/** De-duplication as JavaScript writes it: `[...new Set(xs)]`, or a loop that pushes an element
    only when `!result.includes(x)`. Both keep the first occurrence of every value, in order. */
module Seqs {

  predicate NoDups<T(==)>(s: seq<T>) {
    forall i, j :: 0 <= i < j < |s| ==> s[i] != s[j]
  }

  /** The position of the first occurrence of `x` in `s`. */
  function FirstIndex<T(==)>(s: seq<T>, x: T): (i: nat)
    requires x in s
    ensures i < |s| && s[i] == x
    ensures forall j :: 0 <= j < i ==> s[j] != x
  {
    if s[0] == x then 0 else 1 + FirstIndex(s[1..], x)
  }

  /** Process `s` left to right and keep an element only if it has not been kept yet. */
  function Dedupe<T(==)>(s: seq<T>): seq<T>
    decreases |s|
  {
    if s == [] then []
    else
      var d := Dedupe(s[..|s| - 1]);
      if s[|s| - 1] in d then d else d + [s[|s| - 1]]
  }

  /** `Dedupe(s)` holds every value of `s` exactly once, in the order of first occurrence. */
  lemma {:induction false} DedupeSpec<T>(s: seq<T>)
    ensures NoDups(Dedupe(s))
    ensures forall x :: x in Dedupe(s) <==> x in s
    ensures forall i, j :: 0 <= i < j < |Dedupe(s)| ==>
      FirstIndex(s, Dedupe(s)[i]) < FirstIndex(s, Dedupe(s)[j])
    decreases |s|
  {
    if s != [] {
      var p := s[..|s| - 1];
      var x := s[|s| - 1];
      var d := Dedupe(p);
      DedupeSpec(p);
      assert s == p + [x];
      forall y | y in p
        ensures FirstIndex(s, y) == FirstIndex(p, y)
      {
        FirstIndexOfPrefix(p, [x], y);
      }
      if x !in d {
        assert x !in p;
        assert FirstIndex(s, x) == |p| by {
          forall j | 0 <= j < |p| ensures s[j] != x { assert s[j] == p[j]; }
        }
        var r := d + [x];
        forall i, j | 0 <= i < j < |r|
          ensures FirstIndex(s, r[i]) < FirstIndex(s, r[j])
        {
          if j < |d| {
            assert r[i] == d[i] && r[j] == d[j];
          } else {
            assert r[i] == d[i] && d[i] in d;
          }
        }
      }
    }
  }

  lemma FirstIndexOfPrefix<T>(p: seq<T>, q: seq<T>, y: T)
    requires y in p
    ensures y in p + q && FirstIndex(p + q, y) == FirstIndex(p, y)
  {
    var s := p + q;
    var i := FirstIndex(p, y);
    var k := FirstIndex(s, y);
    assert s[i] == y;
  }

  /** De-duplicating a sequence that has no duplicates changes nothing. */
  lemma {:induction false} DedupeOfNoDups<T>(s: seq<T>)
    requires NoDups(s)
    ensures Dedupe(s) == s
    decreases |s|
  {
    if s != [] {
      var p := s[..|s| - 1];
      assert NoDups(p);
      DedupeOfNoDups(p);
      DedupeSpec(p);
      assert s[|s| - 1] !in p;
      assert s == p + [s[|s| - 1]];
    }
  }

  /** `ys` holds `f` of each element of `xs`. */
  ghost predicate Mapped<A, B>(f: A -> B, xs: seq<A>, ys: seq<B>) {
    |ys| == |xs| && forall i :: 0 <= i < |xs| ==> ys[i] == f(xs[i])
  }

  /** Mapping element by element commutes with concatenation. */
  lemma MappedConcat<A, B>(f: A -> B, xs: seq<A>, ys: seq<A>, fx: seq<B>, fy: seq<B>, fxy: seq<B>)
    requires Mapped(f, xs, fx) && Mapped(f, ys, fy) && Mapped(f, xs + ys, fxy)
    ensures fxy == fx + fy
  {
    forall i | 0 <= i < |fxy| ensures fxy[i] == (fx + fy)[i] {
      if i < |xs| {
        assert (xs + ys)[i] == xs[i];
      } else {
        assert (xs + ys)[i] == ys[i - |xs|];
      }
    }
  }
}
