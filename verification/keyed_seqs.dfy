/** Keeping the first candidate of every key: the shape of a loop that pushes a candidate only
    when it is admissible and no kept element has the same key. */
module KeyedSeqs {

  predicate HasKey<T, K(==)>(s: seq<T>, key: T -> K, k: K) {
    exists i :: 0 <= i < |s| && key(s[i]) == k
  }

  predicate KeysDistinct<T, K(==)>(s: seq<T>, key: T -> K) {
    forall i, j :: 0 <= i < j < |s| ==> key(s[i]) != key(s[j])
  }

  /** `t` can be obtained from `s` by deleting elements. */
  predicate IsSubseq<T(==)>(t: seq<T>, s: seq<T>)
    decreases |s|
  {
    if t == [] then true
    else if s == [] then false
    else (t[0] == s[0] && IsSubseq(t[1..], s[1..])) || IsSubseq(t, s[1..])
  }

  function KeepFirstBy<T(==), K(==)>(acc: seq<T>, cs: seq<T>, key: T -> K, admissible: T -> bool): seq<T>
    decreases |cs|
  {
    if cs == [] then acc
    else
      var c := cs[0];
      KeepFirstBy(if admissible(c) && !HasKey(acc, key, key(c)) then acc + [c] else acc, cs[1..], key, admissible)
  }

  /** The kept elements follow `acc` and form a subsequence of the candidates. */
  lemma {:induction false} KeepFirstByExtends<T, K>(acc: seq<T>, cs: seq<T>, key: T -> K, admissible: T -> bool)
    ensures var r := KeepFirstBy(acc, cs, key, admissible);
      |acc| <= |r| && r[..|acc|] == acc && IsSubseq(r[|acc|..], cs)
    decreases |cs|
  {
    if cs != [] {
      var c := cs[0];
      var kept := admissible(c) && !HasKey(acc, key, key(c));
      var acc' := if kept then acc + [c] else acc;
      KeepFirstByExtends(acc', cs[1..], key, admissible);
      var r := KeepFirstBy(acc', cs[1..], key, admissible);
      assert r[..|acc'|][..|acc|] == acc'[..|acc|];
      var t := r[|acc|..];
      if kept {
        assert r[|acc|] == r[..|acc'|][|acc|] == c;
        assert t[1..] == r[|acc'|..];
      } else if t != [] {
        assert t == r[|acc'|..];
      }
    }
  }

  lemma {:induction false} KeepFirstByDistinct<T, K>(acc: seq<T>, cs: seq<T>, key: T -> K, admissible: T -> bool)
    requires KeysDistinct(acc, key)
    ensures KeysDistinct(KeepFirstBy(acc, cs, key, admissible), key)
    decreases |cs|
  {
    if cs != [] {
      var c := cs[0];
      if admissible(c) && !HasKey(acc, key, key(c)) {
        var acc' := acc + [c];
        assert KeysDistinct(acc', key) by {
          forall i, j | 0 <= i < j < |acc'| ensures key(acc'[i]) != key(acc'[j]) {
            if j == |acc| {
              assert acc'[i] == acc[i];
            }
          }
        }
        KeepFirstByDistinct(acc', cs[1..], key, admissible);
      } else {
        KeepFirstByDistinct(acc, cs[1..], key, admissible);
      }
    }
  }

  predicate AllAdmissible<T>(s: seq<T>, admissible: T -> bool) {
    forall i :: 0 <= i < |s| ==> admissible(s[i])
  }

  lemma {:induction false} KeepFirstByAdmissible<T, K>(acc: seq<T>, cs: seq<T>, key: T -> K, admissible: T -> bool)
    requires AllAdmissible(acc, admissible)
    ensures AllAdmissible(KeepFirstBy(acc, cs, key, admissible), admissible)
    decreases |cs|
  {
    if cs != [] {
      var c := cs[0];
      if admissible(c) && !HasKey(acc, key, key(c)) {
        var acc' := acc + [c];
        assert AllAdmissible(acc', admissible) by {
          forall i | 0 <= i < |acc'| ensures admissible(acc'[i]) {
            if i < |acc| { assert acc'[i] == acc[i]; }
          }
        }
        KeepFirstByAdmissible(acc', cs[1..], key, admissible);
      } else {
        KeepFirstByAdmissible(acc, cs[1..], key, admissible);
      }
    }
  }

  lemma HasKeyGrows<T, K>(s: seq<T>, more: seq<T>, key: T -> K, k: K)
    requires HasKey(s, key, k)
    ensures HasKey(s + more, key, k)
  {
    var i :| 0 <= i < |s| && key(s[i]) == k;
    assert (s + more)[i] == s[i];
  }

  /** Every admissible candidate is represented by a kept element with its key. */
  lemma {:induction false} KeepFirstByCovers<T, K>(acc: seq<T>, cs: seq<T>, key: T -> K, admissible: T -> bool)
    ensures forall c :: c in cs && admissible(c) ==> HasKey(KeepFirstBy(acc, cs, key, admissible), key, key(c))
    decreases |cs|
  {
    if cs != [] {
      var c := cs[0];
      var acc' := if admissible(c) && !HasKey(acc, key, key(c)) then acc + [c] else acc;
      KeepFirstByCovers(acc', cs[1..], key, admissible);
      KeepFirstByExtends(acc', cs[1..], key, admissible);
      var r := KeepFirstBy(acc', cs[1..], key, admissible);
      if admissible(c) {
        assert HasKey(acc', key, key(c)) by {
          if !HasKey(acc, key, key(c)) {
            assert acc'[|acc|] == c;
          } else {
            HasKeyGrows(acc, acc'[|acc|..], key, key(c));
            assert acc + acc'[|acc|..] == acc';
          }
        }
        assert r == acc' + r[|acc'|..];
        HasKeyGrows(acc', r[|acc'|..], key, key(c));
      }
      forall x | x in cs && admissible(x) ensures HasKey(r, key, key(x)) {
        if x != c {
          assert x in cs[1..];
        }
      }
    }
  }

  /** No admissible element of `cs` before index `j` has key `k`. */
  predicate NoEarlierKey<T, K(==)>(cs: seq<T>, j: nat, key: T -> K, admissible: T -> bool, k: K)
    requires j <= |cs|
  {
    forall i :: 0 <= i < j && admissible(cs[i]) ==> key(cs[i]) != k
  }

  /** Every element kept after `acc` is the first admissible candidate with its key, and no
      element of `acc` has that key: a later duplicate is never kept in its place. */
  lemma {:induction false} KeepFirstByFirst<T, K>(acc: seq<T>, cs: seq<T>, key: T -> K, admissible: T -> bool)
    ensures var r := KeepFirstBy(acc, cs, key, admissible);
      forall n :: |acc| <= n < |r| ==> !HasKey(acc, key, key(r[n])) && exists j ::
        0 <= j < |cs| && cs[j] == r[n] && NoEarlierKey(cs, j, key, admissible, key(r[n]))
    decreases |cs|
  {
    if cs != [] {
      var c := cs[0];
      var kept := admissible(c) && !HasKey(acc, key, key(c));
      var acc' := if kept then acc + [c] else acc;
      KeepFirstByFirst(acc', cs[1..], key, admissible);
      KeepFirstByExtends(acc', cs[1..], key, admissible);
      var r := KeepFirstBy(acc', cs[1..], key, admissible);
      forall n | |acc| <= n < |r|
        ensures !HasKey(acc, key, key(r[n])) && exists j ::
          0 <= j < |cs| && cs[j] == r[n] && NoEarlierKey(cs, j, key, admissible, key(r[n]))
      {
        if kept && n == |acc| {
          assert r[n] == r[..|acc'|][n] == c;
          assert NoEarlierKey(cs, 0, key, admissible, key(r[n]));
        } else {
          assert |acc'| <= n;
          var j' :| 0 <= j' < |cs[1..]| && cs[1..][j'] == r[n] && NoEarlierKey(cs[1..], j', key, admissible, key(r[n]));
          forall i | 0 <= i < |acc| ensures key(acc[i]) != key(r[n]) {
            assert acc'[i] == acc[i];
          }
          if kept {
            assert acc'[|acc|] == c;
          }
          assert NoEarlierKey(cs, j' + 1, key, admissible, key(r[n])) by {
            forall i | 0 <= i < j' + 1 && admissible(cs[i]) ensures key(cs[i]) != key(r[n]) {
              if i > 0 {
                assert cs[i] == cs[1..][i - 1];
              }
            }
          }
        }
      }
    }
  }

  lemma {:induction false} SubseqMembers<T>(t: seq<T>, s: seq<T>)
    requires IsSubseq(t, s)
    ensures forall x :: x in t ==> x in s
    decreases |s|
  {
    if t != [] && s != [] {
      if t[0] == s[0] && IsSubseq(t[1..], s[1..]) {
        SubseqMembers(t[1..], s[1..]);
        forall x | x in t ensures x in s {
          if x != t[0] {
            assert x in t[1..];
          }
        }
      } else {
        SubseqMembers(t, s[1..]);
      }
    }
  }
}
