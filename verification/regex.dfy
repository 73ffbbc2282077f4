/** The fragment of JavaScript regular expressions the query classifiers use, with the
    backtracking matcher's meaning given as the set of positions a pattern can end at.
    `RegExp.prototype.test` only asks whether some start position has some end, so for the
    classifiers the leftmost-first order of alternatives does not matter. */
module Regex {
  import opened Text

  /** A character class. */
  datatype Class =
    | AnyChar                    // [\s\S]
    | NotLineTerminator          // .
    | SpaceClass                 // \s
    | DigitClass                 // \d
    | WordClass                  // \w
    | Single(c: char)
    | Range(lo: char, hi: char)
    | Union(a: Class, b: Class)
    | Negate(a: Class)

  predicate InClass(k: Class, c: char) {
    match k
    case AnyChar => true
    case NotLineTerminator => !IsLineTerminator(c)
    case SpaceClass => IsSpace(c)
    case DigitClass => IsDigit(c)
    case WordClass => IsWordChar(c)
    case Single(d) => c == d
    case Range(lo, hi) => lo <= c <= hi
    case Union(a, b) => InClass(a, c) || InClass(b, c)
    case Negate(a) => !InClass(a, c)
  }

  /** Membership under the `i` flag. JavaScript compares upper-case images; for classes built
      from ASCII ranges and the `\s`, `\d`, `\w`, `.` escapes this is membership of the character
      or of its other ASCII case. */
  predicate InClassCI(k: Class, c: char) {
    match k
    case Union(a, b) => InClassCI(a, c) || InClassCI(b, c)
    case Negate(a) => !InClassCI(a, c)
    case _ => InClass(k, c) || InClass(k, ToUpper(c)) || InClass(k, ToLower(c))
  }

  predicate Has(k: Class, c: char, ci: bool) {
    if ci then InClassCI(k, c) else InClass(k, c)
  }

  datatype Re =
    | Eps
    | Ch(k: Class)
    | Cat(a: Re, b: Re)
    | Alt(a: Re, b: Re)
    | Star(a: Re)
    | WordBoundary               // \b
    | NotFollowedBy(a: Re)       // (?!a)
    | InputStart                 // ^ without the m flag
    | InputEnd                   // $ without the m flag

  /** `\b` at position `i`: exactly one of the characters around `i` is a word character. */
  predicate AtWordBoundary(s: string, i: nat)
    requires i <= |s|
  {
    var before := i > 0 && IsWordChar(s[i - 1]);
    var after := i < |s| && IsWordChar(s[i]);
    before != after
  }

  /** The positions at which `re`, started at `i`, can stop. */
  function Ends(re: Re, s: string, i: nat, ci: bool): (r: set<nat>)
    requires i <= |s|
    ensures forall k :: k in r ==> i <= k <= |s|
    decreases re, |s| - i, 1
  {
    match re
    case Eps => {i}
    case Ch(k) => if i < |s| && Has(k, s[i], ci) then {i + 1} else {}
    case Cat(a, b) => set j, k | j in Ends(a, s, i, ci) && k in Ends(b, s, j, ci) :: k
    case Alt(a, b) => Ends(a, s, i, ci) + Ends(b, s, i, ci)
    case Star(a) => StarEnds(a, s, i, ci)
    case WordBoundary => if AtWordBoundary(s, i) then {i} else {}
    case NotFollowedBy(a) => if Ends(a, s, i, ci) == {} then {i} else {}
    case InputStart => if i == 0 then {i} else {}
    case InputEnd => if i == |s| then {i} else {}
  }

  /** `a*`: zero iterations, or one iteration that consumes something followed by more. */
  function StarEnds(a: Re, s: string, i: nat, ci: bool): (r: set<nat>)
    requires i <= |s|
    ensures i in r
    ensures forall k :: k in r ==> i <= k <= |s|
    decreases Star(a), |s| - i, 0
  {
    {i} + set j, k | j in Ends(a, s, i, ci) && i < j && k in StarEnds(a, s, j, ci) :: k
  }

  /** `RegExp.prototype.test`: the pattern matches somewhere in `s`. */
  predicate Test(re: Re, ci: bool, s: string) {
    exists p: nat :: p <= |s| && Ends(re, s, p, ci) != {}
  }

  // Building blocks

  function Lit(w: string): Re
    decreases |w|
  {
    if w == [] then Eps else Cat(Ch(Single(w[0])), Lit(w[1..]))
  }

  function Plus(a: Re): Re { Cat(a, Star(a)) }

  function Opt(a: Re): Re { Alt(a, Eps) }

  /** Concatenation of a list of patterns. */
  function Chain(rs: seq<Re>): Re
    decreases |rs|
  {
    if rs == [] then Eps else Cat(rs[0], Chain(rs[1..]))
  }

  /** A chain with one element that must consume input must itself consume input. */
  lemma {:induction false} ChainMinLen(rs: seq<Re>, i: nat)
    requires i < |rs| && MinLen(rs[i]) > 0
    ensures MinLen(Chain(rs)) > 0
    decreases |rs|
  {
    if i > 0 {
      ChainMinLen(rs[1..], i - 1);
    }
  }

  lemma LitMinLen(w: string)
    requires w != []
    ensures MinLen(Lit(w)) > 0
  {}

  /** `\bw\b`. */
  function WholeWord(w: string): Re {
    Chain([WordBoundary, Lit(w), WordBoundary])
  }

  const Spaces: Re := Star(Ch(SpaceClass))
  const Spaces1: Re := Plus(Ch(SpaceClass))

  /** The least number of characters any match of `re` consumes. */
  function MinLen(re: Re): nat {
    match re
    case Ch(_) => 1
    case Cat(a, b) => MinLen(a) + MinLen(b)
    case Alt(a, b) => if MinLen(a) <= MinLen(b) then MinLen(a) else MinLen(b)
    case _ => 0
  }

  lemma {:induction false} EndsAfterMinLen(re: Re, s: string, i: nat, ci: bool)
    requires i <= |s|
    ensures forall k :: k in Ends(re, s, i, ci) ==> i + MinLen(re) <= k
    decreases re
  {
    match re
    case Cat(a, b) =>
      forall k | k in Ends(re, s, i, ci) ensures i + MinLen(re) <= k {
        var j :| j in Ends(a, s, i, ci) && k in Ends(b, s, j, ci);
        EndsAfterMinLen(a, s, i, ci);
        EndsAfterMinLen(b, s, j, ci);
      }
    case Alt(a, b) =>
      EndsAfterMinLen(a, s, i, ci);
      EndsAfterMinLen(b, s, i, ci);
    case _ =>
  }

  /** A pattern that must consume a character never matches the empty query. */
  lemma NoMatchInEmpty(re: Re, ci: bool)
    requires MinLen(re) > 0
    ensures !Test(re, ci, [])
  {
    if Test(re, ci, []) {
      var p: nat :| p <= 0 && Ends(re, [], p, ci) != {};
      EndsAfterMinLen(re, [], p, ci);
    }
  }

  /** The least number of times the character `c` appears in any match of `re`, counting only
      positions the pattern can match with nothing but `c`. */
  function MinCount(re: Re, c: char, ci: bool): nat {
    match re
    case Ch(k) => if OnlyChar(k, c, ci) then 1 else 0
    case Cat(a, b) => MinCount(a, c, ci) + MinCount(b, c, ci)
    case Alt(a, b) =>
      if MinCount(a, c, ci) <= MinCount(b, c, ci) then MinCount(a, c, ci) else MinCount(b, c, ci)
    case _ => 0
  }

  /** `k` matches `c` and nothing else. */
  predicate OnlyChar(k: Class, c: char, ci: bool) {
    k == Single(c) && (!ci || (ToUpper(c) == c && ToLower(c) == c))
  }

  lemma OnlyCharSound(k: Class, c: char, ci: bool, d: char)
    requires OnlyChar(k, c, ci) && Has(k, d, ci)
    ensures d == c
  {}

  lemma CountCharSplit(s: string, i: nat, j: nat, k: nat, c: char)
    requires i <= j <= k <= |s|
    ensures CountChar(s[i..k], c) == CountChar(s[i..j], c) + CountChar(s[j..k], c)
    decreases j - i
  {
    if i < j {
      assert s[i..k][1..] == s[i + 1..k];
      assert s[i..j][1..] == s[i + 1..j];
      CountCharSplit(s, i + 1, j, k, c);
    }
  }

  lemma {:induction false} EndsHoldMinCount(re: Re, s: string, i: nat, ci: bool, c: char)
    requires i <= |s|
    ensures forall k :: k in Ends(re, s, i, ci) ==> MinCount(re, c, ci) <= CountChar(s[i..k], c)
    decreases re
  {
    match re
    case Ch(cls) =>
      forall k | k in Ends(re, s, i, ci) ensures MinCount(re, c, ci) <= CountChar(s[i..k], c) {
        if OnlyChar(cls, c, ci) {
          OnlyCharSound(cls, c, ci, s[i]);
          assert s[i..k] == [c];
        }
      }
    case Cat(a, b) =>
      forall k | k in Ends(re, s, i, ci) ensures MinCount(re, c, ci) <= CountChar(s[i..k], c) {
        var j :| j in Ends(a, s, i, ci) && k in Ends(b, s, j, ci);
        EndsHoldMinCount(a, s, i, ci, c);
        EndsHoldMinCount(b, s, j, ci, c);
        CountCharSplit(s, i, j, k, c);
      }
    case Alt(a, b) =>
      EndsHoldMinCount(a, s, i, ci, c);
      EndsHoldMinCount(b, s, i, ci, c);
    case _ =>
  }

  lemma CountCharSlice(s: string, i: nat, k: nat, c: char)
    requires i <= k <= |s|
    ensures CountChar(s[i..k], c) <= CountChar(s, c)
  {
    CountCharSplit(s, 0, i, |s|, c);
    CountCharSplit(s, i, k, |s|, c);
    assert s[0..|s|] == s;
  }

  /** A pattern whose every match contains `c` at least `MinCount` times cannot match a string
      with fewer occurrences of `c`. */
  lemma NoMatchWithoutChar(re: Re, ci: bool, s: string, c: char)
    requires CountChar(s, c) < MinCount(re, c, ci)
    ensures !Test(re, ci, s)
  {
    if Test(re, ci, s) {
      var p: nat :| p <= |s| && Ends(re, s, p, ci) != {};
      var k :| k in Ends(re, s, p, ci);
      EndsHoldMinCount(re, s, p, ci, c);
      CountCharSlice(s, p, k, c);
    }
  }

  // Witnesses: how a particular match is built up

  lemma CatEnds(a: Re, b: Re, s: string, i: nat, j: nat, k: nat, ci: bool)
    requires i <= |s| && j in Ends(a, s, i, ci) && k in Ends(b, s, j, ci)
    ensures k in Ends(Cat(a, b), s, i, ci)
  {}

  lemma {:induction false} LitEnds(w: string, s: string, i: nat)
    requires StartsAt(s, i, w)
    ensures i + |w| in Ends(Lit(w), s, i, false)
    decreases |w|
  {
    if w != [] {
      assert s[i] == w[0];
      assert StartsAt(s, i + 1, w[1..]) by {
        assert s[i + 1..i + |w|] == s[i..i + |w|][1..];
      }
      LitEnds(w[1..], s, i + 1);
    }
  }

  /** Case-insensitive literal: `s` spells `w` at `i` up to ASCII case. */
  predicate StartsAtCI(s: string, i: nat, w: string) {
    i + |w| <= |s| && forall k :: 0 <= k < |w| ==> ToUpper(s[i + k]) == ToUpper(w[k])
  }

  lemma SameUpperInClassCI(c: char, d: char)
    requires ToUpper(c) == ToUpper(d)
    ensures InClassCI(Single(d), c)
  {}

  lemma {:induction false} LitEndsCI(w: string, s: string, i: nat)
    requires StartsAtCI(s, i, w)
    ensures i + |w| in Ends(Lit(w), s, i, true)
    decreases |w|
  {
    if w != [] {
      assert ToUpper(s[i]) == ToUpper(w[0]);
      SameUpperInClassCI(s[i], w[0]);
      assert StartsAtCI(s, i + 1, w[1..]) by {
        forall k | 0 <= k < |w[1..]| ensures ToUpper(s[i + 1 + k]) == ToUpper(w[1..][k]) {
          assert ToUpper(s[i + (k + 1)]) == ToUpper(w[k + 1]);
        }
      }
      LitEndsCI(w[1..], s, i + 1);
    }
  }

  lemma StartsAtGivesCI(s: string, i: nat, w: string)
    requires StartsAt(s, i, w)
    ensures StartsAtCI(s, i, w)
  {
    forall k | 0 <= k < |w| ensures ToUpper(s[i + k]) == ToUpper(w[k]) {
      assert s[i..i + |w|][k] == s[i + k];
    }
  }

  /** Each further run of characters of class `k` can be absorbed by `k*`. */
  lemma {:induction false} StarRun(k: Class, s: string, i: nat, j: nat, ci: bool)
    requires i <= j <= |s|
    requires forall m :: i <= m < j ==> Has(k, s[m], ci)
    ensures j in Ends(Star(Ch(k)), s, i, ci)
    decreases j - i
  {
    if i < j {
      StarRun(k, s, i + 1, j, ci);
      assert i + 1 in Ends(Ch(k), s, i, ci);
    }
  }

  /** A match of `rs[n]` followed by a match of the rest of the chain is a match of `rs[n..]`. */
  lemma ChainStep(rs: seq<Re>, n: nat, s: string, i: nat, j: nat, k: nat, ci: bool)
    requires n < |rs| && i <= |s| && j in Ends(rs[n], s, i, ci) && k in Ends(Chain(rs[n + 1..]), s, j, ci)
    ensures k in Ends(Chain(rs[n..]), s, i, ci)
  {
    assert rs[n..][0] == rs[n] && rs[n..][1..] == rs[n + 1..];
  }

  /** A single character of class `k` is a match of `k+`. */
  lemma PlusOne(k: Class, s: string, i: nat, ci: bool)
    requires i < |s| && Has(k, s[i], ci)
    ensures i + 1 in Ends(Plus(Ch(k)), s, i, ci)
  {
    CatEnds(Ch(k), Star(Ch(k)), s, i, i + 1, i + 1, ci);
  }

  lemma TestAt(re: Re, ci: bool, s: string, p: nat, k: nat)
    requires p <= |s| && k in Ends(re, s, p, ci)
    ensures Test(re, ci, s)
  {}

  // Where a match can stop

  /** A run `k*` stops where it started, or right after a character of class `k`. */
  lemma {:induction false} StarChLast(k: Class, s: string, i: nat, m: nat, ci: bool)
    requires i <= |s| && m in StarEnds(Ch(k), s, i, ci)
    ensures m == i || (i < m && Has(k, s[m - 1], ci))
    decreases |s| - i
  {
    if m != i {
      var j :| j in Ends(Ch(k), s, i, ci) && i < j && m in StarEnds(Ch(k), s, j, ci);
      StarChLast(k, s, j, m, ci);
    }
  }

  /** A run `k+` stops right after a character of class `k`. */
  lemma PlusChLast(k: Class, s: string, i: nat, m: nat, ci: bool)
    requires i <= |s| && m in Ends(Plus(Ch(k)), s, i, ci)
    ensures i < m && Has(k, s[m - 1], ci)
  {
    var j :| j in Ends(Ch(k), s, i, ci) && m in Ends(Star(Ch(k)), s, j, ci);
    StarChLast(k, s, j, m, ci);
  }

  /** A match of the chain `rs + t` ends with a match of `t`. */
  lemma {:induction false} ChainTail(rs: seq<Re>, t: seq<Re>, s: string, p: nat, m: nat, ci: bool)
    requires p <= |s| && m in Ends(Chain(rs + t), s, p, ci)
    ensures exists j: nat :: p <= j <= |s| && m in Ends(Chain(t), s, j, ci)
    decreases |rs|
  {
    if rs == [] {
      assert rs + t == t;
    } else {
      assert (rs + t)[0] == rs[0] && (rs + t)[1..] == rs[1..] + t;
      var j :| j in Ends(rs[0], s, p, ci) && m in Ends(Chain(rs[1..] + t), s, j, ci);
      ChainTail(rs[1..], t, s, j, m, ci);
    }
  }
  /** A match of the one-character chain `c` consumes exactly that character. */
  lemma OneCharEnds(c: char, s: string, i: nat, m: nat, ci: bool)
    requires i <= |s| && m in Ends(Chain([Lit([c])]), s, i, ci)
    ensures i < |s| && m == i + 1 && Has(Single(c), s[i], ci)
  {
    assert Chain([Lit([c])]) == Cat(Lit([c]), Chain([]));
    assert Lit([c]) == Cat(Ch(Single(c)), Lit([]));
    var k :| k in Ends(Lit([c]), s, i, ci) && m in Ends(Eps, s, k, ci);
    var l :| l in Ends(Ch(Single(c)), s, i, ci) && k in Ends(Eps, s, l, ci);
  }

  /** A match of `\s+c` ends with the character `c` right after a white-space character. */
  lemma SpaceThenEnds(c: char, s: string, j: nat, m: nat, ci: bool)
    requires j <= |s| && m in Ends(Chain([Spaces1, Lit([c])]), s, j, ci)
    ensures 2 <= m <= |s| && Has(Single(c), s[m - 1], ci) && Has(SpaceClass, s[m - 2], ci)
  {
    assert [Spaces1, Lit([c])][1..] == [Lit([c])];
    var i :| i in Ends(Spaces1, s, j, ci) && m in Ends(Chain([Lit([c])]), s, i, ci);
    PlusChLast(SpaceClass, s, j, i, ci);
    OneCharEnds(c, s, i, m, ci);
  }

  /** A match of `rs` followed by `\s+c` ends with the character `c` right after a white-space
      character. */
  lemma ChainEndsSpaceThen(rs: seq<Re>, c: char, s: string, p: nat, m: nat, ci: bool)
    requires p <= |s| && m in Ends(Chain(rs + [Spaces1, Lit([c])]), s, p, ci)
    ensures 2 <= m <= |s| && Has(Single(c), s[m - 1], ci) && Has(SpaceClass, s[m - 2], ci)
  {
    ChainTail(rs, [Spaces1, Lit([c])], s, p, m, ci);
    var j: nat :| p <= j <= |s| && m in Ends(Chain([Spaces1, Lit([c])]), s, j, ci);
    SpaceThenEnds(c, s, j, m, ci);
  }

  /** Under the `i` flag `\s` still matches only white space. */
  lemma SpaceClassCI(c: char)
    requires InClassCI(SpaceClass, c)
    ensures IsSpace(c)
  {
  }

  /** Under the `i` flag a character that is not a letter matches only itself. */
  lemma SingleNonLetterCI(d: char, c: char)
    requires !IsLower(d) && !IsUpper(d) && InClassCI(Single(d), c)
    ensures c == d
  {
  }
}
