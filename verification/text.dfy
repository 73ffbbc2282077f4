/** Characters and strings as JavaScript and Java see them: the `\s`, `\w`, `\d` and `.`
    classes, `trim`, ASCII case mapping, searching and decimal rendering. */
module Text {
  import opened Wrappers

  /** `\s` of a JavaScript regular expression; also the set `String.prototype.trim` removes. */
  predicate IsSpace(c: char) {
    || c == '\t' || c == '\n' || c == '\U{000B}' || c == '\U{000C}' || c == '\r' || c == ' '
    || c == '\U{00A0}' || c == '\U{1680}' || ('\U{2000}' <= c <= '\U{200A}')
    || c == '\U{2028}' || c == '\U{2029}' || c == '\U{202F}' || c == '\U{205F}'
    || c == '\U{3000}' || c == '\U{FEFF}'
  }

  /** The characters `.` does not match in a JavaScript regular expression. */
  predicate IsLineTerminator(c: char) {
    c == '\n' || c == '\r' || c == '\U{2028}' || c == '\U{2029}'
  }

  predicate IsDigit(c: char) { '0' <= c <= '9' }
  predicate IsUpper(c: char) { 'A' <= c <= 'Z' }
  predicate IsLower(c: char) { 'a' <= c <= 'z' }
  predicate IsLetter(c: char) { IsUpper(c) || IsLower(c) }
  predicate IsAlnum(c: char) { IsLetter(c) || IsDigit(c) }

  /** `\w`. */
  predicate IsWordChar(c: char) { IsAlnum(c) || c == '_' }

  predicate IsQuote(c: char) { c == '"' || c == '\'' }

  /** ASCII upper case; every other character is left alone. */
  function ToUpper(c: char): (u: char)
    ensures IsLower(c) ==> IsUpper(u) && u as int == c as int - 32
    ensures !IsLower(c) ==> u == c
  {
    if IsLower(c) then (c as int - 32) as char else c
  }

  /** ASCII lower case; every other character is left alone. */
  function ToLower(c: char): (l: char)
    ensures IsUpper(c) ==> IsLower(l) && l as int == c as int + 32
    ensures !IsUpper(c) ==> l == c
  {
    if IsUpper(c) then (c as int + 32) as char else c
  }

  function UpperStr(s: string): (r: string)
    ensures |r| == |s|
  {
    seq(|s|, i requires 0 <= i < |s| => ToUpper(s[i]))
  }

  function LowerStr(s: string): (r: string)
    ensures |r| == |s|
  {
    seq(|s|, i requires 0 <= i < |s| => ToLower(s[i]))
  }

  /** Two characters are equal up to ASCII case exactly when their upper-case images are. */
  predicate SameIgnoringCase(a: char, b: char) { ToUpper(a) == ToUpper(b) }

  lemma UpperKeepsWordChar(c: char)
    ensures IsWordChar(ToUpper(c)) <==> IsWordChar(c)
  {}

  lemma UpperIdempotent(c: char)
    ensures ToUpper(ToUpper(c)) == ToUpper(c)
  {}

  /** `w` occurs in `s` at position `i`. */
  predicate StartsAt(s: string, i: nat, w: string) {
    i + |w| <= |s| && s[i..i + |w|] == w
  }

  /** `s.includes(w)`. */
  predicate Contains(s: string, w: string) {
    exists i: nat :: i <= |s| && StartsAt(s, i, w)
  }

  /** `s.indexOf(w, from)`, `None` standing for -1. */
  function IndexOf(s: string, w: string, from: nat): (r: Option<nat>)
    requires from <= |s|
    ensures r.Some? ==> from <= r.value <= |s| && StartsAt(s, r.value, w)
    ensures r.Some? ==> forall j: nat :: from <= j < r.value ==> !StartsAt(s, j, w)
    ensures r.None? ==> forall j: nat :: from <= j <= |s| ==> !StartsAt(s, j, w)
    decreases |s| - from
  {
    if StartsAt(s, from, w) then Some(from)
    else if from == |s| then None
    else IndexOf(s, w, from + 1)
  }

  lemma IndexOfFindsContained(s: string, w: string)
    ensures Contains(s, w) <==> IndexOf(s, w, 0).Some?
  {
    if Contains(s, w) {
      var i: nat :| i <= |s| && StartsAt(s, i, w);
    }
  }

  /** The end of the run of `\s` characters that starts at `i`. */
  function SkipSpaces(s: string, i: nat): (r: nat)
    requires i <= |s|
    ensures i <= r <= |s|
    ensures forall k :: i <= k < r ==> IsSpace(s[k])
    ensures r == |s| || !IsSpace(s[r])
    decreases |s| - i
  {
    if i < |s| && IsSpace(s[i]) then SkipSpaces(s, i + 1) else i
  }

  /** The end of the run of `\w` characters that starts at `i`. */
  function SkipWordChars(s: string, i: nat): (r: nat)
    requires i <= |s|
    ensures i <= r <= |s|
    ensures forall k :: i <= k < r ==> IsWordChar(s[k])
    ensures r == |s| || !IsWordChar(s[r])
    decreases |s| - i
  {
    if i < |s| && IsWordChar(s[i]) then SkipWordChars(s, i + 1) else i
  }

  /** The end of the run of `[a-zA-Z0-9]` characters that starts at `i`. */
  function SkipAlnum(s: string, i: nat): (r: nat)
    requires i <= |s|
    ensures i <= r <= |s|
    ensures forall k :: i <= k < r ==> IsAlnum(s[k])
    ensures r == |s| || !IsAlnum(s[r])
    decreases |s| - i
  {
    if i < |s| && IsAlnum(s[i]) then SkipAlnum(s, i + 1) else i
  }

  /** The end of the run of `[0-9]` characters that starts at `i`. */
  function SkipDigits(s: string, i: nat): (r: nat)
    requires i <= |s|
    ensures i <= r <= |s|
    ensures forall k :: i <= k < r ==> IsDigit(s[k])
    ensures r == |s| || !IsDigit(s[r])
    decreases |s| - i
  {
    if i < |s| && IsDigit(s[i]) then SkipDigits(s, i + 1) else i
  }

  predicate AllSpace(s: string) {
    forall i :: 0 <= i < |s| ==> IsSpace(s[i])
  }

  /** `trimStart`: drops the leading `\s` run. */
  function TrimStart(s: string): (r: string)
    ensures |r| <= |s| && r == s[|s| - |r|..]
    ensures AllSpace(s[..|s| - |r|])
    ensures r == [] || !IsSpace(r[0])
    decreases |s|
  {
    if |s| > 0 && IsSpace(s[0]) then
      var r := TrimStart(s[1..]);
      assert s[..|s| - |r|] == [s[0]] + s[1..][..|s| - 1 - |r|];
      r
    else s
  }

  /** `trimEnd`: drops the trailing `\s` run. */
  function TrimEnd(s: string): (r: string)
    ensures |r| <= |s| && r == s[..|r|]
    ensures AllSpace(s[|r|..])
    ensures r == [] || !IsSpace(r[|r| - 1])
    decreases |s|
  {
    if |s| > 0 && IsSpace(s[|s| - 1]) then
      var r := TrimEnd(s[..|s| - 1]);
      assert s[|r|..] == s[..|s| - 1][|r|..] + [s[|s| - 1]];
      r
    else s
  }

  /** JavaScript `trim`. */
  function Trim(s: string): string {
    TrimEnd(TrimStart(s))
  }

  /** Trimming only drops characters. */
  lemma TrimChars(s: string)
    ensures forall c :: c in Trim(s) ==> c in s
  {
    var t1 := TrimStart(s);
    var t := TrimEnd(t1);
    forall c | c in t ensures c in s {
      var k :| 0 <= k < |t| && t[k] == c;
      assert t[k] == t1[k] == s[|s| - |t1| + k];
    }
  }

  lemma TrimEnds(s: string)
    ensures Trim(s) == [] || (!IsSpace(Trim(s)[0]) && !IsSpace(Trim(s)[|Trim(s)| - 1]))
  {
    var t := TrimStart(s);
    var r := TrimEnd(t);
    if r != [] {
      assert r[0] == t[0];
    }
  }

  lemma TrimOfTrimmed(s: string)
    requires s == [] || (!IsSpace(s[0]) && !IsSpace(s[|s| - 1]))
    ensures Trim(s) == s
  {}

  /** `Trim(s)` is empty exactly when `s` is all `\s`. */
  lemma TrimEmptyIffBlank(s: string)
    ensures Trim(s) == [] <==> AllSpace(s)
  {
    var t := TrimStart(s);
    if t != [] {
      assert TrimEnd(t)[0] == t[0] || TrimEnd(t) == [];
      assert !IsSpace(s[|s| - |t|]);
    }
  }

  /** Java `String.trim`: strips code units up to U+0020 at both ends. */
  predicate IsJavaBlank(c: char) { c <= ' ' }

  function JavaTrimStart(s: string): (r: string)
    ensures |r| <= |s| && r == s[|s| - |r|..]
    ensures r == [] || !IsJavaBlank(r[0])
    decreases |s|
  {
    if |s| > 0 && IsJavaBlank(s[0]) then JavaTrimStart(s[1..]) else s
  }

  function JavaTrim(s: string): (r: string)
    ensures r == [] || (!IsJavaBlank(r[0]) && !IsJavaBlank(r[|r| - 1]))
    decreases |s|
  {
    var t := JavaTrimStart(s);
    if |t| > 0 && IsJavaBlank(t[|t| - 1]) then JavaTrim(t[..|t| - 1]) else t
  }

  /** `s.replace(/\s+/g, ' ')`: every maximal `\s` run becomes one space. */
  function CollapseSpaces(s: string): (r: string)
    ensures Collapsed(r)
    ensures r == [] <==> s == []
    ensures s != [] && !IsSpace(s[0]) ==> r[0] == s[0]
    decreases |s|
  {
    if s == [] then []
    else if IsSpace(s[0]) then
      var rest := s[SkipSpaces(s, 0)..];
      assert rest == [] || !IsSpace(rest[0]);
      [' '] + CollapseSpaces(rest)
    else [s[0]] + CollapseSpaces(s[1..])
  }

  /** Every `\s` character is a plain space and no two of them are adjacent. */
  predicate Collapsed(s: string) {
    forall i :: 0 <= i < |s| && IsSpace(s[i]) ==> s[i] == ' ' && (i + 1 == |s| || !IsSpace(s[i + 1]))
  }

  lemma CollapsedSlice(s: string, a: nat, b: nat)
    requires Collapsed(s) && a <= b <= |s|
    ensures Collapsed(s[a..b])
  {
    forall i | 0 <= i < |s[a..b]| && IsSpace(s[a..b][i])
      ensures s[a..b][i] == ' ' && (i + 1 == |s[a..b]| || !IsSpace(s[a..b][i + 1]))
    {
      assert s[a..b][i] == s[a + i];
    }
  }

  lemma {:induction false} CollapseSpacesOfCollapsed(s: string)
    requires Collapsed(s)
    ensures CollapseSpaces(s) == s
    decreases |s|
  {
    if s != [] {
      var tail := s[1..];
      assert Collapsed(tail) by {
        CollapsedSlice(s, 1, |s|);
        assert s[1..|s|] == tail;
      }
      CollapseSpacesOfCollapsed(tail);
      if IsSpace(s[0]) {
        assert s[0] == ' ' && (1 == |s| || !IsSpace(s[1]));
        assert SkipSpaces(s, 0) == 1 by {
          assert SkipSpaces(s, 0) == SkipSpaces(s, 1);
        }
        assert CollapseSpaces(s) == [' '] + CollapseSpaces(tail);
      } else {
        assert CollapseSpaces(s) == [s[0]] + CollapseSpaces(tail);
      }
      assert s == [s[0]] + tail;
    }
  }

  lemma TrimKeepsCollapsed(s: string)
    requires Collapsed(s)
    ensures Collapsed(Trim(s))
  {
    var t := TrimStart(s);
    CollapsedSlice(s, |s| - |t|, |s|);
    var r := TrimEnd(t);
    CollapsedSlice(t, 0, |r|);
  }

  function DigitChar(d: nat): (c: char)
    requires d < 10
    ensures IsDigit(c)
  {
    ('0' as int + d) as char
  }

  /** Decimal rendering of a natural number, as JavaScript template strings and Java string
      concatenation print it. */
  function NatToString(n: nat): (r: string)
    ensures |r| >= 1
    ensures forall i :: 0 <= i < |r| ==> IsDigit(r[i])
    ensures n >= 10 ==> r[0] != '0'
  {
    if n < 10 then [DigitChar(n)] else NatToString(n / 10) + [DigitChar(n % 10)]
  }

  predicate AllDigits(s: string) {
    forall i :: 0 <= i < |s| ==> IsDigit(s[i])
  }

  /** The number a run of decimal digits denotes, leading zeros allowed (the arithmetic of
      Java's `Long.parseLong` and `Integer.parseInt` before their range checks). */
  function DigitsValue(s: string): nat
    requires AllDigits(s)
    decreases |s|
  {
    if s == [] then 0 else DigitsValue(s[..|s| - 1]) * 10 + (s[|s| - 1] as int - '0' as int)
  }

  /** Reading back a rendered number gives the number. */
  lemma {:induction false} DigitsValueOfNatToString(n: nat)
    ensures AllDigits(NatToString(n)) && DigitsValue(NatToString(n)) == n
  {
    var r := NatToString(n);
    if n >= 10 {
      assert r[..|r| - 1] == NatToString(n / 10);
      DigitsValueOfNatToString(n / 10);
    }
  }

  /** Different numbers render differently. */
  lemma NatToStringInjective(a: nat, b: nat)
    ensures NatToString(a) == NatToString(b) ==> a == b
  {
    DigitsValueOfNatToString(a);
    DigitsValueOfNatToString(b);
  }

  /** Java `trim` leaves nothing exactly when every code unit is at most U+0020. */
  lemma {:induction false} JavaTrimEmptyIffBlank(s: string)
    ensures JavaTrim(s) == [] <==> forall i :: 0 <= i < |s| ==> IsJavaBlank(s[i])
    decreases |s|
  {
    var t := JavaTrimStart(s);
    JavaTrimStartBlank(s);
    if |t| > 0 && IsJavaBlank(t[|t| - 1]) {
      JavaTrimEmptyIffBlank(t[..|t| - 1]);
      assert !IsJavaBlank(t[0]);
      assert t[..|t| - 1][0] == t[0];
      assert s[|s| - |t|] == t[0];
    } else if t != [] {
      assert s[|s| - |t|] == t[0];
    }
  }

  lemma {:induction false} JavaTrimStartBlank(s: string)
    ensures JavaTrimStart(s) == [] <==> forall i :: 0 <= i < |s| ==> IsJavaBlank(s[i])
    decreases |s|
  {
    if |s| > 0 && IsJavaBlank(s[0]) {
      JavaTrimStartBlank(s[1..]);
      if forall i :: 0 <= i < |s[1..]| ==> IsJavaBlank(s[1..][i]) {
        forall i | 0 <= i < |s| ensures IsJavaBlank(s[i]) {
          if i > 0 { assert s[i] == s[1..][i - 1]; }
        }
      }
    }
  }

  /** The number of occurrences of `c` in `s` (`(s.match(/c/g) || []).length`). */
  function CountChar(s: string, c: char): (n: nat)
    ensures n <= |s|
    ensures n == 0 <==> c !in s
  {
    if s == [] then 0 else (if s[0] == c then 1 else 0) + CountChar(s[1..], c)
  }
}
