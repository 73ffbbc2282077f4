/** The pure part of the query executor (server/src/main/java/com/querytester/QueryExecutor.java):
    converting a request parameter to the value handed to JPA, binding each parameter by name
    or by position, shaping native result rows into column maps, and the two entry points around
    the Hibernate session, which stays outside the model. */
module QueryExecutor {
  import opened Wrappers
  import opened Text
  import opened JavaValues
  import opened QueryResult
  import opened Seqs

  // ---------------------------------------------------------------------------------------
  // String shapes tested by convertParameterValue

  /** The characters `.` of a Java regular expression does not match. */
  predicate IsJavaLineTerminator(c: char) {
    c == '\n' || c == '\r' || c == '\U{0085}' || c == '\U{2028}' || c == '\U{2029}'
  }

  /** `s.matches(".*[a-zA-Z].*")`: an ASCII letter and no line terminator anywhere. */
  predicate LooksLikeText(s: string) {
    (exists i :: 0 <= i < |s| && IsLetter(s[i])) &&
    forall i :: 0 <= i < |s| ==> !IsJavaLineTerminator(s[i])
  }

  /** Java's `Character.toUpperCase` as far as it can make a character equal to an ASCII one:
      ASCII letters, the dotless i and the long s. */
  function JavaUpper(c: char): (u: char)
    ensures IsLetter(u) && !IsLetter(c) ==> c == '\U{0131}' || c == '\U{017F}'
  {
    if c == '\U{0131}' then 'I' else if c == '\U{017F}' then 'S' else ToUpper(c)
  }

  /** `a.equalsIgnoreCase(w)` for an ASCII word `w` made of letters other than `i` and `k`, the
      only ones where Java's second, lower-case comparison could add a match. */
  predicate EqualsIgnoreCase(a: string, w: string) {
    |a| == |w| && forall i :: 0 <= i < |a| ==> a[i] == w[i] || JavaUpper(a[i]) == JavaUpper(w[i])
  }

  /** `isLikelyBoolean`. */
  predicate LikelyBoolean(s: string) {
    EqualsIgnoreCase(s, "true") || EqualsIgnoreCase(s, "false") || EqualsIgnoreCase(s, "yes") ||
    EqualsIgnoreCase(s, "no") || EqualsIgnoreCase(s, "y") || EqualsIgnoreCase(s, "n") ||
    s == "1" || s == "0"
  }

  /** The boolean a boolean-like string converts to. */
  predicate TruthWord(s: string) {
    EqualsIgnoreCase(s, "true") || EqualsIgnoreCase(s, "yes") || EqualsIgnoreCase(s, "y") ||
    EqualsIgnoreCase(s, "1")
  }

  /** The exponent part `[Ee][+-]?\d+` of a numeral. */
  datatype Exponent = Exponent(marker: char, sign: Option<char>, digits: string)

  /** A string matching `^-?\d+(\.\d+)?([Ee][+-]?\d+)?$`, split into its parts. */
  datatype Numeral = Numeral(negative: bool, whole: string, fraction: Option<string>, exponent: Option<Exponent>)

  predicate NonEmptyDigits(s: string) { |s| >= 1 && AllDigits(s) }

  predicate ExponentFormed(x: Option<Exponent>) {
    x.Some? ==>
      (x.value.marker == 'e' || x.value.marker == 'E') &&
      (x.value.sign.Some? ==> x.value.sign.value == '+' || x.value.sign.value == '-') &&
      NonEmptyDigits(x.value.digits)
  }

  predicate FractionFormed(f: Option<string>) {
    f.Some? ==> NonEmptyDigits(f.value)
  }

  predicate WellFormed(n: Numeral) {
    NonEmptyDigits(n.whole) && FractionFormed(n.fraction) && ExponentFormed(n.exponent)
  }

  function ExponentText(x: Option<Exponent>): string {
    if x.None? then "" else [x.value.marker] + (if x.value.sign.Some? then [x.value.sign.value] else []) + x.value.digits
  }

  function FractionText(f: Option<string>): string {
    if f.None? then "" else "." + f.value
  }

  function SignText(negative: bool): string {
    if negative then "-" else ""
  }

  /** The text after the whole part. */
  function TailText(f: Option<string>, x: Option<Exponent>): string {
    FractionText(f) + ExponentText(x)
  }

  /** The text of a numeral. */
  function RenderNumeral(n: Numeral): string {
    SignText(n.negative) + (n.whole + TailText(n.fraction, n.exponent))
  }

  /** The digits `SkipDigits` passes over. */
  lemma DigitRun(s: string, i: nat)
    requires i <= |s|
    ensures AllDigits(s[i..SkipDigits(s, i)])
  {
    var r := s[i..SkipDigits(s, i)];
    forall k | 0 <= k < |r| ensures IsDigit(r[k]) { assert r[k] == s[i + k]; }
  }

  /** `s`, cut at `a` and `b`. */
  lemma CutTwice(s: string, a: nat, b: nat)
    requires a <= b <= |s|
    ensures s == s[..a] + (s[a..b] + s[b..])
  {}

  /** `([Ee][+-]?\d+)?` up to the end of `t`. */
  function ParseExponent(t: string): (r: Option<Option<Exponent>>)
    ensures r.Some? ==> ExponentFormed(r.value) && ExponentText(r.value) == t
  {
    if t == [] then Some(None)
    else if t[0] == 'e' || t[0] == 'E' then
      var k := if 1 < |t| && (t[1] == '+' || t[1] == '-') then 2 else 1;
      if NonEmptyDigits(t[k..]) then
        var x := Exponent(t[0], if k == 2 then Some(t[1]) else None, t[k..]);
        assert ExponentText(Some(x)) == t by {
          if k == 2 { assert t == [t[0]] + [t[1]] + t[2..]; } else { assert t == [t[0]] + t[1..]; }
        }
        Some(Some(x))
      else None
    else None
  }

  /** `(\.\d+)?([Ee][+-]?\d+)?` up to the end of `t`. The fraction is greedy, and a shorter one
      would leave a digit where only an exponent or the end may follow. */
  function ParseAfterWhole(t: string): (r: Option<(Option<string>, Option<Exponent>)>)
    ensures r.Some? ==> FractionFormed(r.value.0) && ExponentFormed(r.value.1)
    ensures r.Some? ==> TailText(r.value.0, r.value.1) == t
  {
    if 1 < |t| && t[0] == '.' && IsDigit(t[1]) then
      var c := SkipDigits(t, 1);
      match ParseExponent(t[c..])
      case None => None
      case Some(x) =>
        DigitRun(t, 1);
        CutTwice(t, 1, c);
        assert t[..1] == ".";
        Some((Some(t[1..c]), x))
    else
      match ParseExponent(t)
      case None => None
      case Some(x) => Some((None, x))
  }

  /** The numeral pattern, scanned. */
  function ParseNumeral(s: string): (r: Option<Numeral>)
    ensures r.Some? ==> WellFormed(r.value) && RenderNumeral(r.value) == s
  {
    var a := if 0 < |s| && s[0] == '-' then 1 else 0;
    var b := SkipDigits(s, a);
    if b == a then None
    else
      match ParseAfterWhole(s[b..])
      case None => None
      case Some((f, x)) =>
        DigitRun(s, a);
        CutTwice(s, a, b);
        assert s[..a] == SignText(a == 1);
        Some(Numeral(a == 1, s[a..b], f, x))
  }


  /** `SkipDigits` runs to the end of a digit run that is not followed by a digit. */
  lemma {:induction false} SkipDigitsOver(s: string, i: nat, j: nat)
    requires i <= j <= |s| && AllDigits(s[i..j]) && (j == |s| || !IsDigit(s[j]))
    ensures SkipDigits(s, i) == j
    decreases j - i
  {
    if i < j {
      assert s[i] == s[i..j][0];
      var rest := s[i + 1..j];
      assert AllDigits(rest) by {
        forall k | 0 <= k < |rest| ensures IsDigit(rest[k]) {
          assert rest[k] == s[i..j][k + 1];
        }
      }
      SkipDigitsOver(s, i + 1, j);
    }
  }

  lemma ParseExponentOfText(x: Option<Exponent>)
    requires ExponentFormed(x)
    ensures ParseExponent(ExponentText(x)) == Some(x)
  {
    if x.Some? {
      var t := ExponentText(x);
      if x.value.sign.Some? {
        assert t[2..] == x.value.digits;
      } else {
        assert t[1..] == x.value.digits;
      }
    }
  }

  lemma ParseAfterWholeOfText(f: Option<string>, x: Option<Exponent>)
    requires FractionFormed(f) && ExponentFormed(x)
    ensures ParseAfterWhole(TailText(f, x)) == Some((f, x))
  {
    var t := TailText(f, x);
    var e := ExponentText(x);
    ParseExponentOfText(x);
    if f.Some? {
      var c := 1 + |f.value|;
      assert t[1..c] == f.value && t[c..] == e;
      assert t[1] == f.value[0];
      SkipDigitsOver(t, 1, c);
    } else {
      assert t == e;
    }
  }

  /** The scanner reads the parts of a well-formed numeral back: with `ParseNumeral`'s own
      contract, the two are inverse. */
  lemma RenderNumeralParses(n: Numeral)
    requires WellFormed(n)
    ensures ParseNumeral(RenderNumeral(n)) == Some(n)
  {
    var s := RenderNumeral(n);
    var a := if n.negative then 1 else 0;
    RenderedSign(n);
    RenderedWholeEnds(n);
    ParseAfterWholeOfText(n.fraction, n.exponent);
    var b := a + |n.whole|;
    assert ParseAfterWhole(s[b..]) == Some((n.fraction, n.exponent));
    assert Numeral(a == 1, s[a..b], n.fraction, n.exponent) == n;
  }

  /** The sign test of the scanner sees the rendered sign: an unsigned numeral starts with a digit. */
  lemma RenderedSign(n: Numeral)
    requires WellFormed(n)
    ensures var s := RenderNumeral(n); (if 0 < |s| && s[0] == '-' then 1 else 0) == (if n.negative then 1 else 0)
  {
    if !n.negative { assert RenderNumeral(n)[0] == n.whole[0]; }
  }

  /** The rendered whole part sits after the sign and the digit run stops right after it. */
  lemma RenderedWholeEnds(n: Numeral)
    requires WellFormed(n)
    ensures var s := RenderNumeral(n); var a := if n.negative then 1 else 0;
      a + |n.whole| <= |s| && s[a..a + |n.whole|] == n.whole && s[a + |n.whole|..] == TailText(n.fraction, n.exponent) &&
      SkipDigits(s, a) == a + |n.whole|
  {
    var s := RenderNumeral(n);
    var a := if n.negative then 1 else 0;
    var b := a + |n.whole|;
    var t := TailText(n.fraction, n.exponent);
    RenderedSlices(n);
    TailStartsOff(n.fraction, n.exponent);
    if b < |s| {
      assert s[b] == t[0];
    }
    SkipDigitsOver(s, a, b);
  }

  lemma RenderedSlices(n: Numeral)
    ensures var s := RenderNumeral(n); var a := if n.negative then 1 else 0;
      a + |n.whole| <= |s| && s[a..a + |n.whole|] == n.whole && s[a + |n.whole|..] == TailText(n.fraction, n.exponent)
  {
    var s := RenderNumeral(n);
    var a := if n.negative then 1 else 0;
    assert s[a..] == n.whole + TailText(n.fraction, n.exponent);
  }

  /** The text after the whole part, when there is any, starts with `.` or an exponent marker. */
  lemma TailStartsOff(f: Option<string>, x: Option<Exponent>)
    requires ExponentFormed(x)
    ensures var t := TailText(f, x); t != [] ==> !IsDigit(t[0])
  {
  }

  /** `s` has the layout of `shape`, where `d` stands for an ASCII digit, `x` for a hexadecimal
      digit and every other character for itself. */
  predicate Fits(s: string, shape: string) {
    |s| == |shape| && forall i :: 0 <= i < |s| ==> FitsChar(s[i], shape[i])
  }

  predicate FitsChar(c: char, k: char) {
    if k == 'd' then IsDigit(c)
    else if k == 'x' then IsDigit(c) || 'a' <= c <= 'f' || 'A' <= c <= 'F'
    else c == k
  }

  /** `(Z|[+-]\d{2}:?\d{2})?` followed by the end. */
  predicate Zone(z: string) {
    z == [] || z == "Z" || Fits(z, "+dddd") || Fits(z, "-dddd") || Fits(z, "+dd:dd") || Fits(z, "-dd:dd")
  }

  /** `^\d{4}-\d{2}-\d{2}[T ]\d{2}:\d{2}:\d{2}(\.\d+)?(Z|[+-]\d{2}:?\d{2})?$`; the fraction is
      greedy and a zone never starts with a digit, so trying the longest fraction is exact. */
  predicate IsoDateTime(s: string) {
    |s| >= 19 && Fits(s[..10], "dddd-dd-dd") && (s[10] == 'T' || s[10] == ' ') &&
    Fits(s[11..19], "dd:dd:dd") &&
    var f := if 20 < |s| && s[19] == '.' && IsDigit(s[20]) then SkipDigits(s, 20) else 19;
    Zone(s[f..])
  }

  /** `isLikelyDateFormat`. */
  predicate LikelyDateFormat(s: string) {
    Fits(s, "dddd-dd-dd") || Fits(s, "dd/dd/dddd") || Fits(s, "dddddddd") || IsoDateTime(s) ||
    Fits(s, "dd/dd/dddd dd:dd:dd") || Fits(s, "dd:dd") || Fits(s, "dd:dd:dd")
  }

  /** The 8-4-4-4-12 hexadecimal layout `UUID.fromString` accepts. */
  predicate UuidShape(s: string) {
    Fits(s, "xxxxxxxx-xxxx-xxxx-xxxx-xxxxxxxxxxxx")
  }

  // ---------------------------------------------------------------------------------------
  // convertParameterValue

  /** The boxed integer Java picks for a parsed whole number: `Integer` within 32 bits, `Long`
      within 64 bits, `BigInteger` beyond. */
  function IntegerValue(n: int): (v: Value)
    ensures v.Int32? || v.Int64? || v.Big?
    ensures v.Int32? <==> -0x8000_0000 <= n < 0x8000_0000
    ensures v.Int64? <==> (-0x8000_0000_0000_0000 <= n < 0x8000_0000_0000_0000 && !v.Int32?)
    ensures v.i == n
  {
    if -0x8000_0000 <= n < 0x8000_0000 then Int32(n)
    else if -0x8000_0000_0000_0000 <= n < 0x8000_0000_0000_0000 then Int64(n)
    else Big(n)
  }

  /** `isJpaStandardType` for everything that reaches it (arrays, among them `byte[]` and
      `Byte[]`, are turned into lists before the test). */
  predicate IsJpaStandard(v: Value) {
    IsNumber(v) || v.Bool? || v.Character? || v.Time? || v.Calendar? || v.Uuid? || v.EnumConstant?
  }

  /** `m`, negated when `negative`. */
  function Signed(negative: bool, m: nat): int {
    if negative then 0 - m else m
  }

  /** The value of a numeral: a whole number without point or exponent; otherwise the
      `BigDecimal` of its text, whose scale is the number of fraction digits less the exponent. */
  function NumberValue(n: Numeral): (v: Value)
    requires WellFormed(n)
    ensures n.fraction.None? && n.exponent.None? ==> v == IntegerValue(Signed(n.negative, DigitsValue(n.whole)))
    ensures n.fraction.Some? || n.exponent.Some? ==> v.Decimal?
    ensures IsNumber(v)
  {
    if n.fraction.None? && n.exponent.None? then IntegerValue(Signed(n.negative, DigitsValue(n.whole)))
    else
      var digits := n.whole + (if n.fraction.Some? then n.fraction.value else "");
      assert AllDigits(digits) by {
        forall i | 0 <= i < |digits| ensures IsDigit(digits[i]) {
          if i >= |n.whole| { assert digits[i] == n.fraction.value[i - |n.whole|]; }
        }
      }
      var places := if n.fraction.Some? then |n.fraction.value| else 0;
      var exp := if n.exponent.None? then 0
        else Signed(n.exponent.value.sign == Some('-'), DigitsValue(n.exponent.value.digits));
      Decimal(Signed(n.negative, DigitsValue(digits)), places - exp)
  }

  /** Conversions tried once a string is neither blank nor plain text, in the source's order.
      Dates go through `parseDate`, which stands for `tryParseDateTime`; a UUID keeps its text. */
  function ConvertData(s: string, parseDate: string -> Option<Temporal>): (v: Value)
    ensures v.Str? || IsJpaStandard(v)
    ensures !v.Null? && !v.Collection?
    ensures v.Str? ==> v.s == s
    ensures ParseNumeral(s).Some? ==> v == NumberValue(ParseNumeral(s).value)
    ensures ParseNumeral(s).None? ==> (v.Bool? <==> LikelyBoolean(s))
    ensures v.Bool? ==> v.b == TruthWord(s)
    ensures v.Uuid? ==> UuidShape(s) && v.text == s
    ensures v.Time? ==> LikelyDateFormat(s) && parseDate(s) == Some(v.t)
  {
    if ParseNumeral(s).Some? then NumberValue(ParseNumeral(s).value)
    else if LikelyBoolean(s) then Bool(TruthWord(s))
    else if LikelyDateFormat(s) && parseDate(s).Some? then Time(parseDate(s).value)
    else if UuidShape(s) then Uuid(s)
    else Str(s)
  }

  /** Blank strings and strings that look like text (and not like a boolean) are kept. */
  predicate KeptAsIs(s: string) {
    JavaTrim(s) == [] || (LooksLikeText(s) && !LikelyBoolean(s))
  }

  /** What a string parameter becomes. */
  function ConvertString(s: string, parseDate: string -> Option<Temporal>): (v: Value)
    ensures v.Str? || IsJpaStandard(v)
    ensures !v.Null? && !v.Collection?
    ensures v.Str? ==> v.s == s
    ensures KeptAsIs(s) ==> v == Str(s)
    ensures !KeptAsIs(s) ==> v == ConvertData(s, parseDate)
  {
    if KeptAsIs(s) then Str(s) else ConvertData(s, parseDate)
  }

  /** `convertParameterValue`. */
  function ConvertParameterValue(v: Value, parseDate: string -> Option<Temporal>): (r: Value)
    ensures (IsArray(v) || v.Collection?) <==> r.Collection?
    ensures (IsArray(v) || v.Collection?) ==> r.items == ConvertAll(v.items, parseDate)
    ensures !v.Str? && !IsArray(v) && !v.Collection? ==> r == v
    ensures v.Str? ==> r == ConvertString(v.s, parseDate)
    decreases v, 1
  {
    if IsArray(v) || v.Collection? then Collection(ConvertAll(v.items, parseDate))
    else if v.Str? then ConvertString(v.s, parseDate)
    // Standard JPA types come back as they are; so does every other object (the
    // `java.util.Date` conversion after the string case is unreachable, as a `Date` is
    // already a standard type).
    else v
  }

  /** A collection or array, converted element by element into a list. */
  function ConvertAll(xs: seq<Value>, parseDate: string -> Option<Temporal>): (r: seq<Value>)
    ensures |r| == |xs|
    ensures forall i :: 0 <= i < |xs| ==> r[i] == ConvertParameterValue(xs[i], parseDate)
    decreases xs, 0
  {
    if xs == [] then [] else [ConvertParameterValue(xs[0], parseDate)] + ConvertAll(xs[1..], parseDate)
  }

  /** Only null converts to null; a string that stays a string stays the same string; every
      other result is a list, a value JPA accepts as it is, or the object passed in. */
  lemma ConvertedKinds(v: Value, parseDate: string -> Option<Temporal>)
    ensures var r := ConvertParameterValue(v, parseDate);
      (r.Null? <==> v.Null?) && (r.Str? ==> r == v) &&
      (r.Null? || r.Str? || r.Collection? || IsJpaStandard(r) || r == v)
  {
    if v.Str? {
      StringKinds(v.s, parseDate);
    }
  }

  /** A converted string is never null: it stays the same string or becomes a standard type. */
  lemma StringKinds(s: string, parseDate: string -> Option<Temporal>)
    ensures var c := ConvertString(s, parseDate);
      !c.Null? && (c.Str? ==> c == Str(s)) && (c.Str? || IsJpaStandard(c))
  {
    var c := ConvertString(s, parseDate);
    if KeptAsIs(s) {
      assert c == Str(s);
    } else {
      var d := ConvertData(s, parseDate);
      assert c == d;
      assert d.Str? || IsJpaStandard(d);
    }
  }

  /** Converting twice is converting once: strings that stay strings are exactly the ones
      conversion leaves alone, and every other result is left alone. */
  lemma {:induction false} ConvertIdempotent(v: Value, parseDate: string -> Option<Temporal>)
    ensures ConvertParameterValue(ConvertParameterValue(v, parseDate), parseDate) == ConvertParameterValue(v, parseDate)
    decreases v
  {
    var r := ConvertParameterValue(v, parseDate);
    if IsArray(v) || v.Collection? {
      var twice := ConvertParameterValue(r, parseDate);
      forall i | 0 <= i < |r.items| ensures twice.items[i] == r.items[i] {
        ConvertIdempotent(v.items[i], parseDate);
      }
      assert twice.items == r.items;
    } else if v.Str? {
      if r.Str? {
        assert r == v;
      } else {
        ConvertedKinds(v, parseDate);
        assert r.Null? || IsJpaStandard(r) by {
          if ParseNumeral(v.s).Some? && r == NumberValue(ParseNumeral(v.s).value) {
            assert IsNumber(r);
          }
        }
      }
    }
  }

  /** A string with a non-blank first character. */
  lemma NonBlankStart(s: string)
    requires |s| > 0 && !IsJavaBlank(s[0])
    ensures JavaTrim(s) != []
  {
    JavaTrimEmptyIffBlank(s);
  }

  /** `-?` followed by the decimal digits of a whole number. */
  function IntText(n: int): string {
    (if n < 0 then "-" else "") + NatToString(Abs(n))
  }

  /** The magnitude of `n`. */
  function Abs(n: int): nat {
    if n < 0 then -n else n
  }

  lemma IntTextParses(n: int)
    ensures ParseNumeral(IntText(n)) == Some(Numeral(n < 0, NatToString(Abs(n)), None, None))
  {
    var numeral := Numeral(n < 0, NatToString(Abs(n)), None, None);
    assert IntText(n) == RenderNumeral(numeral);
    RenderNumeralParses(numeral);
  }

  lemma IntTextNotKept(n: int)
    ensures !KeptAsIs(IntText(n))
  {
    var s := IntText(n);
    var d := NatToString(Abs(n));
    NonBlankStart(s);
    forall i | 0 <= i < |s| ensures !IsLetter(s[i]) {
      if n < 0 && i > 0 {
        assert s[i] == d[i - 1];
      } else if n >= 0 {
        assert s[i] == d[i];
      }
    }
  }

  /** The decimal text of any whole number converts to that number, boxed as `Integer`, `Long`
      or `BigInteger` by its range. */
  lemma IntegerTextConverts(n: int, parseDate: string -> Option<Temporal>)
    ensures ConvertString(IntText(n), parseDate) == IntegerValue(n)
  {
    var s := IntText(n);
    IntTextNotKept(n);
    IntTextParses(n);
    DigitsValueOfNatToString(Abs(n));
    var numeral := ParseNumeral(s).value;
    assert NumberValue(numeral) == IntegerValue(n);
  }

  /** `"1"` and `"0"` are numbers before they are booleans. */
  lemma OneAndZeroAreIntegers(parseDate: string -> Option<Temporal>)
    ensures ConvertString("1", parseDate) == Int32(1)
    ensures ConvertString("0", parseDate) == Int32(0)
  {
    assert IntText(1) == "1" by { assert NatToString(1) == [DigitChar(1)]; }
    assert IntText(0) == "0" by { assert NatToString(0) == [DigitChar(0)]; }
    IntegerTextConverts(1, parseDate);
    IntegerTextConverts(0, parseDate);
  }

  /** A numeral starts with a minus sign or a digit. */
  lemma NumeralStart(s: string)
    ensures ParseNumeral(s).Some? ==> |s| > 0 && (s[0] == '-' || IsDigit(s[0]))
  {
    var a := if 0 < |s| && s[0] == '-' then 1 else 0;
    var b := SkipDigits(s, a);
    if ParseNumeral(s).Some? {
      assert b > a && IsDigit(s[a]);
    }
  }

  /** Every other boolean-like word converts to a boolean, true exactly for `true`, `yes` and
      `y` in any letter case. */
  lemma BooleanWordsConvert(s: string, parseDate: string -> Option<Temporal>)
    requires LikelyBoolean(s) && s != "1" && s != "0"
    ensures ConvertString(s, parseDate) ==
      Bool(EqualsIgnoreCase(s, "true") || EqualsIgnoreCase(s, "yes") || EqualsIgnoreCase(s, "y"))
  {
    BooleanWordStart(s);
    BooleanWordIsData(s, parseDate);
    LetterIsNotOne(s);
  }

  lemma LetterIsNotOne(s: string)
    requires |s| > 0 && IsLetter(s[0])
    ensures !EqualsIgnoreCase(s, "1")
  {
    if |s| == 1 {
      assert JavaUpper("1"[0]) == '1';
    }
  }

  /** A boolean word other than `1` and `0` starts with a letter. */
  lemma BooleanWordStart(s: string)
    requires LikelyBoolean(s) && s != "1" && s != "0"
    ensures |s| > 0 && IsLetter(s[0])
  {
    var c := s[0];
    assert JavaUpper(c) in {'T', 'F', 'Y', 'N'} || c in "tfyn";
  }

  /** A boolean word that starts with a letter is neither blank nor a numeral, and is not kept as
      text, so the boolean conversion takes it. */
  lemma BooleanWordIsData(s: string, parseDate: string -> Option<Temporal>)
    requires LikelyBoolean(s) && |s| > 0 && IsLetter(s[0])
    ensures ConvertString(s, parseDate) == Bool(TruthWord(s))
  {
    NonBlankStart(s);
    assert !KeptAsIs(s);
    NumeralStart(s);
    assert ConvertString(s, parseDate) == ConvertData(s, parseDate);
  }

  /** A date-time written with the `T` separator contains a letter, so it stays a string and
      never reaches the date parser. */
  lemma LetteredDateTimeStaysText(s: string, parseDate: string -> Option<Temporal>)
    requires IsoDateTime(s) && s[10] == 'T'
    ensures ConvertString(s, parseDate) == Str(s)
  {
    IsoDateTimeOneLine(s);
    assert IsLetter(s[10]);
    assert !LikelyBoolean(s) by { assert |s| >= 19; }
    assert KeptAsIs(s);
  }

  /** A date-time holds no line terminator, so `.` matches each of its characters. */
  lemma IsoDateTimeOneLine(s: string)
    requires IsoDateTime(s)
    ensures forall i :: 0 <= i < |s| ==> !IsJavaLineTerminator(s[i])
  {
    var f := if 20 < |s| && s[19] == '.' && IsDigit(s[20]) then SkipDigits(s, 20) else 19;
    ZoneOneLine(s[f..]);
    forall i | 0 <= i < |s| ensures !IsJavaLineTerminator(s[i]) {
      if i < 10 {
        assert FitsChar(s[..10][i], "dddd-dd-dd"[i]);
      } else if 11 <= i < 19 {
        assert FitsChar(s[11..19][i - 11], "dd:dd:dd"[i - 11]);
      } else if f <= i {
        assert s[i] == s[f..][i - f];
      }
    }
  }

  lemma ZoneOneLine(z: string)
    requires Zone(z)
    ensures forall i :: 0 <= i < |z| ==> !IsJavaLineTerminator(z[i])
  {
    forall i | 0 <= i < |z| ensures !IsJavaLineTerminator(z[i]) {
      if Fits(z, "+dddd") { assert FitsChar(z[i], "+dddd"[i]); }
      else if Fits(z, "-dddd") { assert FitsChar(z[i], "-dddd"[i]); }
      else if Fits(z, "+dd:dd") { assert FitsChar(z[i], "+dd:dd"[i]); }
      else if Fits(z, "-dd:dd") { assert FitsChar(z[i], "-dd:dd"[i]); }
    }
  }

  /** A date in `yyyy-MM-dd` layout goes to the date parser and keeps what it returns. */
  lemma IsoDateConverts(s: string, parseDate: string -> Option<Temporal>)
    requires Fits(s, "dddd-dd-dd") && parseDate(s).Some?
    ensures ConvertString(s, parseDate) == Time(parseDate(s).value)
  {
    IsoDateNotKept(s);
    IsoDateNotNumeral(s);
    assert LikelyDateFormat(s);
    assert ConvertString(s, parseDate) == ConvertData(s, parseDate);
  }

  /** A `yyyy-MM-dd` date has no letter and is not blank, so conversion looks at it. */
  lemma IsoDateNotKept(s: string)
    requires Fits(s, "dddd-dd-dd")
    ensures !KeptAsIs(s)
  {
    assert IsDigit(s[0]) && |s| == 10;
    NonBlankStart(s);
    forall i | 0 <= i < |s| ensures !IsLetter(s[i]) { assert FitsChar(s[i], "dddd-dd-dd"[i]); }
  }

  /** The `-` after the year ends the numeral early, so a date is not a number. */
  lemma IsoDateNotNumeral(s: string)
    requires Fits(s, "dddd-dd-dd")
    ensures ParseNumeral(s).None? && !LikelyBoolean(s)
  {
    assert IsDigit(s[0]) && s[4] == '-' && |s| == 10;
    assert FitsChar(s[1], 'd') && FitsChar(s[2], 'd') && FitsChar(s[3], 'd');
    assert SkipDigits(s, 0) == 4 by { SkipDigitsOver(s, 0, 4); }
    AfterWholeStart(s[4..]);
    assert !EqualsIgnoreCase(s, "true") && !EqualsIgnoreCase(s, "false");
  }

  /** What follows the whole part of a numeral is empty or starts a fraction or an exponent. */
  lemma AfterWholeStart(t: string)
    ensures ParseAfterWhole(t).Some? && t != [] ==> t[0] == '.' || t[0] == 'e' || t[0] == 'E'
  {
    if !(1 < |t| && t[0] == '.' && IsDigit(t[1])) && t != [] && ParseExponent(t).Some? {
      assert t[0] == 'e' || t[0] == 'E';
    }
  }

  // ---------------------------------------------------------------------------------------
  // applyParameters

  /** What `applyParameters` does with one parameter: binds it by name, binds it by position,
      skips it, or fails inside its own `try` (a position beyond `Integer.MAX_VALUE`). */
  datatype Binding =
    | ByName(name: string, value: Value)
    | ByPosition(position: nat, value: Value)
    | Skipped
    | Failed

  const MaxInt: nat := 0x7FFF_FFFF

  function Bind(query: string, key: string, value: Value, parseDate: string -> Option<Temporal>): Binding {
    if Contains(query, ":" + key) then ByName(key, ConvertParameterValue(value, parseDate))
    else if NonEmptyDigits(key) then
      (if DigitsValue(key) <= MaxInt then ByPosition(DigitsValue(key), ConvertParameterValue(value, parseDate))
       else Failed)
    else Skipped
  }

  /** The outcome for one parameter, stated by cases on the query and the key: a named
      parameter the query mentions, else a position in range, else a position out of range,
      else nothing. */
  predicate Outcome(query: string, key: string, value: Value, parseDate: string -> Option<Temporal>, b: Binding) {
    var converted := ConvertParameterValue(value, parseDate);
    (b.ByName? <==> Contains(query, ":" + key)) &&
    (b.ByName? ==> b == ByName(key, converted)) &&
    (b.ByPosition? <==> !Contains(query, ":" + key) && NonEmptyDigits(key) && DigitsValue(key) <= MaxInt) &&
    (b.ByPosition? ==> b == ByPosition(DigitsValue(key), converted)) &&
    (b.Failed? <==> !Contains(query, ":" + key) && NonEmptyDigits(key) && DigitsValue(key) > MaxInt) &&
    (b.Skipped? <==> !Contains(query, ":" + key) && !NonEmptyDigits(key))
  }

  lemma BindOutcome(query: string, key: string, value: Value, parseDate: string -> Option<Temporal>)
    ensures Outcome(query, key, value, parseDate, Bind(query, key, value, parseDate))
  {}

  /** The parameters in the iteration order of the request's JSON object. */
  type Params = seq<(string, Value)>

  function BindAll(query: string, ps: Params, parseDate: string -> Option<Temporal>): (r: seq<Binding>)
    ensures |r| == |ps|
    ensures forall i {:trigger r[i]} :: 0 <= i < |ps| ==> r[i] == Bind(query, ps[i].0, ps[i].1, parseDate)
  {
    if ps == [] then [] else [Bind(query, ps[0].0, ps[0].1, parseDate)] + BindAll(query, ps[1..], parseDate)
  }

  /** `applyParameters`: nothing for a missing or empty map, otherwise one outcome per
      parameter, each decided by that parameter alone. */
  function ApplyParameters(query: string, params: Option<Params>, parseDate: string -> Option<Temporal>): (r: seq<Binding>)
    ensures params.None? ==> r == []
    ensures params.Some? ==> |r| == |params.value|
    ensures params.Some? ==> forall i :: 0 <= i < |r| ==>
      Outcome(query, params.value[i].0, params.value[i].1, parseDate, r[i])
  {
    if params.None? then []
    else
      var r := BindAll(query, params.value, parseDate);
      assert forall i :: 0 <= i < |r| ==> Outcome(query, params.value[i].0, params.value[i].1, parseDate, r[i]) by {
        forall i | 0 <= i < |r| ensures Outcome(query, params.value[i].0, params.value[i].1, parseDate, r[i]) {
          BindOutcome(query, params.value[i].0, params.value[i].1, parseDate);
        }
      }
      r
  }

  /** Parameters are handled one by one, so a failing one never disturbs the others: binding a
      concatenation is concatenating the bindings. */
  lemma BindAllSplits(query: string, p: Params, q: Params, parseDate: string -> Option<Temporal>)
    ensures BindAll(query, p + q, parseDate) == BindAll(query, p, parseDate) + BindAll(query, q, parseDate)
  {
    var f := (e: (string, Value)) => Bind(query, e.0, e.1, parseDate);
    BindAllMapped(query, p, parseDate);
    BindAllMapped(query, q, parseDate);
    BindAllMapped(query, p + q, parseDate);
    MappedConcat(f, p, q, BindAll(query, p, parseDate), BindAll(query, q, parseDate), BindAll(query, p + q, parseDate));
  }

  lemma BindAllMapped(query: string, ps: Params, parseDate: string -> Option<Temporal>)
    ensures Mapped((e: (string, Value)) => Bind(query, e.0, e.1, parseDate), ps, BindAll(query, ps, parseDate))
  {}

  /** A position written as digits is bound at that position when the query has no named
      parameter spelled the same way. */
  lemma PositionalRoundTrip(query: string, n: nat, value: Value, parseDate: string -> Option<Temporal>)
    requires n <= MaxInt && !Contains(query, ":" + NatToString(n))
    ensures Bind(query, NatToString(n), value, parseDate) == ByPosition(n, ConvertParameterValue(value, parseDate))
  {
    DigitsValueOfNatToString(n);
  }

  // ---------------------------------------------------------------------------------------
  // Result rows

  /** How values outside JSON's own kinds are written: dates in `yyyy-MM-dd'T'HH:mm:ss`, and
      `toString` for the rest. */
  datatype Renderer = Renderer(date: Temporal -> string, text: Value -> string)

  /** `formatBasicValue`. */
  function FormatBasicValue(v: Value, render: Renderer): (r: Value)
    ensures IsPlain(r)
    ensures r.Null? <==> v.Null?
    ensures IsPlain(v) ==> r == v
    ensures v.EnumConstant? ==> r == Str(v.name)
  {
    if IsPlain(v) then v
    else if v.Time? then Str(render.date(v.t))
    else if v.EnumConstant? then Str(v.name)
    else Str(render.text(v))
  }

  /** Formatting a formatted value changes nothing. */
  lemma FormatIdempotent(v: Value, render: Renderer)
    ensures FormatBasicValue(FormatBasicValue(v, render), render) == FormatBasicValue(v, render)
  {}

  /** The key of the `i`-th column of a native row. */
  function ColumnName(i: nat): string {
    "Col" + NatToString(i)
  }

  lemma ColumnNamesDistinct(i: nat, j: nat)
    ensures ColumnName(i) == ColumnName(j) ==> i == j
  {
    if ColumnName(i) == ColumnName(j) {
      assert NatToString(i) == ColumnName(i)[3..];
      NatToStringInjective(i, j);
    }
  }

  /** The names of the first `n` columns. */
  function ColumnSet(n: nat): set<string> {
    set i | 0 <= i < n :: ColumnName(i)
  }

  /** One more column adds exactly one new name. */
  lemma ColumnSetGrows(n: nat)
    ensures ColumnName(n) !in ColumnSet(n)
    ensures ColumnSet(n + 1) == ColumnSet(n) + {ColumnName(n)}
  {
    forall i | 0 <= i < n ensures ColumnName(i) != ColumnName(n) { ColumnNamesDistinct(i, n); }
  }

  /** The map of one array row: `Col0` … `Col(n-1)` to the formatted cells. */
  function RowMap(cells: seq<Value>, render: Renderer): map<string, Value>
    decreases |cells|
  {
    if cells == [] then map[]
    else
      var n := |cells| - 1;
      RowMap(cells[..n], render)[ColumnName(n) := FormatBasicValue(cells[n], render)]
  }

  /** A row of `n` cells has exactly the keys `Col0` … `Col(n-1)`. */
  lemma {:induction false} RowMapKeys(cells: seq<Value>, render: Renderer)
    ensures RowMap(cells, render).Keys == ColumnSet(|cells|)
    ensures |RowMap(cells, render)| == |cells|
    decreases |cells|
  {
    if cells != [] {
      var n := |cells| - 1;
      var m := RowMap(cells[..n], render);
      RowMapKeys(cells[..n], render);
      ColumnSetGrows(n);
      assert RowMap(cells, render) == m[ColumnName(n) := FormatBasicValue(cells[n], render)];
    }
  }

  /** Column `Col<i>` holds the `i`-th cell, formatted. */
  lemma {:induction false} RowMapAt(cells: seq<Value>, render: Renderer, i: nat)
    requires i < |cells|
    ensures ColumnName(i) in RowMap(cells, render)
    ensures RowMap(cells, render)[ColumnName(i)] == FormatBasicValue(cells[i], render)
    decreases |cells|
  {
    var n := |cells| - 1;
    if i < n {
      RowMapAt(cells[..n], render, i);
      ColumnNamesDistinct(i, n);
      assert cells[..n][i] == cells[i];
    }
  }

  /** Reading the columns back in order gives the formatted cells. */
  lemma RowMapReadBack(cells: seq<Value>, render: Renderer)
    ensures var m := RowMap(cells, render);
      seq(|cells|, i requires 0 <= i < |cells| => if ColumnName(i) in m then m[ColumnName(i)] else Null) ==
      seq(|cells|, i requires 0 <= i < |cells| => FormatBasicValue(cells[i], render))
  {
    forall i | 0 <= i < |cells| ensures ColumnName(i) in RowMap(cells, render) &&
      RowMap(cells, render)[ColumnName(i)] == FormatBasicValue(cells[i], render)
    {
      RowMapAt(cells, render, i);
    }
  }

  predicate AllObjectArrays(rows: seq<Value>) {
    forall i :: 0 <= i < |rows| ==> rows[i].ObjectArray?
  }

  /** `convertNativeResultToMaps`. When the first row is an `Object[]` every row is cast to one,
      so any other row, a null one or a primitive array included, throws: `None`. Otherwise
      every row, the first one included, becomes a one-entry map under `Result`. */
  function ConvertNativeResultToMaps(raw: Option<seq<Value>>, render: Renderer): (r: Option<seq<map<string, Value>>>)
    ensures raw.None? || raw.value == [] ==> r == Some([])
    ensures r.Some? && raw.Some? ==> |r.value| == |raw.value|
    ensures raw.Some? && raw.value != [] && raw.value[0].ObjectArray? ==>
      (r.Some? <==> AllObjectArrays(raw.value)) &&
      (r.Some? ==> forall i :: 0 <= i < |raw.value| ==> r.value[i] == RowMap(raw.value[i].items, render))
    ensures raw.Some? && raw.value != [] && !raw.value[0].ObjectArray? ==>
      r.Some? && forall i :: 0 <= i < |raw.value| ==> r.value[i] == map["Result" := FormatBasicValue(raw.value[i], render)]
  {
    if raw.None? || raw.value == [] then Some([])
    else
      var rows := raw.value;
      if rows[0].ObjectArray? then
        if AllObjectArrays(rows) then Some(ArrayRows(rows, render)) else None
      else Some(ScalarRows(rows, render))
  }

  /** Every row of an all-array result, as its column map. */
  function ArrayRows(rows: seq<Value>, render: Renderer): (r: seq<map<string, Value>>)
    requires AllObjectArrays(rows)
    ensures |r| == |rows|
    ensures forall i {:trigger r[i]} :: 0 <= i < |rows| ==> r[i] == RowMap(rows[i].items, render)
  {
    if rows == [] then [] else [RowMap(rows[0].items, render)] + ArrayRows(rows[1..], render)
  }

  /** Every row of a scalar result, as a one-entry map under `Result`. */
  function ScalarRows(rows: seq<Value>, render: Renderer): (r: seq<map<string, Value>>)
    ensures |r| == |rows|
    ensures forall i {:trigger r[i]} :: 0 <= i < |rows| ==> r[i] == map["Result" := FormatBasicValue(rows[i], render)]
  {
    if rows == [] then [] else [map["Result" := FormatBasicValue(rows[0], render)]] + ScalarRows(rows[1..], render)
  }

  /** Every column of a converted array row holds a plain JSON value under a distinct key. */
  lemma NativeRowsArePlain(raw: seq<Value>, render: Renderer, i: nat, k: string)
    requires i < |raw| && ConvertNativeResultToMaps(Some(raw), render).Some?
    requires k in ConvertNativeResultToMaps(Some(raw), render).value[i]
    ensures IsPlain(ConvertNativeResultToMaps(Some(raw), render).value[i][k])
  {
    var m := ConvertNativeResultToMaps(Some(raw), render).value[i];
    if raw[0].ObjectArray? {
      var cells := raw[i].items;
      RowMapKeys(cells, render);
      assert k in ColumnSet(|cells|);
      var j :| 0 <= j < |cells| && k == ColumnName(j);
      RowMapAt(cells, render, j);
    }
  }

  /** A result whose first row is a primitive array (a `byte[]` column, say) is not cast: every
      row, the array included, is rendered whole under `Result`. */
  lemma PrimitiveArrayRowIsScalar(rows: seq<Value>, render: Renderer)
    requires rows != [] && rows[0].PrimitiveArray?
    ensures ConvertNativeResultToMaps(Some(rows), render).Some?
    ensures ConvertNativeResultToMaps(Some(rows), render).value[0] == map["Result" := Str(render.text(rows[0]))]
  {
  }

  // ---------------------------------------------------------------------------------------
  // validateInput and the two entry points

  const EmptyQueryMessage := "Query cannot be null or empty"

  /** `validateInput`: the `IllegalArgumentException` it throws, as an error. (Replacing a null
      parameter map there changes only a local variable.) */
  function ValidateInput(query: Option<string>): (r: Result<string>)
    ensures r.Ok? <==> query.Some? && exists i :: 0 <= i < |query.value| && !IsJavaBlank(query.value[i])
    ensures r.Ok? ==> r.value == query.value
    ensures r.Err? ==> r.message == EmptyQueryMessage
  {
    if query.None? then Err(EmptyQueryMessage)
    else
      JavaTrimEmptyIffBlank(query.value);
      if JavaTrim(query.value) == [] then Err(EmptyQueryMessage) else Ok(query.value)
  }

  /** What the Hibernate session does with a query once its parameters are bound, outside this
      model: the raw rows of a native query, the entity maps of a JPQL query (reflection over
      the entity classes, restricted to the requested fields), or the message of the exception
      it threw. `castMessage` is the message of the exception a non-array row raises;
      `commitFailure` the message of the exception the transaction's commit throws, if it does. */
  datatype Session = Session(
    nativeRows: (string, seq<Binding>) -> Result<seq<Value>>,
    entityRows: (string, seq<Binding>, Option<set<string>>) -> Result<seq<map<string, Value>>>,
    castMessage: string,
    commitFailure: Option<string>,
    elapsed: int,
    render: Renderer,
    parseDate: string -> Option<Temporal>)

  /** The reply is filled in before the transaction commits: a commit that throws turns it into an
      error reply that keeps the results and the execution time. */
  function Commit(filled: Response, prefix: string, session: Session): (r: Response)
    ensures session.commitFailure.None? ==> r == filled
    ensures session.commitFailure.Some? ==>
      r.status == "ERROR" && r.results == filled.results && r.executionTime == filled.executionTime
      && r.message == prefix + ": " + session.commitFailure.value
  {
    match session.commitFailure
    case None => filled
    case Some(m) => HandleError(filled, prefix, m)
  }

  /** `executeNativeSql`: only a blank query escapes as an exception; every session failure
      becomes an `ERROR` reply, which carries results only when the commit was what failed. */
  function ExecuteNativeSql(sql: string, params: Option<Params>, session: Session): (r: Result<Response>)
    ensures r.Err? <==> ValidateInput(Some(sql)).Err?
    ensures r.Err? ==> r.message == EmptyQueryMessage
    ensures r.Ok? ==> (r.value.status == "SUCCESS" <==> r.value.results.Some? && session.commitFailure.None?)
    ensures r.Ok? && r.value.results.Some? ==>
      var rows := session.nativeRows(sql, ApplyParameters(sql, params, session.parseDate));
      rows.Ok? && r.value.results == ConvertNativeResultToMaps(Some(rows.value), session.render) &&
      r.value.executionTime == session.elapsed &&
      r.value.message == (match session.commitFailure
        case None => "Native SQL query executed successfully"
        case Some(m) => "Error executing native SQL: " + m)
    ensures r.Ok? && r.value.results.None? ==> FailedWith(r.value, "Error executing native SQL")
    ensures ValidateInput(Some(sql)).Ok? ==>
      var rows := session.nativeRows(sql, ApplyParameters(sql, params, session.parseDate));
      (r.Ok? && r.value.results.Some? <==> rows.Ok? && ConvertNativeResultToMaps(Some(rows.value), session.render).Some?)
    ensures ValidateInput(Some(sql)).Ok? ==>
      var rows := session.nativeRows(sql, ApplyParameters(sql, params, session.parseDate));
      rows.Err? ==> r.Ok? && r.value.message[|"Error executing native SQL"| + 2..] == rows.message
    ensures ValidateInput(Some(sql)).Ok? ==>
      var rows := session.nativeRows(sql, ApplyParameters(sql, params, session.parseDate));
      rows.Ok? && ConvertNativeResultToMaps(Some(rows.value), session.render).None? ==>
        r.Ok? && r.value.message[|"Error executing native SQL"| + 2..] == session.castMessage
  {
    match ValidateInput(Some(sql))
    case Err(m) => Err(m)
    case Ok(_) =>
      var bindings := ApplyParameters(sql, params, session.parseDate);
      match session.nativeRows(sql, bindings)
      case Err(m) => Ok(Failure("Error executing native SQL", m))
      case Ok(rows) =>
        match ConvertNativeResultToMaps(Some(rows), session.render)
        case None => Ok(Failure("Error executing native SQL", session.castMessage))
        case Some(maps) =>
          var filled := Response("SUCCESS", "Native SQL query executed successfully", session.elapsed, Some(maps));
          Ok(Commit(filled, "Error executing native SQL", session))
  }

  /** `executeJpql`. */
  function ExecuteJpql(jpql: string, params: Option<Params>, fields: Option<set<string>>, session: Session): (r: Result<Response>)
    ensures r.Err? <==> ValidateInput(Some(jpql)).Err?
    ensures r.Err? ==> r.message == EmptyQueryMessage
    ensures r.Ok? ==> (r.value.status == "SUCCESS" <==> r.value.results.Some? && session.commitFailure.None?)
    ensures r.Ok? && r.value.results.Some? ==>
      var rows := session.entityRows(jpql, ApplyParameters(jpql, params, session.parseDate), fields);
      rows.Ok? && r.value.results == Some(rows.value) && r.value.executionTime == session.elapsed &&
      r.value.message == (match session.commitFailure
        case None => "JPQL query executed successfully"
        case Some(m) => "Error executing JPQL: " + m)
    ensures r.Ok? && r.value.results.None? ==> FailedWith(r.value, "Error executing JPQL")
    ensures ValidateInput(Some(jpql)).Ok? ==>
      var rows := session.entityRows(jpql, ApplyParameters(jpql, params, session.parseDate), fields);
      (r.Ok? && r.value.results.Some? <==> rows.Ok?)
    ensures ValidateInput(Some(jpql)).Ok? ==>
      var rows := session.entityRows(jpql, ApplyParameters(jpql, params, session.parseDate), fields);
      rows.Err? ==> r.Ok? && r.value.message[|"Error executing JPQL"| + 2..] == rows.message
  {
    match ValidateInput(Some(jpql))
    case Err(m) => Err(m)
    case Ok(_) =>
      var bindings := ApplyParameters(jpql, params, session.parseDate);
      match session.entityRows(jpql, bindings, fields)
      case Err(m) => Ok(Failure("Error executing JPQL", m))
      case Ok(maps) =>
        var filled := Response("SUCCESS", "JPQL query executed successfully", session.elapsed, Some(maps));
        Ok(Commit(filled, "Error executing JPQL", session))
  }

  /** A statement that ran and converted, followed by a commit that throws, gives an `ERROR`
      reply that still carries the rows. */
  lemma CommitFailureKeepsResults(sql: string, params: Option<Params>, session: Session)
    requires ValidateInput(Some(sql)).Ok? && session.commitFailure.Some?
    requires var rows := session.nativeRows(sql, ApplyParameters(sql, params, session.parseDate));
      rows.Ok? && ConvertNativeResultToMaps(Some(rows.value), session.render).Some?
    ensures var r := ExecuteNativeSql(sql, params, session);
      var rows := session.nativeRows(sql, ApplyParameters(sql, params, session.parseDate));
      r.Ok? && r.value.status == "ERROR" && r.value.results == ConvertNativeResultToMaps(Some(rows.value), session.render)
  {
  }
}
