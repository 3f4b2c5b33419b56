/**
 * The PHP string primitives the grading core relies on, written out on
 * `seq<char>`: `strtolower` (ASCII only), the `(int)` cast of a string,
 * integer-to-string conversion, PHP 8's loose `==` on two strings,
 * `strpos`, `explode`, `implode` and
 * `str_replace`.
 */
module Strings {
  import opened Wrappers

  // ---------------------------------------------------------------------
  // Characters

  predicate IsDigit(c: char) { '0' <= c <= '9' }

  /** The characters PHP skips before the number in an `(int)` cast. */
  predicate IsSpace(c: char) {
    c == ' ' || c == '\t' || c == '\n' || c == '\r' || c as int == 11 || c as int == 12
  }

  /** The characters PHP's `trim` strips by default: space, tab, newline, carriage return, NUL and vertical tab. */
  predicate IsTrimmed(c: char) {
    c == ' ' || c == '\t' || c == '\n' || c == '\r' || c as int == 0 || c as int == 11
  }

  /** `trim(s) == ''`: the string holds nothing but trimmed characters. */
  predicate Blank(s: string) {
    forall i :: 0 <= i < |s| ==> IsTrimmed(s[i])
  }

  function LowerChar(c: char): char {
    if 'A' <= c <= 'Z' then (c as int + 32) as char else c
  }

  /** `strtolower` restricted to ASCII letters. */
  function Lower(s: string): string {
    seq(|s|, i requires 0 <= i < |s| => LowerChar(s[i]))
  }

  // ---------------------------------------------------------------------
  // Numbers and their decimal text

  function DigitValue(c: char): nat
    requires IsDigit(c)
  {
    c as int - '0' as int
  }

  function DigitChar(d: nat): (c: char)
    requires d < 10
    ensures IsDigit(c) && DigitValue(c) == d
  {
    ('0' as int + d) as char
  }

  predicate AllDigits(s: string) {
    forall i :: 0 <= i < |s| ==> IsDigit(s[i])
  }

  /** The longest prefix of `s` made of decimal digits. */
  function LeadingDigits(s: string): (d: string)
    ensures AllDigits(d) && d <= s
    ensures |d| < |s| ==> !IsDigit(s[|d|])
  {
    if s != [] && IsDigit(s[0]) then [s[0]] + LeadingDigits(s[1..]) else []
  }

  /** The value of a string of decimal digits. */
  function DigitsValue(d: string): nat
    requires AllDigits(d)
  {
    if d == [] then 0 else 10 * DigitsValue(d[..|d| - 1]) + DigitValue(d[|d| - 1])
  }

  function SkipSpaces(s: string): (t: string)
    ensures |t| <= |s| && t == s[|s| - |t|..]
    ensures t != [] ==> !IsSpace(t[0])
  {
    if s != [] && IsSpace(s[0]) then SkipSpaces(s[1..]) else s
  }

  /**
   * PHP's `(int)` cast of a string, simplified: optional leading white
   * space, an optional sign, then the leading decimal digits; 0 when there
   * are none.
   */
  function IntCast(s: string): int {
    var t := SkipSpaces(s);
    if t != [] && t[0] == '-' then 0 - DigitsValue(LeadingDigits(t[1..])) as int
    else if t != [] && t[0] == '+' then DigitsValue(LeadingDigits(t[1..]))
    else DigitsValue(LeadingDigits(t))
  }

  /** The decimal text of a natural number, without leading zeros. */
  function NatToString(n: nat): (s: string)
    ensures s != [] && AllDigits(s)
    decreases n
  {
    if n < 10 then [DigitChar(n)] else NatToString(n / 10) + [DigitChar(n % 10)]
  }

  /** What PHP prints for an integer (string conversion of an `int`). */
  function IntToString(i: int): (s: string)
    ensures s != []
    ensures i >= 0 ==> AllDigits(s)
  {
    if i < 0 then "-" + NatToString(-i) else NatToString(i)
  }

  lemma {:induction false} DigitsValueOfNatToString(n: nat)
    ensures DigitsValue(NatToString(n)) == n
    decreases n
  {
    var s := NatToString(n);
    if n >= 10 {
      DigitsValueOfNatToString(n / 10);
      assert s[..|s| - 1] == NatToString(n / 10);
    }
  }

  lemma {:induction false} LeadingDigitsOfDigits(s: string, rest: string)
    requires AllDigits(s)
    requires rest == [] || !IsDigit(rest[0])
    ensures LeadingDigits(s + rest) == s
    decreases |s|
  {
    if s != [] {
      assert (s + rest)[1..] == s[1..] + rest;
      LeadingDigitsOfDigits(s[1..], rest);
    }
  }

  /** The digits of a natural number are read back by the cast to that number. */
  lemma {:induction false} LeadingDigitsOfNatToString(n: nat)
    ensures LeadingDigits(NatToString(n)) == NatToString(n)
    ensures DigitsValue(LeadingDigits(NatToString(n))) == n
  {
    var d := NatToString(n);
    LeadingDigitsOfDigits(d, []);
    assert d + [] == d;
    DigitsValueOfNatToString(n);
  }

  /** A string that starts with a digit is cast by its leading digits alone. */
  lemma {:induction false} IntCastOfDigitFirst(d: string)
    requires d != [] && IsDigit(d[0])
    ensures IntCast(d) == DigitsValue(LeadingDigits(d))
  {
    assert !IsSpace(d[0]) && d[0] != '-' && d[0] != '+';
    assert SkipSpaces(d) == d;
  }

  lemma {:induction false} IntCastOfNatToString(n: nat)
    ensures IntCast(NatToString(n)) == n
  {
    var d := NatToString(n);
    assert IsDigit(d[0]);
    IntCastOfDigitFirst(d);
    LeadingDigitsOfNatToString(n);
  }

  lemma {:induction false} IntCastOfNegative(n: nat)
    ensures IntCast("-" + NatToString(n)) + n == 0
  {
    var s := "-" + NatToString(n);
    assert SkipSpaces(s) == s;
    assert s[1..] == NatToString(n);
    LeadingDigitsOfNatToString(n);
  }

  /** Casting the printed form of an integer back gives the integer. */
  lemma {:induction false} IntCastOfIntToString(i: int)
    ensures IntCast(IntToString(i)) == i
  {
    if i < 0 {
      IntCastOfNegative(-i);
    } else {
      IntCastOfNatToString(i);
    }
  }

  /** Two integers print the same only when they are equal. */
  lemma {:induction false} IntToStringInjective(i: int, j: int)
    ensures IntToString(i) == IntToString(j) ==> i == j
  {
    IntCastOfIntToString(i);
    IntCastOfIntToString(j);
  }

  // ---------------------------------------------------------------------
  // Numeric strings and PHP 8's loose `==` on two strings

  /** `s` without its trailing white space. */
  function DropTrailingSpaces(s: string): (t: string)
    ensures t <= s
    ensures t != [] ==> !IsSpace(t[|t| - 1])
  {
    if s != [] && IsSpace(s[|s| - 1]) then DropTrailingSpaces(s[..|s| - 1]) else s
  }

  function Pow10(n: nat): (p: real)
    ensures p >= 1.0
  {
    if n == 0 then 1.0 else 10.0 * Pow10(n - 1)
  }

  /** `m` times ten to the power `e`. */
  function Scaled(m: real, e: int): real {
    if e >= 0 then m * Pow10(e) else m / Pow10(-e)
  }

  /** An optional leading sign, as a factor, and what follows it. */
  function SignOf(s: string): (int, string) {
    if s != [] && s[0] == '-' then (-1, s[1..])
    else if s != [] && s[0] == '+' then (1, s[1..])
    else (1, s)
  }

  /** The exponent that makes up all of `s`: 0 when `s` is empty, else `e` or `E`, an optional sign and at least one digit. */
  function ExponentOf(s: string): Option<int> {
    if s == [] then Some(0)
    else if s[0] != 'e' && s[0] != 'E' then None
    else
      var (sign, digits) := SignOf(s[1..]);
      if digits != [] && AllDigits(digits) then Some(sign * DigitsValue(digits)) else None
  }

  /** A number as a numeric string writes it: `sign * mantissa * 10^exponent`. */
  datatype Scientific = Scientific(sign: int, mantissa: nat, exponent: int)

  function ValueOf(n: Scientific): real {
    Scaled((n.sign * n.mantissa) as real, n.exponent)
  }

  /**
   * A numeric string as PHP 8 recognises one: optional white space, an
   * optional sign, decimal digits with at most one decimal point and at
   * least one digit, an optional exponent, and optional trailing white
   * space. `None` for any other string.
   */
  function ParseNumeric(s: string): Option<Scientific> {
    var (sign, body) := SignOf(DropTrailingSpaces(SkipSpaces(s)));
    match ParseUnsigned(body)
    case None => None
    case Some(n) => Some(Scientific(sign, n.mantissa, n.exponent))
  }

  /** The unsigned number that makes up all of `body`: leading digits, then what follows them. */
  function ParseUnsigned(body: string): Option<Scientific> {
    var whole := LeadingDigits(body);
    ParseAfterWhole(whole, body[|whole|..])
  }

  /** After the digits before the point: an optional point with the digits after it, then the rest. */
  function ParseAfterWhole(whole: string, after: string): Option<Scientific>
    requires AllDigits(whole)
  {
    if after != [] && after[0] == '.' then
      var fraction := LeadingDigits(after[1..]);
      ParseExponent(whole, fraction, after[1 + |fraction|..])
    else ParseExponent(whole, [], after)
  }

  /**
   * The digits on both sides of the point form the mantissa, and each
   * digit after the point lowers the exponent by one. There must be at
   * least one digit, and the rest must be an exponent or nothing.
   */
  function ParseExponent(whole: string, fraction: string, rest: string): Option<Scientific>
    requires AllDigits(whole) && AllDigits(fraction)
  {
    if whole == [] && fraction == [] then None
    else match ExponentOf(rest)
      case None => None
      case Some(e) => Some(Scientific(1, DigitsValue(whole + fraction), e - |fraction|))
  }

  /** PHP 8's `==` on two strings: by value when both are numeric strings, character by character otherwise. */
  predicate LooseEquals(a: string, b: string) {
    if ParseNumeric(a).Some? && ParseNumeric(b).Some? then ValueOf(ParseNumeric(a).value) == ValueOf(ParseNumeric(b).value)
    else a == b
  }

  lemma {:induction false} AllDigitsConcat(a: string, b: string)
    requires AllDigits(a) && AllDigits(b)
    ensures AllDigits(a + b)
  {
    forall i | 0 <= i < |a + b| ensures IsDigit((a + b)[i]) {
      if i >= |a| {
        assert (a + b)[i] == b[i - |a|];
      }
    }
  }

  /** A plain decimal `whole.fraction` with at least one digit is numeric: its digits form the mantissa and its exponent is minus the number of fraction digits. */
  lemma {:induction false} ParseDecimal(whole: string, fraction: string)
    requires AllDigits(whole) && AllDigits(fraction) && |whole| + |fraction| > 0
    ensures ParseNumeric(whole + "." + fraction) == Some(Scientific(1, DigitsValue(whole + fraction), 0 - |fraction|))
  {
    var s := whole + "." + fraction;
    assert !IsSpace(s[0]) && s[0] != '-' && s[0] != '+';
    assert SkipSpaces(s) == s;
    assert !IsSpace(s[|s| - 1]);
    assert DropTrailingSpaces(s) == s;
    assert SignOf(s) == (1, s);
    ParseUnsignedDecimal(whole, fraction);
  }

  lemma {:induction false} ParseUnsignedDecimal(whole: string, fraction: string)
    requires AllDigits(whole) && AllDigits(fraction) && |whole| + |fraction| > 0
    ensures ParseUnsigned(whole + "." + fraction) == Some(Scientific(1, DigitsValue(whole + fraction), 0 - |fraction|))
  {
    var s, after := whole + "." + fraction, "." + fraction;
    AllDigitsConcat(whole, fraction);
    assert s == whole + after;
    assert LeadingDigits(s) == whole && s[|whole|..] == after by {
      LeadingDigitsOfDigits(whole, after);
    }
    assert ParseAfterWhole(whole, after) == ParseExponent(whole, fraction, []) by {
      assert after[1..] == fraction;
      assert LeadingDigits(fraction) == fraction by {
        LeadingDigitsOfDigits(fraction, []);
        assert fraction + [] == fraction;
      }
    }
    ParseWithoutExponent(whole, fraction);
  }

  lemma {:induction false} ParseWithoutExponent(whole: string, fraction: string)
    requires AllDigits(whole) && AllDigits(fraction) && |whole| + |fraction| > 0
    requires AllDigits(whole + fraction)
    ensures ParseExponent(whole, fraction, []) == Some(Scientific(1, DigitsValue(whole + fraction), 0 - |fraction|))
  {
    assert ExponentOf([]) == Some(0);
  }

  /** A trailing zero multiplies the value of a digit string by ten. */
  lemma {:induction false} DigitsTrailingZero(d: string)
    requires AllDigits(d)
    ensures AllDigits(d + "0") && DigitsValue(d + "0") == 10 * DigitsValue(d)
  {
    assert (d + "0")[..|d|] == d;
  }

  /** Ten times the mantissa at one exponent lower is the same number. */
  lemma {:induction false} ScaledTenfold(m: real, e: int)
    ensures Scaled(10.0 * m, e - 1) == Scaled(m, e)
  {
    if e >= 1 {
      assert Pow10(e) == 10.0 * Pow10(e - 1);
    } else {
      var p := Pow10(-(e - 1));
      assert p == 10.0 * Pow10(-e);
      assert (10.0 * m) / (10.0 * Pow10(-e)) == m / Pow10(-e);
    }
  }

  /** A mantissa ten times larger at one exponent lower denotes the same positive number. */
  lemma {:induction false} ValueTenfold(m: nat, e: int)
    ensures ValueOf(Scientific(1, 10 * m, e - 1)) == ValueOf(Scientific(1, m, e))
  {
    var big, small := (1 * (10 * m)) as real, (1 * m) as real;
    assert big == 10.0 * small;
    ScaledTenfold(small, e);
    assert Scaled(big, e - 1) == Scaled(small, e);
  }

  /**
   * Loose equality compares decimals by value: `12.50` equals `12.5`, and
   * `3.0` equals `3.`, while the two strings differ.
   */
  lemma {:induction false} LooseEqualsTrailingZero(whole: string, fraction: string)
    requires AllDigits(whole) && AllDigits(fraction) && |whole| + |fraction| > 0
    ensures LooseEquals(whole + "." + fraction + "0", whole + "." + fraction)
    ensures whole + "." + fraction + "0" != whole + "." + fraction
  {
    var longer, shorter := whole + "." + fraction + "0", whole + "." + fraction;
    assert |longer| == |shorter| + 1;
    assert longer == whole + "." + (fraction + "0");
    var m := DigitsValue(whole + fraction);
    ParseTrailingZero(whole, fraction);
    ParseDecimal(whole, fraction);
    ValueTenfold(m, 0 - |fraction|);
    LooseEqualsByValue(longer, shorter, Scientific(1, 10 * m, 0 - |fraction| - 1), Scientific(1, m, 0 - |fraction|));
  }

  /** `whole.fraction0` has ten times the mantissa of `whole.fraction`, at one exponent lower. */
  lemma {:induction false} ParseTrailingZero(whole: string, fraction: string)
    requires AllDigits(whole) && AllDigits(fraction) && |whole| + |fraction| > 0
    ensures AllDigits(whole + fraction)
    ensures ParseNumeric(whole + "." + (fraction + "0")) == Some(Scientific(1, 10 * DigitsValue(whole + fraction), 0 - |fraction| - 1))
  {
    var f0 := fraction + "0";
    DigitsTrailingZero(fraction);
    AllDigitsConcat(whole, fraction);
    AllDigitsConcat(whole, f0);
    assert DigitsValue(whole + f0) == 10 * DigitsValue(whole + fraction) by {
      assert whole + f0 == (whole + fraction) + "0";
      DigitsTrailingZero(whole + fraction);
    }
    ParseDecimal(whole, f0);
    assert Scientific(1, DigitsValue(whole + f0), 0 - |f0|) == Scientific(1, 10 * DigitsValue(whole + fraction), 0 - |fraction| - 1);
  }

  /** Two numeric strings denoting the same number are loosely equal. */
  lemma {:induction false} LooseEqualsByValue(a: string, b: string, x: Scientific, y: Scientific)
    requires ParseNumeric(a) == Some(x) && ParseNumeric(b) == Some(y) && ValueOf(x) == ValueOf(y)
    ensures LooseEquals(a, b)
  {
  }

  /** The empty string is not numeric, so it is loosely equal to itself alone. */
  lemma {:induction false} LooseEqualsEmpty(b: string)
    ensures LooseEquals("", b) <==> b == ""
  {
  }

  /** The cast of a decimal `whole.fraction` stops at its point. */
  lemma {:induction false} IntCastOfDecimal(whole: string, fraction: string)
    requires whole != [] && AllDigits(whole)
    ensures IntCast(whole + "." + fraction) == DigitsValue(whole)
  {
    var s, after := whole + "." + fraction, "." + fraction;
    assert LeadingDigits(s) == whole by {
      assert s == whole + after;
      LeadingDigitsOfDigits(whole, after);
    }
    assert s[0] == whole[0];
    IntCastOfDigitFirst(s);
  }

  /** `strtolower` keeps a decimal `whole.fraction`. */
  lemma {:induction false} LowerOfDecimal(whole: string, fraction: string)
    requires AllDigits(whole) && AllDigits(fraction)
    ensures Lower(whole + "." + fraction) == whole + "." + fraction
  {
    var s := whole + "." + fraction;
    forall i | 0 <= i < |s| ensures !('A' <= s[i] <= 'Z') {
      if i < |whole| {
        assert s[i] == whole[i];
      } else if i > |whole| {
        assert s[i] == fraction[i - |whole| - 1];
      }
    }
    LowerOfNoCapitals(s);
  }

  /** `strtolower` keeps a string without capital letters. */
  lemma {:induction false} LowerOfNoCapitals(s: string)
    requires forall i :: 0 <= i < |s| ==> !('A' <= s[i] <= 'Z')
    ensures Lower(s) == s
  {
  }

  // ---------------------------------------------------------------------
  // Searching: `strpos`

  /** `s` has an occurrence of the non-empty `m` at position `j`. */
  predicate OccursAt(s: string, m: string, j: int) {
    0 <= j && j + |m| <= |s| && s[j..j + |m|] == m
  }

  predicate Contains(s: string, m: string) {
    exists j :: 0 <= j <= |s| - |m| && OccursAt(s, m, j)
  }

  /** One differing character rules out an occurrence at `j`. */
  lemma {:induction false} MismatchAt(s: string, m: string, j: int, t: int)
    requires 0 <= j && 0 <= t < |m| && j + t < |s| && s[j + t] != m[t]
    ensures !OccursAt(s, m, j)
  {
    if j + |m| <= |s| {
      assert s[j..j + |m|][t] == s[j + t];
    }
  }

  lemma {:induction false} OccursShift(s: string, m: string, j: int)
    requires s != [] && 0 < j
    ensures OccursAt(s, m, j) == OccursAt(s[1..], m, j - 1)
  {
    if j + |m| <= |s| {
      assert s[1..][j - 1..j - 1 + |m|] == s[j..j + |m|];
    }
  }

  /** The position of the first occurrence of `m` in `s`, or -1 (`strpos`). */
  function IndexOf(s: string, m: string): (r: int)
    requires |m| > 0
    ensures -1 <= r <= |s| - |m| || r == -1
    ensures r >= 0 ==> OccursAt(s, m, r) && forall j :: 0 <= j < r ==> !OccursAt(s, m, j)
    ensures r < 0 <==> !Contains(s, m)
    decreases |s|
  {
    if |s| < |m| then -1
    else if s[..|m|] == m then 0
    else
      var r' := IndexOf(s[1..], m);
      assert forall j :: 0 < j <= |s| - |m| ==> (OccursAt(s, m, j) <==> OccursAt(s[1..], m, j - 1)) by {
        forall j | 0 < j <= |s| - |m| ensures OccursAt(s, m, j) == OccursAt(s[1..], m, j - 1) {
          OccursShift(s, m, j);
        }
      }
      if r' < 0 then -1 else r' + 1
  }

  /** `m` has no border: its first character does not occur again in it. */
  predicate Unbordered(m: string) {
    |m| > 0 && forall i :: 1 <= i < |m| ==> m[i] != m[0]
  }

  /** A string without the first character of `m` has no occurrence of `m`. */
  lemma {:induction false} NoFirstChar(s: string, m: string)
    requires |m| > 0 && m[0] !in s
    ensures !Contains(s, m)
  {
    forall j | 0 <= j <= |s| - |m| ensures !OccursAt(s, m, j) {
      assert s[j..j + |m|][0] == s[j];
    }
  }

  /**
   * A string whose only possible start of `m` is its first character, and
   * whose second character is not the second one of `m`, has no occurrence.
   */
  lemma {:induction false} OnlyHeadFree(s: string, m: string)
    requires |m| >= 2 && |s| >= 2 && s[1] != m[1] && m[0] !in s[1..]
    ensures !Contains(s, m)
  {
    forall j | 0 <= j <= |s| - |m| ensures !OccursAt(s, m, j) {
      if j == 0 {
        assert s[..|m|][1] == s[1];
      } else {
        assert s[j..j + |m|][0] == s[1..][j - 1];
      }
    }
  }

  /**
   * Neither half has an occurrence of `m`, and a character next to the
   * seam does not occur in `m`: then the concatenation has none either.
   */
  lemma {:induction false} SeamFree(a: string, b: string, m: string)
    requires |m| > 0 && !Contains(a, m) && !Contains(b, m)
    requires (a != [] && a[|a| - 1] !in m) || (b != [] && b[0] !in m)
    ensures !Contains(a + b, m)
  {
    var s := a + b;
    forall j | 0 <= j <= |s| - |m| ensures !OccursAt(s, m, j) {
      if j + |m| <= |a| {
        assert s[j..j + |m|] == a[j..j + |m|];
        assert !OccursAt(a, m, j);
      } else if j >= |a| {
        assert s[j..j + |m|] == b[j - |a|..j - |a| + |m|];
        assert !OccursAt(b, m, j - |a|);
      } else if a != [] && a[|a| - 1] !in m {
        assert s[j..j + |m|][|a| - 1 - j] == a[|a| - 1];
      } else {
        assert s[j..j + |m|][|a| - j] == b[0];
      }
    }
  }

  /**
   * A concatenation has no occurrence of `m` when neither half has one and
   * some character `a[k]` that does not occur in `m` is followed in `a`
   * only by characters other than the first one of `m`: no window of the
   * length of `m` can then reach across the seam.
   */
  lemma {:induction false} ConcatFree(a: string, b: string, m: string, k: int)
    requires |m| > 0 && !Contains(a, m) && !Contains(b, m)
    requires 0 <= k < |a| && a[k] !in m
    requires forall t :: k < t < |a| ==> a[t] != m[0]
    ensures !Contains(a + b, m)
  {
    var s := a + b;
    forall j | 0 <= j <= |s| - |m| ensures !OccursAt(s, m, j) {
      if j + |m| <= |a| {
        assert s[j..j + |m|] == a[j..j + |m|];
        assert !OccursAt(a, m, j);
      } else if j >= |a| {
        assert s[j..j + |m|] == b[j - |a|..j - |a| + |m|];
        assert !OccursAt(b, m, j - |a|);
      } else if j <= k {
        assert s[j..j + |m|][k - j] == a[k];
      } else {
        assert s[j..j + |m|][0] == a[j];
      }
    }
  }

  // ---------------------------------------------------------------------
  // `explode`, `implode` and `str_replace`

  /**
   * `explode(m, s)`: the pieces between the non-overlapping occurrences of
   * `m`, read left to right: an occurrence at the front closes an empty
   * piece, and any other character joins the first piece.
   */
  function Split(s: string, m: string): (pieces: seq<string>)
    requires |m| > 0
    ensures |pieces| >= 1
    decreases |s|
  {
    if |s| < |m| then [s]
    else if s[..|m|] == m then [""] + Split(s[|m|..], m)
    else
      var r := Split(s[1..], m);
      [[s[0]] + r[0]] + r[1..]
  }

  /** `implode(sep, pieces)`. */
  function Join(pieces: seq<string>, sep: string): string {
    if |pieces| == 0 then ""
    else if |pieces| == 1 then pieces[0]
    else pieces[0] + sep + Join(pieces[1..], sep)
  }

  /**
   * `str_replace(pat, rep, s)`: scans left to right and replaces every
   * occurrence of `pat`; what is inserted is not scanned again. An empty
   * `pat` leaves `s` unchanged.
   */
  function ReplaceAll(s: string, pat: string, rep: string): string
    decreases |s|
  {
    if |pat| == 0 || |s| < |pat| then s
    else if s[..|pat|] == pat then rep + ReplaceAll(s[|pat|..], pat, rep)
    else [s[0]] + ReplaceAll(s[1..], pat, rep)
  }

  lemma {:induction false} JoinCons(p: string, rest: seq<string>, sep: string)
    requires |rest| >= 1
    ensures Join([p] + rest, sep) == p + sep + Join(rest, sep)
  {
    assert ([p] + rest)[1..] == rest;
  }

  /** Where `s` does not start with `m`, its first piece grows by `s[0]` and the others stay. */
  lemma {:induction false} SplitUnmatchedHead(s: string, m: string)
    requires |m| > 0 && s != [] && !OccursAt(s, m, 0)
    ensures Split(s, m) == [[s[0]] + Split(s[1..], m)[0]] + Split(s[1..], m)[1..]
  {
    if |s| < |m| {
      assert Split(s[1..], m) == [s[1..]];
      assert [s[0]] + s[1..] == s;
    }
  }

  lemma {:induction false} JoinGrowHead(c: char, pieces: seq<string>, sep: string)
    requires |pieces| >= 1
    ensures [c] + Join(pieces, sep) == Join([[c] + pieces[0]] + pieces[1..], sep)
  {
    if |pieces| > 1 {
      JoinCons([c] + pieces[0], pieces[1..], sep);
    }
  }

  /** `str_replace` is `implode` of `explode`: every occurrence is replaced. */
  lemma {:induction false} ReplaceAllIsJoinOfSplit(s: string, pat: string, rep: string)
    requires |pat| > 0
    ensures ReplaceAll(s, pat, rep) == Join(Split(s, pat), rep)
    decreases |s|
  {
    if |s| < |pat| {
    } else if s[..|pat|] == pat {
      var r := Split(s[|pat|..], pat);
      ReplaceAllIsJoinOfSplit(s[|pat|..], pat, rep);
      assert Split(s, pat) == [""] + r;
      assert ReplaceAll(s, pat, rep) == rep + ReplaceAll(s[|pat|..], pat, rep);
      JoinCons("", r, rep);
    } else {
      var r := Split(s[1..], pat);
      ReplaceAllIsJoinOfSplit(s[1..], pat, rep);
      assert Split(s, pat) == [[s[0]] + r[0]] + r[1..];
      assert ReplaceAll(s, pat, rep) == [s[0]] + ReplaceAll(s[1..], pat, rep);
      JoinGrowHead(s[0], r, rep);
    }
  }

  /** Dropping the first character keeps a string free of `m`. */
  lemma {:induction false} FreeTail(s: string, m: string)
    requires s != [] && !Contains(s, m)
    ensures !Contains(s[1..], m)
  {
    forall j | 0 <= j <= |s[1..]| - |m| ensures !OccursAt(s[1..], m, j) {
      OccursShift(s, m, j + 1);
    }
  }

  /** A non-empty text free of the unbordered `m` and followed by `m` does not start with `m`. */
  lemma {:induction false} FreePrefixHead(a: string, m: string, rest: string)
    requires Unbordered(m) && !Contains(a, m) && a != []
    ensures !OccursAt(a + m + rest, m, 0)
  {
    var s := a + m + rest;
    if |a| >= |m| {
      assert s[..|m|] == a[..|m|];
      assert !OccursAt(a, m, 0);
    } else if |s| >= |m| {
      assert s[..|m|][|a|] == m[0];
    }
  }

  /** `explode` of a string without the separator is that string alone. */
  lemma {:induction false} SplitFree(s: string, m: string)
    requires |m| > 0 && !Contains(s, m)
    ensures Split(s, m) == [s]
    decreases |s|
  {
    if |s| >= |m| {
      assert !OccursAt(s, m, 0);
      FreeTail(s, m);
      SplitFree(s[1..], m);
      SplitUnmatchedHead(s, m);
      assert [s[0]] + s[1..] == s;
    }
  }

  /** `explode` cuts at the first separator when the text before it has none. */
  lemma {:induction false} SplitAfterFree(a: string, m: string, rest: string)
    requires Unbordered(m) && !Contains(a, m)
    ensures Split(a + m + rest, m) == [a] + Split(rest, m)
    decreases |a|
  {
    var s := a + m + rest;
    if a == [] {
      assert s == m + rest;
      assert s[..|m|] == m && s[|m|..] == rest;
    } else {
      FreePrefixHead(a, m, rest);
      FreeTail(a, m);
      SplitAfterFree(a[1..], m, rest);
      assert s[1..] == a[1..] + m + rest;
      SplitUnmatchedHead(s, m);
      assert [a[0]] + a[1..] == a;
    }
  }

  /** `explode` undoes `implode` when no piece contains the unbordered separator. */
  lemma {:induction false} SplitJoin(pieces: seq<string>, m: string)
    requires |pieces| >= 1 && Unbordered(m)
    requires forall i :: 0 <= i < |pieces| ==> !Contains(pieces[i], m)
    ensures Split(Join(pieces, m), m) == pieces
    decreases |pieces|
  {
    if |pieces| == 1 {
      SplitFree(pieces[0], m);
    } else {
      var rest := Join(pieces[1..], m);
      SplitAfterFree(pieces[0], m, rest);
      SplitJoin(pieces[1..], m);
      assert [pieces[0]] + pieces[1..] == pieces;
    }
  }

  // ---------------------------------------------------------------------
  // Character-wise replacement

  /** Every `c` in `s` replaced by `r`: the character-by-character reading of `str_replace`. */
  function ReplaceChar(s: string, c: char, r: string): string {
    if s == [] then [] else (if s[0] == c then r else [s[0]]) + ReplaceChar(s[1..], c, r)
  }

  lemma {:induction false} ReplaceAllOneChar(s: string, c: char, r: string)
    ensures ReplaceAll(s, [c], r) == ReplaceChar(s, c, r)
    decreases |s|
  {
    if s != [] {
      assert (s[..1] == [c]) == (s[0] == c);
      ReplaceAllOneChar(s[1..], c, r);
    }
  }

  lemma {:induction false} ReplaceCharConcat(a: string, b: string, c: char, r: string)
    ensures ReplaceChar(a + b, c, r) == ReplaceChar(a, c, r) + ReplaceChar(b, c, r)
    decreases |a|
  {
    if a == [] {
      assert a + b == b;
    } else {
      assert (a + b)[0] == a[0];
      assert (a + b)[1..] == a[1..] + b;
      ReplaceCharConcat(a[1..], b, c, r);
    }
  }

  /** The number of times `c` occurs in `s`. */
  function Count(s: string, c: char): nat {
    if s == [] then 0 else (if s[0] == c then 1 else 0) + Count(s[1..], c)
  }

  lemma {:induction false} CountConcat(a: string, b: string, c: char)
    ensures Count(a + b, c) == Count(a, c) + Count(b, c)
    decreases |a|
  {
    if a == [] {
      assert a + b == b;
    } else {
      assert (a + b)[0] == a[0];
      assert (a + b)[1..] == a[1..] + b;
      CountConcat(a[1..], b, c);
    }
  }

  lemma {:induction false} CountZero(s: string, c: char)
    ensures Count(s, c) == 0 <==> c !in s
    decreases |s|
  {
    if s != [] {
      CountZero(s[1..], c);
      assert c in s <==> s[0] == c || c in s[1..];
    }
  }

  /** Removing `c` leaves every other character's count as it was and no `c`. */
  lemma {:induction false} CountAfterRemove(s: string, c: char, d: char)
    ensures Count(ReplaceChar(s, c, ""), d) == if c == d then 0 else Count(s, d)
    decreases |s|
  {
    if s != [] {
      CountAfterRemove(s[1..], c, d);
      CountConcat(if s[0] == c then "" else [s[0]], ReplaceChar(s[1..], c, ""), d);
    }
  }

  /** Replacing `c` by `e` moves the count of `c` onto `e`. */
  lemma {:induction false} CountAfterSwap(s: string, c: char, e: char, d: char)
    ensures Count(ReplaceChar(s, c, [e]), d) == (if c == d then 0 else Count(s, d)) + (if d == e then Count(s, c) else 0)
    decreases |s|
  {
    if s != [] {
      CountAfterSwap(s[1..], c, e, d);
      CountConcat(if s[0] == c then [e] else [s[0]], ReplaceChar(s[1..], c, [e]), d);
    }
  }

  /** Removing `c` shortens the string by the number of its occurrences. */
  lemma {:induction false} LengthAfterRemove(s: string, c: char)
    ensures |ReplaceChar(s, c, "")| == |s| - Count(s, c)
    decreases |s|
  {
    if s != [] {
      LengthAfterRemove(s[1..], c);
    }
  }

  /** `str_replace` cannot introduce a character that is neither in the subject nor in the replacement. */
  lemma {:induction false} ReplaceAllAbsent(s: string, pat: string, rep: string, c: char)
    requires c !in s && c !in rep
    ensures c !in ReplaceAll(s, pat, rep)
    decreases |s|
  {
    if |pat| > 0 && |s| >= |pat| {
      if s[..|pat|] == pat {
        ReplaceAllAbsent(s[|pat|..], pat, rep, c);
      } else {
        ReplaceAllAbsent(s[1..], pat, rep, c);
      }
    }
  }

  /** Replacing a character by one character keeps the length. */
  lemma {:induction false} LengthAfterSwap(s: string, c: char, e: char)
    ensures |ReplaceChar(s, c, [e])| == |s|
    decreases |s|
  {
    if s != [] {
      LengthAfterSwap(s[1..], c, e);
    }
  }

  /** Replacing a character that does not occur changes nothing. */
  lemma {:induction false} ReplaceCharAbsent(s: string, c: char, r: string)
    requires c !in s
    ensures ReplaceChar(s, c, r) == s
    decreases |s|
  {
    if s != [] {
      assert s[0] != c && c !in s[1..];
      ReplaceCharAbsent(s[1..], c, r);
      assert [s[0]] + s[1..] == s;
    }
  }
}
