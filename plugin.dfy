/**
 * The plugin's conversions between user-entered numbers and text:
 * `toFloat` prepares a string for PHP's `floatval`, and `toString` shows a
 * value with `,` as the decimal separator. Only the string normalisation
 * is modelled; the numeric conversions themselves stay abstract.
 */
module Plugin {
  import opened Wrappers
  import opened Strings

  /**
   * A PHP value as the two conversions see it. A float and a value of any
   * other type carry their `strval` text, since PHP's float printing is not
   * part of this model.
   */
  datatype Value = IntValue(n: int) | FloatValue(repr: string) | StringValue(s: string) | OtherValue(repr: string)

  /** `strval($value)`. */
  function StrVal(v: Value): string {
    match v
    case IntValue(n) => IntToString(n)
    case FloatValue(repr) => repr
    case StringValue(s) => s
    case OtherValue(repr) => repr
  }

  predicate IsNumber(v: Value) {
    v.IntValue? || v.FloatValue?
  }

  /** What `toFloat` hands to PHP: the number itself for a `(float)` cast, or the text it gives to `floatval`. */
  datatype FloatSource = Cast(v: Value) | Parsed(text: string)

  /** The thousands character `toFloat` deletes: `.` for the separator `,`, and `,` for any other separator. */
  function ThousandsChar(separator: string): char {
    if separator == "," then '.' else ','
  }

  /**
   * `toFloat`: an int or a float is cast directly; anything else is turned
   * into text, which loses its spaces and its thousands characters, and
   * then gets `.` in place of each occurrence of the decimal separator.
   */
  function ToFloat(v: Value, separator: string): (r: FloatSource)
    ensures r.Cast? <==> IsNumber(v)
    ensures r.Cast? ==> r.v == v
  {
    if IsNumber(v) then Cast(v)
    else
      var noSpaces := ReplaceAll(StrVal(v), " ", "");
      var plain := ReplaceAll(noSpaces, [ThousandsChar(separator)], "");
      Parsed(ReplaceAll(plain, separator, "."))
  }

  /** The text `toFloat` normalises has no space, whatever the separator. */
  lemma {:induction false} ToFloatRemovesSpaces(v: Value, separator: string)
    requires !IsNumber(v)
    ensures ' ' !in ToFloat(v, separator).text
  {
    var s := StrVal(v);
    ReplaceAllOneChar(s, ' ', "");
    CountAfterRemove(s, ' ', ' ');
    var noSpaces := ReplaceChar(s, ' ', "");
    CountZero(noSpaces, ' ');
    var t := ThousandsChar(separator);
    ReplaceAllOneChar(noSpaces, t, "");
    CountAfterRemove(noSpaces, t, ' ');
    var plain := ReplaceChar(noSpaces, t, "");
    CountZero(plain, ' ');
    ReplaceAllAbsent(plain, separator, ".", ' ');
  }

  /**
   * With the default separator `,`, `toFloat` deletes every `.` (and every
   * space) and turns each `,` into `.`: the text it produces has no `,`,
   * as many `.` as the input had `,`, and it is shorter than the input by
   * the spaces and `.` deleted.
   */
  lemma {:induction false} ToFloatDefaultSeparator(v: Value)
    requires !IsNumber(v)
    ensures var s, text := StrVal(v), ToFloat(v, ",").text;
      && ',' !in text
      && Count(text, '.') == Count(s, ',')
      && |text| == |s| - Count(s, ' ') - Count(s, '.')
  {
    var s := StrVal(v);
    ReplaceAllOneChar(s, ' ', "");
    var noSpaces := ReplaceChar(s, ' ', "");
    ReplaceAllOneChar(noSpaces, '.', "");
    var plain := ReplaceChar(noSpaces, '.', "");
    ReplaceAllOneChar(plain, ',', ".");
    var text := ReplaceChar(plain, ',', ".");
    assert text == ToFloat(v, ",").text;
    CountAfterRemove(s, ' ', ',');
    CountAfterRemove(s, ' ', '.');
    CountAfterRemove(noSpaces, '.', ',');
    CountAfterRemove(noSpaces, '.', '.');
    CountAfterSwap(plain, ',', '.', ',');
    CountAfterSwap(plain, ',', '.', '.');
    CountZero(text, ',');
    LengthAfterRemove(s, ' ');
    LengthAfterRemove(noSpaces, '.');
    LengthAfterSwap(plain, ',', '.');
  }

  /**
   * With any other separator, `toFloat` deletes every `,`. A one-character
   * separator `c` then has each occurrence turned into `.`: the text is the
   * input without spaces and `,` with every `c` replaced by `.`, so no `c`
   * is left (unless `c` is `.` itself), the `.` count grows by the count of
   * `c`, and the text is shorter than the input by the spaces and `,`
   * deleted.
   */
  lemma {:induction false} ToFloatOtherSeparator(v: Value, separator: string)
    requires !IsNumber(v) && separator != ","
    ensures ',' !in ToFloat(v, separator).text
    ensures |separator| == 1 ==>
      var s, c, text := StrVal(v), separator[0], ToFloat(v, separator).text;
      && text == ReplaceChar(ReplaceChar(ReplaceChar(s, ' ', ""), ',', ""), c, ".")
      && (c != '.' ==> c !in text)
      && (c != ' ' ==> Count(text, '.') == Count(s, '.') + (if c == '.' then 0 else Count(s, c)))
      && |text| == |s| - Count(s, ' ') - Count(s, ',')
  {
    var s := StrVal(v);
    ReplaceAllOneChar(s, ' ', "");
    var noSpaces := ReplaceChar(s, ' ', "");
    ReplaceAllOneChar(noSpaces, ',', "");
    var plain := ReplaceChar(noSpaces, ',', "");
    CountAfterRemove(noSpaces, ',', ',');
    CountZero(plain, ',');
    ReplaceAllAbsent(plain, separator, ".", ',');
    if |separator| == 1 {
      var c := separator[0];
      assert separator == [c];
      ReplaceAllOneChar(plain, c, ".");
      var text := ReplaceChar(plain, c, ".");
      assert text == ToFloat(v, separator).text;
      CountAfterSwap(plain, c, '.', c);
      CountZero(text, c);
      CountAfterSwap(plain, c, '.', '.');
      CountAfterRemove(s, ' ', '.');
      CountAfterRemove(s, ' ', c);
      CountAfterRemove(s, ' ', ',');
      CountAfterRemove(noSpaces, ',', '.');
      CountAfterRemove(noSpaces, ',', c);
      LengthAfterRemove(s, ' ');
      LengthAfterRemove(noSpaces, ',');
      LengthAfterSwap(plain, c, '.');
    }
  }

  /**
   * `toString`: a string is returned as it is; an int or a float with an
   * int precision goes through `number_format` (abstract here, with the
   * thousands delimiter folded into it); anything else is its `strval`
   * text with `.` turned into `,` and spaces removed.
   */
  function ToString(v: Value, precision: Option<int>, numberFormat: (Value, int) -> string): (r: string)
    ensures v.StringValue? ==> r == v.s
  {
    if v.StringValue? then v.s
    else if IsNumber(v) && precision.Some? then numberFormat(v, precision.value)
    else ReplaceAll(ReplaceAll(StrVal(v), ".", ","), " ", "")
  }

  /**
   * The fallback of `toString` turns every `.` into `,` and removes every
   * space: its result holds neither, counts as many `,` as the text had
   * `,` and `.` together, and is shorter by the spaces.
   */
  lemma {:induction false} ToStringFallback(v: Value, precision: Option<int>, numberFormat: (Value, int) -> string)
    requires !v.StringValue? && !(IsNumber(v) && precision.Some?)
    ensures var s, r := StrVal(v), ToString(v, precision, numberFormat);
      && '.' !in r && ' ' !in r
      && Count(r, ',') == Count(s, ',') + Count(s, '.')
      && |r| == |s| - Count(s, ' ')
  {
    var s := StrVal(v);
    ReplaceAllOneChar(s, '.', ",");
    var commas := ReplaceChar(s, '.', ",");
    ReplaceAllOneChar(commas, ' ', "");
    var r := ReplaceChar(commas, ' ', "");
    assert r == ToString(v, precision, numberFormat);
    CountAfterSwap(s, '.', ',', '.');
    CountAfterSwap(s, '.', ',', ',');
    CountAfterSwap(s, '.', ',', ' ');
    CountAfterRemove(commas, ' ', '.');
    CountAfterRemove(commas, ' ', ',');
    CountAfterRemove(commas, ' ', ' ');
    CountZero(r, '.');
    CountZero(r, ' ');
    LengthAfterSwap(s, '.', ',');
    LengthAfterRemove(commas, ' ');
  }

  /** An integer without a precision is shown as its decimal text, which has no `.` or space to rewrite. */
  lemma {:induction false} ToStringOfInt(n: int, numberFormat: (Value, int) -> string)
    ensures ToString(IntValue(n), None, numberFormat) == IntToString(n)
  {
    var s := IntToString(n);
    assert forall i :: 0 <= i < |s| ==> s[i] == '-' || IsDigit(s[i]) by {
      if n < 0 {
        assert s == "-" + NatToString(-n);
        assert forall i :: 1 <= i < |s| ==> s[i] == NatToString(-n)[i - 1];
      }
    }
    ReplaceAllOneChar(s, '.', ",");
    ReplaceCharAbsent(s, '.', ",");
    ReplaceAllOneChar(s, ' ', "");
    ReplaceCharAbsent(s, ' ', "");
  }
}
