/** The numeric conversions of the inventory's form code: `Math.trunc`,
    `toNonNegativeInteger`, `Number(string)`, `normalizeDecimal` and
    `Number(x.toFixed(2))`. Numbers are exact rationals here; a result that
    JavaScript would make `NaN` or infinite (both rejected by every caller's
    `Number.isFinite` test) is None. */
module JsNumbers {
  import opened Wrappers
  import opened JsStrings

  /** A value handed to `toNonNegativeInteger`: a string read from a form
      field, or a number (the dialogs pass `parseInt`'s result, which may be
      `NaN`). */
  datatype JsValue = Text(s: string) | Number(x: real) | NotANumber

  /** `Math.trunc` of a finite number: drops the fraction, toward zero. */
  function Trunc(x: real): (r: int)
    ensures 0.0 <= x ==> r as real <= x < r as real + 1.0
    ensures x < 0.0 ==> r as real - 1.0 < x <= r as real
  {
    if x >= 0.0 then x.Floor else -((-x).Floor)
  }

  /** `toNonNegativeInteger`: `parseInt(s, 10)` for a string and `Math.trunc`
      for a number; `NaN` or a negative result is rejected (None). */
  function ToNonNegativeInteger(v: JsValue): (r: Option<nat>)
    ensures v.NotANumber? ==> r.None?
    ensures v.Number? ==> (r.Some? <==> v.x > -1.0)
    ensures v.Number? && r.Some? ==> r.value as real <= v.x + 1.0 && v.x < r.value as real + 1.0
    ensures v.Text? ==> (r.Some? <==> ParseInt(v.s).Some? && ParseInt(v.s).value >= 0)
    ensures v.Text? && r.Some? ==> r.value == ParseInt(v.s).value
    ensures v.Number? && r.Some? ==> r.value == Trunc(v.x)
  {
    var parsed: Option<int> :=
      match v
      case Text(s) => ParseInt(s)
      case Number(x) => Some(Trunc(x))
      case NotANumber => None;
    if parsed.None? || parsed.value < 0 then None else Some(parsed.value)
  }

  /** A form string that starts with the digits of `n` yields `n`, whatever
      follows the digits: `"3.7"` gives 3 and `"12abc"` gives 12. */
  lemma ToNonNegativeIntegerOfDigits(n: nat, rest: string)
    requires rest == [] || !IsDigit(rest[0])
    ensures ToNonNegativeInteger(Text(ShowNat(n) + rest)) == Some(n)
  {
    ParseIntShowNat(n, rest);
  }

  /** A form string holding a negative integer is rejected. */
  lemma ToNonNegativeIntegerRejectsNegative(n: nat, rest: string)
    requires n > 0
    requires rest == [] || !IsDigit(rest[0])
    ensures ToNonNegativeInteger(Text("-" + ShowNat(n) + rest)).None?
  {
    ParseIntNegative(n, rest);
  }

  /** A form string in general: white space, an optional sign, digits
      (leading zeros allowed) and anything not starting with a digit. Without
      a minus the digits' value is the result; with one, only an all-zero
      run (`"-0"`) is accepted, as 0. */
  lemma ToNonNegativeIntegerOfText(ws: string, sign: string, ds: string, rest: string)
    requires forall i :: 0 <= i < |ws| ==> IsWhiteSpace(ws[i])
    requires sign == "" || sign == "+" || sign == "-"
    requires ds != [] && AllRadixDigits(ds, 10)
    requires rest == [] || !IsDigit(rest[0])
    ensures ToNonNegativeInteger(Text(ws + sign + ds + rest))
            == if sign == "-" && Value(ds, 10) > 0 then None else Some(Value(ds, 10))
  {
    var v: int := Value(ds, 10);
    var n := if sign == "-" then -v else v;
    ParseIntDigits(ws, sign, ds, rest);
    ParsedToNonNegative(ws + sign + ds + rest, n);
  }

  /** Text that `parseInt` reads as `n` is accepted exactly when `n` is
      not negative. */
  lemma ParsedToNonNegative(s: string, n: int)
    requires ParseInt(s) == Some(n)
    ensures ToNonNegativeInteger(Text(s)) == if n < 0 then None else Some(n)
  {
  }

  /** A whole number is accepted exactly when it is not negative. */
  lemma ToNonNegativeIntegerOfWhole(n: int)
    ensures ToNonNegativeInteger(Number(n as real)) == if n < 0 then None else Some(n)
  {
  }

  function Pow10(n: nat): (r: nat)
    ensures r >= 1
  {
    if n == 0 then 1 else 10 * Pow10(n - 1)
  }

  /** `v` times ten to the power `e`. */
  function Scale(v: real, e: int): (r: real)
    ensures v >= 0.0 ==> r >= 0.0
  {
    if e >= 0 then v * Pow10(e) as real else v / Pow10(-e) as real
  }

  /** Position of the first exponent marker `e` or `E`, or `|s|`. */
  function IndexOfExponent(s: string): (k: nat)
    ensures k <= |s|
    ensures k < |s| ==> s[k] == 'e' || s[k] == 'E'
    ensures forall i :: 0 <= i < k ==> s[i] != 'e' && s[i] != 'E'
  {
    if s == [] then 0
    else if s[0] == 'e' || s[0] == 'E' then 0
    else 1 + IndexOfExponent(s[1..])
  }

  /** The SignedInteger of an exponent: one optional sign, then digits. */
  function SignedInteger(s: string): Option<int> {
    var ds := UnsignedPart(s);
    if ds != [] && AllRadixDigits(ds, 10) then
      var n: int := Value(ds, 10);
      Some(if s[0] == '-' then -n else n)
    else None
  }

  /** The mantissa of a decimal literal: digits, an optional `.` with
      optional digits, at least one digit before or after the point. */
  function Mantissa(m: string): (r: Option<real>)
    ensures r.Some? ==> r.value >= 0.0
  {
    var d := IndexOf(m, '.');
    var whole := m[..d];
    var fraction := if d < |m| then m[d + 1..] else [];
    if AllRadixDigits(whole, 10) && AllRadixDigits(fraction, 10) && |whole| + |fraction| > 0 then
      Some(Value(whole, 10) as real + Value(fraction, 10) as real / Pow10(|fraction|) as real)
    else None
  }

  /** A StrUnsignedDecimalLiteral without its `Infinity` form (which is not
      finite, so None as well): a mantissa and an optional exponent. */
  function UnsignedDecimal(u: string): (r: Option<real>)
    ensures r.Some? ==> r.value >= 0.0
  {
    var k := IndexOfExponent(u);
    var mantissa := Mantissa(u[..k]);
    var exponent := if k == |u| then Some(0) else SignedInteger(u[k + 1..]);
    if mantissa.Some? && exponent.Some? then Some(Scale(mantissa.value, exponent.value)) else None
  }

  /** A `0x`, `0o` or `0b` literal: no sign, at least one digit of the base. */
  function RadixLiteral(ds: string, radix: nat): (r: Option<real>)
    ensures r.Some? ==> r.value >= 0.0
  {
    if ds != [] && AllRadixDigits(ds, radix) then Some(Value(ds, radix) as real) else None
  }

  function Negate(r: Option<real>): Option<real> {
    if r.Some? then Some(-r.value) else None
  }

  /** `Number(s)` for a string, when the result is finite: surrounding white
      space is ignored, the empty string is 0, and otherwise the whole string
      must be a StringNumericLiteral. `Infinity` and anything not numeric give
      None. */
  function StringToNumber(s: string): (r: Option<real>)
    ensures Trim(s) == [] ==> r == Some(0.0)
  {
    LiteralValue(Trim(s))
  }

  /** The StringNumericLiteral grammar on text already trimmed. */
  function LiteralValue(t: string): Option<real> {
    if t == [] then Some(0.0)
    else if |t| >= 2 && t[0] == '0' && (t[1] == 'x' || t[1] == 'X') then RadixLiteral(t[2..], 16)
    else if |t| >= 2 && t[0] == '0' && (t[1] == 'o' || t[1] == 'O') then RadixLiteral(t[2..], 8)
    else if |t| >= 2 && t[0] == '0' && (t[1] == 'b' || t[1] == 'B') then RadixLiteral(t[2..], 2)
    else if t[0] == '-' then Negate(UnsignedDecimal(t[1..]))
    else if t[0] == '+' then UnsignedDecimal(t[1..])
    else UnsignedDecimal(t)
  }

  /** `normalizeDecimal` on a form string: trimmed empty input is `NaN`;
      otherwise the first `,` becomes `.` and the result goes through
      `Number`; a non-finite result is `NaN` (None). */
  function NormalizeDecimal(value: string): (r: Option<real>)
    ensures Trim(value) == [] ==> r.None?
  {
    var trimmed := Trim(value);
    if trimmed == [] then None
    else StringToNumber(ReplaceFirst(trimmed, ',', '.'))
  }

  /** The decimal `whole.fraction`, with either separator. */
  function DecimalValue(whole: string, fraction: string): real
    requires AllDigits(whole) && AllDigits(fraction)
  {
    DecimalRadixDigits(whole);
    DecimalRadixDigits(fraction);
    Value(whole, 10) as real + Value(fraction, 10) as real / Pow10(|fraction|) as real
  }

  lemma DigitsLack(s: string, c: char)
    requires AllDigits(s) && !IsDigit(c)
    ensures c !in s
  {
  }

  lemma DotDecimal(whole: string, fraction: string)
    requires AllDigits(whole) && AllDigits(fraction) && |whole| + |fraction| > 0
    ensures UnsignedDecimal(whole + "." + fraction) == Some(DecimalValue(whole, fraction))
  {
    var u := whole + "." + fraction;
    assert forall i :: 0 <= i < |u| ==> u[i] != 'e' && u[i] != 'E' by {
      forall i | 0 <= i < |u| ensures u[i] != 'e' && u[i] != 'E' {
        if i < |whole| { assert u[i] == whole[i]; }
        else if i > |whole| { assert u[i] == fraction[i - |whole| - 1]; }
      }
    }
    assert IndexOfExponent(u) == |u|;
    assert u[..|u|] == u;
    DigitsLack(whole, '.');
    IndexOfAfter(whole, '.', fraction);
    assert u[..|whole|] == whole && u[|whole| + 1..] == fraction;
    DecimalRadixDigits(whole);
    DecimalRadixDigits(fraction);
    assert Mantissa(u) == Some(DecimalValue(whole, fraction));
  }

  /** The decimal separator may be a comma or a point: `"49,90"` and
      `"49.90"` both normalise to 49.9. */
  lemma CommaOrDot(whole: string, fraction: string)
    requires AllDigits(whole) && AllDigits(fraction) && |whole| + |fraction| > 0
    ensures NormalizeDecimal(whole + "," + fraction) == Some(DecimalValue(whole, fraction))
    ensures NormalizeDecimal(whole + "." + fraction) == Some(DecimalValue(whole, fraction))
  {
    CommaNormalizes(whole, fraction);
    DotNormalizes(whole, fraction);
  }

  /** A whole number typed without a separator: `"50"` is 50. */
  lemma IntegerNormalizes(ds: string)
    requires ds != [] && AllRadixDigits(ds, 10)
    ensures NormalizeDecimal(ds) == Some(Value(ds, 10) as real)
  {
    DecimalRadixDigits(ds);
    NormalizeUnpadded(ds);
    DigitsLack(ds, ',');
    assert ReplaceFirst(ds, ',', '.') == ds;
    NumberOfUnsigned(ds);
    IntegerDecimal(ds);
  }

  /** A minus sign in front of a whole number negates it: `"-5"` is -5,
      which the form then refuses. */
  lemma NegativeNormalizes(ds: string)
    requires ds != [] && AllRadixDigits(ds, 10)
    ensures NormalizeDecimal("-" + ds) == Negate(NormalizeDecimal(ds))
  {
    DecimalRadixDigits(ds);
    NegativeUnpadded(ds);
    NegatedReading(ds);
    IntegerNormalizes(ds);
    IntegerDecimal(ds);
  }

  /** The decimal grammar reads a run of digits as its value. */
  lemma IntegerDecimal(ds: string)
    requires ds != [] && AllRadixDigits(ds, 10)
    ensures UnsignedDecimal(ds) == Some(Value(ds, 10) as real)
  {
    DecimalRadixDigits(ds);
    DigitsDecimal(ds);
    WholeValue(ds);
  }

  lemma DigitsDecimal(ds: string)
    requires ds != [] && AllDigits(ds)
    ensures UnsignedDecimal(ds) == Some(DecimalValue(ds, ""))
  {
    assert IndexOfExponent(ds) == |ds|;
    assert ds[..|ds|] == ds;
    DigitsLack(ds, '.');
    assert IndexOf(ds, '.') == |ds|;
    DecimalRadixDigits(ds);
    assert Mantissa(ds) == Some(DecimalValue(ds, ""));
  }

  /** Without fraction digits the decimal is the whole part. */
  lemma WholeValue(ds: string)
    requires AllDigits(ds) && AllRadixDigits(ds, 10)
    ensures DecimalValue(ds, "") == Value(ds, 10) as real
  {
  }

  lemma NegativeUnpadded(ds: string)
    requires ds != [] && AllDigits(ds)
    ensures NormalizeDecimal("-" + ds) == StringToNumber("-" + ds)
  {
    var t := "-" + ds;
    assert t[0] == '-' && t[|t| - 1] == ds[|ds| - 1];
    NormalizeUnpadded(t);
    DigitsLack(ds, ',');
    assert ',' !in t;
  }

  /** `Number` of a minus sign before digits negates the decimal reading. */
  lemma NegatedReading(ds: string)
    requires ds != [] && AllDigits(ds)
    ensures StringToNumber("-" + ds) == Negate(UnsignedDecimal(ds))
  {
    var t := "-" + ds;
    assert t[0] == '-' && t[|t| - 1] == ds[|ds| - 1] && t[1..] == ds;
    TrimUnchanged(t);
    assert StringToNumber(t) == LiteralValue(t);
  }

  /** Text that starts with anything but a digit, a separator or a sign is
      not a number: `"abc"` and `"g50"` are refused. */
  lemma NonNumericRejected(t: string)
    requires t != [] && !IsWhiteSpace(t[0]) && !IsWhiteSpace(t[|t| - 1])
    requires !IsDigit(t[0]) && t[0] !in ".,+-"
    ensures NormalizeDecimal(t).None?
  {
    NormalizeUnpadded(t);
    CommaReplacedInside(t);
    NoNumberStartingWith(ReplaceFirst(t, ',', '.'));
  }

  /** Replacing the first comma keeps a first character that is not a
      comma, and keeps the text free of white space at its end. */
  lemma CommaReplacedInside(t: string)
    requires t != [] && t[0] != ',' && !IsWhiteSpace(t[|t| - 1])
    ensures var u := ReplaceFirst(t, ',', '.');
            u != [] && u[0] == t[0] && !IsWhiteSpace(u[|u| - 1])
  {
    var u := ReplaceFirst(t, ',', '.');
    assert u[0] == t[0];
    if |u| - 1 != IndexOf(t, ',') {
      assert u[|u| - 1] == t[|t| - 1];
    }
  }

  /** `Number` refuses trimmed text whose first character cannot begin a
      numeric literal. */
  lemma NoNumberStartingWith(u: string)
    requires u != [] && !IsWhiteSpace(u[0]) && !IsWhiteSpace(u[|u| - 1])
    requires !IsDigit(u[0]) && u[0] !in ".+-"
    ensures StringToNumber(u).None?
  {
    TrimUnchanged(u);
    assert StringToNumber(u) == LiteralValue(u);
    NoDecimalStartingWith(u);
  }

  /** The decimal grammar refuses text whose first character is neither a
      digit nor a point. */
  lemma NoDecimalStartingWith(u: string)
    requires u != [] && !IsDigit(u[0]) && u[0] != '.'
    ensures UnsignedDecimal(u).None?
  {
    var k := IndexOfExponent(u);
    if k > 0 {
      var m := u[..k];
      assert m[0] == u[0];
      var d := IndexOf(m, '.');
      assert d > 0;
      assert m[..d][0] == u[0];
      DecimalRadixDigits(m[..d]);
    }
  }

  /** Text already free of surrounding white space goes straight to the
      comma replacement. */
  lemma NormalizeUnpadded(s: string)
    requires s != [] && !IsWhiteSpace(s[0]) && !IsWhiteSpace(s[|s| - 1])
    ensures NormalizeDecimal(s) == StringToNumber(ReplaceFirst(s, ',', '.'))
  {
    TrimUnchanged(s);
  }

  lemma CommaNormalizes(whole: string, fraction: string)
    requires AllDigits(whole) && AllDigits(fraction) && |whole| + |fraction| > 0
    ensures NormalizeDecimal(whole + "," + fraction) == Some(DecimalValue(whole, fraction))
  {
    var comma := whole + "," + fraction;
    assert IsDigit(comma[0]) || comma[0] == ',';
    assert IsDigit(comma[|comma| - 1]) || comma[|comma| - 1] == ',';
    NormalizeUnpadded(comma);
    DigitsLack(whole, ',');
    ReplaceFirstAfter(whole, ',', '.', fraction);
    DotNumber(whole, fraction);
  }

  lemma DotNormalizes(whole: string, fraction: string)
    requires AllDigits(whole) && AllDigits(fraction) && |whole| + |fraction| > 0
    ensures NormalizeDecimal(whole + "." + fraction) == Some(DecimalValue(whole, fraction))
  {
    var dot := whole + "." + fraction;
    assert IsDigit(dot[0]) || dot[0] == '.';
    assert IsDigit(dot[|dot| - 1]) || dot[|dot| - 1] == '.';
    NormalizeUnpadded(dot);
    NoCommaAroundDot(whole, fraction);
    assert ReplaceFirst(dot, ',', '.') == dot;
    DotNumber(whole, fraction);
  }

  lemma NoCommaAroundDot(whole: string, fraction: string)
    requires AllDigits(whole) && AllDigits(fraction)
    ensures ',' !in whole + "." + fraction
  {
    DigitsLack(whole, ',');
    DigitsLack(fraction, ',');
    assert whole + "." + fraction == whole + ['.'] + fraction;
  }

  /** `Number` of a plain `whole.fraction` string. */
  lemma DotNumber(whole: string, fraction: string)
    requires AllDigits(whole) && AllDigits(fraction) && |whole| + |fraction| > 0
    ensures StringToNumber(whole + "." + fraction) == Some(DecimalValue(whole, fraction))
  {
    var dot := whole + "." + fraction;
    assert IsDigit(dot[0]) || dot[0] == '.';
    assert IsDigit(dot[|dot| - 1]) || dot[|dot| - 1] == '.';
    assert |dot| >= 2 ==> IsDigit(dot[1]) || dot[1] == '.';
    NumberOfUnsigned(dot);
    DotDecimal(whole, fraction);
  }

  /** Text that starts with a digit or a point, with no sign or radix
      prefix, is read by the decimal grammar. */
  lemma NumberOfUnsigned(t: string)
    requires t != [] && (IsDigit(t[0]) || t[0] == '.')
    requires IsDigit(t[|t| - 1]) || t[|t| - 1] == '.'
    requires |t| >= 2 ==> IsDigit(t[1]) || t[1] == '.'
    ensures StringToNumber(t) == UnsignedDecimal(t)
  {
    assert !IsWhiteSpace(t[0]) && !IsWhiteSpace(t[|t| - 1]);
    TrimUnchanged(t);
    NumberOfTrimmed(t);
  }

  lemma NumberOfTrimmed(t: string)
    requires t != [] && Trim(t) == t
    requires !(|t| >= 2 && t[0] == '0' && (t[1] == 'x' || t[1] == 'X' || t[1] == 'o'
               || t[1] == 'O' || t[1] == 'b' || t[1] == 'B'))
    requires t[0] != '-' && t[0] != '+'
    ensures StringToNumber(t) == UnsignedDecimal(t)
  {
    assert StringToNumber(t) == LiteralValue(t);
  }

  /** `Number(x.toFixed(2))`: `x` rounded to two fractional digits, a tie
      going away from zero; from 10^21 on `toFixed` keeps every digit. */
  function ToFixed2(x: real): (r: real)
    ensures x >= 0.0 ==> r >= 0.0
  {
    if x < 0.0 then -FixedMagnitude(-x) else FixedMagnitude(x)
  }

  function FixedMagnitude(x: real): (r: real)
    requires x >= 0.0
    ensures r >= 0.0
  {
    if x >= 1000000000000000000000.0 then x
    else ((x * 100.0 + 0.5).Floor as real) / 100.0
  }

  /** Whole hundredths: the value has at most two fractional digits. */
  predicate IsCents(x: real) {
    (x * 100.0).Floor as real == x * 100.0
  }

  /** Rounding moves a value below 10^21 by at most half a hundredth and
      leaves whole hundredths. */
  lemma ToFixed2Rounds(x: real)
    requires 0.0 <= x < 1000000000000000000000.0
    ensures IsCents(ToFixed2(x))
    ensures -0.005 < ToFixed2(x) - x <= 0.005
  {
    var n := (x * 100.0 + 0.5).Floor;
    var y := ToFixed2(x);
    assert y == n as real / 100.0;
    assert y * 100.0 == n as real;
    assert n as real <= x * 100.0 + 0.5 < n as real + 1.0;
  }

  /** Rounding twice is rounding once. */
  lemma ToFixed2Idempotent(x: real)
    ensures ToFixed2(ToFixed2(x)) == ToFixed2(x)
  {
    var m := if x < 0.0 then -x else x;
    if m < 1000000000000000000000.0 {
      var n := (m * 100.0 + 0.5).Floor;
      var r := FixedMagnitude(m);
      assert r * 100.0 + 0.5 == n as real + 0.5;
      assert (r * 100.0 + 0.5).Floor == n;
    }
  }
}
