/** The string primitives of ECMAScript that the inventory code relies on:
    `String.prototype.trim`, `parseInt(s, 10)`, `String(n)` for a natural
    number, the first-occurrence `String.prototype.replace` and
    `Array.prototype.join`. */
module JsStrings {
  import opened Wrappers

  /** ECMAScript's WhiteSpace and LineTerminator code points: the characters
      that `trim` removes and that `parseInt` skips at the start. */
  predicate IsWhiteSpace(c: char) {
    || c == '\t' || c == '\n' || c == '\U{000B}' || c == '\U{000C}' || c == '\r'
    || c == ' ' || c == '\U{00A0}' || c == '\U{1680}' || ('\U{2000}' <= c <= '\U{200A}')
    || c == '\U{2028}' || c == '\U{2029}' || c == '\U{202F}' || c == '\U{205F}'
    || c == '\U{3000}' || c == '\U{FEFF}'
  }

  predicate IsDigit(c: char) {
    '0' <= c <= '9'
  }

  predicate AllDigits(s: string) {
    forall i :: 0 <= i < |s| ==> IsDigit(s[i])
  }

  /** Leading white space removed. */
  function TrimStart(s: string): (r: string)
    ensures |r| <= |s| && r == s[|s| - |r|..]
    ensures forall i :: 0 <= i < |s| - |r| ==> IsWhiteSpace(s[i])
    ensures r == [] || !IsWhiteSpace(r[0])
  {
    if |s| > 0 && IsWhiteSpace(s[0]) then TrimStart(s[1..]) else s
  }

  /** Trailing white space removed. */
  function TrimEnd(s: string): (r: string)
    ensures |r| <= |s| && r == s[..|r|]
    ensures forall i :: |r| <= i < |s| ==> IsWhiteSpace(s[i])
    ensures r == [] || !IsWhiteSpace(r[|r| - 1])
  {
    if |s| > 0 && IsWhiteSpace(s[|s| - 1]) then TrimEnd(s[..|s| - 1]) else s
  }

  /** `String.prototype.trim`: white space removed at both ends. */
  function Trim(s: string): (r: string)
    ensures |r| <= |s|
    ensures r == [] || (!IsWhiteSpace(r[0]) && !IsWhiteSpace(r[|r| - 1]))
    ensures r == [] <==> forall i :: 0 <= i < |s| ==> IsWhiteSpace(s[i])
  {
    TrimEnd(TrimStart(s))
  }

  /** How much white space `s` starts with. */
  function LeadingSpace(s: string): nat {
    |s| - |TrimStart(s)|
  }

  /** The trim is the middle of `s`: it starts where the leading white space
      ends, and everything outside it is white space. */
  lemma TrimIsMiddle(s: string)
    ensures LeadingSpace(s) + |Trim(s)| <= |s|
    ensures Trim(s) == s[LeadingSpace(s)..LeadingSpace(s) + |Trim(s)|]
    ensures forall i :: 0 <= i < LeadingSpace(s) ==> IsWhiteSpace(s[i])
    ensures forall i :: LeadingSpace(s) + |Trim(s)| <= i < |s| ==> IsWhiteSpace(s[i])
  {
    var t := TrimStart(s);
    var r := TrimEnd(t);
    assert Trim(s) == r;
    PrefixOfSuffix(s, LeadingSpace(s), t, r);
  }

  /** A prefix `r` of the suffix `t` of `s` from `k` on is the slice of `s`
      from `k`, and what follows `r` in `t` follows it in `s`. */
  lemma PrefixOfSuffix(s: string, k: nat, t: string, r: string)
    requires k <= |s| && t == s[k..]
    requires |r| <= |t| && r == t[..|r|]
    requires forall i :: |r| <= i < |t| ==> IsWhiteSpace(t[i])
    ensures k + |r| <= |s| && r == s[k..k + |r|]
    ensures forall i :: k + |r| <= i < |s| ==> IsWhiteSpace(s[i])
  {
    forall i | k + |r| <= i < |s|
      ensures IsWhiteSpace(s[i])
    {
      assert s[i] == t[i - k];
    }
  }

  /** A string that neither starts nor ends with white space is its own trim. */
  lemma TrimUnchanged(s: string)
    requires s == [] || (!IsWhiteSpace(s[0]) && !IsWhiteSpace(s[|s| - 1]))
    ensures Trim(s) == s
  {
  }

  /** The longest prefix of `s` made of decimal digits. */
  function LeadingDigits(s: string): (r: string)
    ensures |r| <= |s| && r == s[..|r|] && AllDigits(r)
    ensures |r| == |s| || !IsDigit(s[|r|])
  {
    if |s| > 0 && IsDigit(s[0]) then [s[0]] + LeadingDigits(s[1..]) else []
  }

  /** The value of a digit in bases up to 36: `0`-`9`, then `a`/`A` = 10 onwards. */
  function DigitValue(c: char): nat {
    if '0' <= c <= '9' then c as nat - '0' as nat
    else if 'a' <= c <= 'z' then c as nat - 'a' as nat + 10
    else if 'A' <= c <= 'Z' then c as nat - 'A' as nat + 10
    else 36
  }

  predicate IsRadixDigit(c: char, radix: nat) {
    DigitValue(c) < radix
  }

  predicate AllRadixDigits(s: string, radix: nat) {
    forall i :: 0 <= i < |s| ==> IsRadixDigit(s[i], radix)
  }

  /** In base 10 the radix digits are exactly the decimal digits. */
  lemma DecimalRadixDigits(s: string)
    ensures AllRadixDigits(s, 10) <==> AllDigits(s)
  {
    assert forall c :: IsRadixDigit(c, 10) <==> IsDigit(c);
  }

  /** The natural number a string of base-`radix` digits denotes, most
      significant digit first. */
  function Value(ds: string, radix: nat): (n: nat)
    requires AllRadixDigits(ds, radix)
    ensures ds == [] ==> n == 0
  {
    if ds == [] then 0 else Value(ds[..|ds| - 1], radix) * radix + DigitValue(ds[|ds| - 1])
  }

  /** `parseInt(s, 10)`: skip leading white space, take one optional sign,
      then the longest run of decimal digits; no digits gives `NaN` (None).
      Whatever follows the digits is ignored. */
  function ParseInt(s: string): (r: Option<int>)
    ensures r.None? <==> LeadingDigits(UnsignedPart(TrimStart(s))) == []
  {
    ParseTrimmed(TrimStart(s))
  }

  /** What `parseInt` reads once the leading white space is gone: one
      optional sign, then the longest run of decimal digits. */
  function ParseTrimmed(t: string): (r: Option<int>)
    ensures r.None? <==> LeadingDigits(UnsignedPart(t)) == []
  {
    var digits := LeadingDigits(UnsignedPart(t));
    if digits == [] then None
    else
      var n: int := Value(digits, 10);
      Some(if |t| > 0 && t[0] == '-' then -n else n)
  }

  /** `s` without one leading `+` or `-`. */
  function UnsignedPart(t: string): string {
    if |t| > 0 && (t[0] == '+' || t[0] == '-') then t[1..] else t
  }

  /** `String(n)` for a natural number: its decimal digits, no leading zero. */
  function ShowNat(n: nat): (s: string)
    ensures |s| > 0 && AllDigits(s)
    ensures s[0] != '0' || n == 0
  {
    if n < 10 then [DigitChar(n)] else ShowNat(n / 10) + [DigitChar(n % 10)]
  }

  function DigitChar(d: nat): (c: char)
    requires d < 10
    ensures IsDigit(c) && DigitValue(c) == d
  {
    (d + '0' as nat) as char
  }

  lemma {:induction false} ValueOfShowNat(n: nat)
    ensures AllRadixDigits(ShowNat(n), 10) && Value(ShowNat(n), 10) == n
  {
    var s := ShowNat(n);
    if n >= 10 {
      ValueOfShowNat(n / 10);
      assert s[..|s| - 1] == ShowNat(n / 10);
    }
  }

  lemma {:induction false} LeadingDigitsOfDigitsThen(ds: string, rest: string)
    requires AllDigits(ds)
    requires rest == [] || !IsDigit(rest[0])
    ensures LeadingDigits(ds + rest) == ds
  {
    if ds != [] {
      assert (ds + rest)[1..] == ds[1..] + rest;
      LeadingDigitsOfDigitsThen(ds[1..], rest);
    }
  }

  /** With no leading white space, `parseInt` starts at the sign. */
  lemma ParseIntUnpadded(s: string)
    requires s != [] && !IsWhiteSpace(s[0])
    ensures var digits := LeadingDigits(UnsignedPart(s));
            ParseInt(s) == if digits == [] then None
                           else Some(if s[0] == '-' then -(Value(digits, 10) as int)
                                     else Value(digits, 10) as int)
  {
    assert TrimStart(s) == s;
  }

  /** `parseInt` reads back `String(n)`, and stops at the first character
      that is not a digit: `parseInt("3.7")` is 3 and `parseInt("12abc")` is 12. */
  lemma ParseIntShowNat(n: nat, rest: string)
    requires rest == [] || !IsDigit(rest[0])
    ensures ParseInt(ShowNat(n) + rest) == Some(n)
  {
    var ds := ShowNat(n);
    ValueOfShowNat(n);
    DecimalRadixDigits(ds);
    ParseIntUnsigned(ds, rest, n);
  }

  /** A minus sign followed by a digit string that is not all zeros parses
      to a negative number. */
  lemma ParseIntNegative(n: nat, rest: string)
    requires n > 0
    requires rest == [] || !IsDigit(rest[0])
    ensures ParseInt("-" + ShowNat(n) + rest) == Some(-(n as int))
  {
    var ds := ShowNat(n);
    ValueOfShowNat(n);
    DecimalRadixDigits(ds);
    assert "-" + ds + rest == ['-'] + (ds + rest);
    ParseIntAfterSign('-', ds, rest, n);
  }

  /** Leading white space is skipped up to the first other character. */
  lemma {:induction false} TrimStartSkips(ws: string, t: string)
    requires forall i :: 0 <= i < |ws| ==> IsWhiteSpace(ws[i])
    requires t == [] || !IsWhiteSpace(t[0])
    ensures TrimStart(ws + t) == t
  {
    if ws == [] {
      assert ws + t == t;
    } else {
      assert (ws + t)[0] == ws[0];
      assert (ws + t)[1..] == ws[1..] + t;
      TrimStartSkips(ws[1..], t);
    }
  }

  /** `parseInt` in general: white space, at most one sign, a run of
      digits (leading zeros allowed) and anything not starting with a digit
      give the signed value of the digits. */
  lemma ParseIntDigits(ws: string, sign: string, ds: string, rest: string)
    requires forall i :: 0 <= i < |ws| ==> IsWhiteSpace(ws[i])
    requires sign == "" || sign == "+" || sign == "-"
    requires ds != [] && AllRadixDigits(ds, 10)
    requires rest == [] || !IsDigit(rest[0])
    ensures ParseInt(ws + sign + ds + rest)
            == Some(if sign == "-" then -(Value(ds, 10) as int) else Value(ds, 10) as int)
  {
    var t := sign + (ds + rest);
    assert ws + sign + ds + rest == ws + t;
    assert t[0] == if sign == "" then ds[0] else sign[0];
    DecimalRadixDigits(ds);
    ParseIntSkips(ws, t);
    ParseIntSigned(sign, ds, rest);
  }

  /** The same without white space in front. */
  lemma ParseIntSigned(sign: string, ds: string, rest: string)
    requires sign == "" || sign == "+" || sign == "-"
    requires ds != [] && AllRadixDigits(ds, 10)
    requires rest == [] || !IsDigit(rest[0])
    ensures ParseInt(sign + (ds + rest))
            == Some(if sign == "-" then -(Value(ds, 10) as int) else Value(ds, 10) as int)
  {
    DecimalRadixDigits(ds);
    var n := Value(ds, 10);
    var tail := ds + rest;
    if sign == "" {
      assert sign + tail == tail;
      ParseIntUnsigned(ds, rest, n);
    } else if sign == "+" {
      assert sign + tail == ['+'] + tail;
      ParseIntAfterSign('+', ds, rest, n);
    } else {
      assert sign + tail == ['-'] + tail;
      ParseIntAfterSign('-', ds, rest, n);
    }
  }

  /** Digits with no sign in front read as their value `n`. */
  lemma ParseIntUnsigned(ds: string, rest: string, n: nat)
    requires ds != [] && AllDigits(ds) && AllRadixDigits(ds, 10) && Value(ds, 10) == n
    requires rest == [] || !IsDigit(rest[0])
    ensures ParseInt(ds + rest) == Some(n)
  {
    var s := ds + rest;
    assert s[0] == ds[0];
    assert UnsignedPart(s) == s;
    LeadingDigitsOfDigitsThen(ds, rest);
    ParseIntRead(s, ds);
  }

  /** Digits after one `+` or `-` read as `n` or `-n`. */
  lemma ParseIntAfterSign(c: char, ds: string, rest: string, n: nat)
    requires c == '+' || c == '-'
    requires ds != [] && AllDigits(ds) && AllRadixDigits(ds, 10) && Value(ds, 10) == n
    requires rest == [] || !IsDigit(rest[0])
    ensures ParseInt([c] + (ds + rest)) == Some(if c == '-' then -(n as int) else n as int)
  {
    SignStripped(c, ds + rest);
    LeadingDigitsOfDigitsThen(ds, rest);
    ParseIntRead([c] + (ds + rest), ds);
  }

  lemma SignStripped(c: char, tail: string)
    requires c == '+' || c == '-'
    ensures var s := [c] + tail; s[0] == c && !IsWhiteSpace(s[0]) && UnsignedPart(s) == tail
  {
    var s := [c] + tail;
    assert s[1..] == tail;
  }

  /** `parseInt` of text that starts with a sign or a digit, given the run
      of digits it reads. */
  lemma ParseIntRead(s: string, ds: string)
    requires s != [] && !IsWhiteSpace(s[0])
    requires ds != [] && AllRadixDigits(ds, 10) && LeadingDigits(UnsignedPart(s)) == ds
    ensures ParseInt(s) == Some(if s[0] == '-' then -(Value(ds, 10) as int) else Value(ds, 10) as int)
  {
    ParseIntUnpadded(s);
  }

  /** White space before the number does not change what `parseInt` reads. */
  lemma ParseIntSkips(ws: string, t: string)
    requires forall i :: 0 <= i < |ws| ==> IsWhiteSpace(ws[i])
    requires t != [] && !IsWhiteSpace(t[0])
    ensures ParseInt(ws + t) == ParseInt(t)
  {
    TrimStartSkips(ws, t);
    TrimStartSkips([], t);
    assert [] + t == t;
  }

  /** Position of the first `c` in `s`, or `|s|`. */
  function IndexOf(s: string, c: char): (k: nat)
    ensures k <= |s| && c !in s[..k]
    ensures k < |s| ==> s[k] == c
  {
    if s == [] then 0
    else if s[0] == c then 0
    else
      var k := 1 + IndexOf(s[1..], c);
      assert s[..k] == [s[0]] + s[1..][..k - 1];
      k
  }

  lemma {:induction false} IndexOfAfter(a: string, c: char, b: string)
    requires c !in a
    ensures IndexOf(a + [c] + b, c) == |a|
  {
    if a != [] {
      assert (a + [c] + b)[1..] == a[1..] + [c] + b;
      IndexOfAfter(a[1..], c, b);
    }
  }

  /** `s.replace(a, b)` with a one-character pattern: only the first
      occurrence of `a` is replaced. */
  function ReplaceFirst(s: string, a: char, b: char): (r: string)
    ensures |r| == |s|
    ensures a !in s ==> r == s
    ensures forall i :: 0 <= i < |s| && i != IndexOf(s, a) ==> r[i] == s[i]
    ensures a in s ==> r[IndexOf(s, a)] == b
  {
    var k := IndexOf(s, a);
    if k == |s| then s else s[..k] + [b] + s[k + 1..]
  }

  lemma ReplaceFirstAfter(a: string, c: char, d: char, b: string)
    requires c !in a
    ensures ReplaceFirst(a + [c] + b, c, d) == a + [d] + b
  {
    var s := a + [c] + b;
    IndexOfAfter(a, c, b);
    assert s[..|a|] == a && s[|a| + 1..] == b;
  }

  /** `Array.prototype.join(sep)`. */
  function Join(parts: seq<string>, sep: string): (r: string)
    ensures |parts| == 1 ==> r == parts[0]
  {
    if parts == [] then []
    else if |parts| == 1 then parts[0]
    else parts[0] + sep + Join(parts[1..], sep)
  }
}
