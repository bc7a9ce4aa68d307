/**
  `parseInt(s, 10)` as section 19.2.5 of ECMA-262 defines it: skip
  leading white space, take an optional sign, read the longest run of
  decimal digits, and answer NaN when that run is empty. The shortener
  uses it to read the validity field of a row.
 */
module JsParseInt {
  import opened JsString

  /** The Number that parseInt returns: NaN or an integer. The negative
      zero of "-0" is folded into Num(0). */
  datatype ParsedInt = NaN | Num(value: int)

  predicate IsDigit(c: char) {
    '0' <= c <= '9'
  }

  predicate AllDigits(s: string) {
    forall i :: 0 <= i < |s| ==> IsDigit(s[i])
  }

  function DigitValue(c: char): (d: nat)
    requires IsDigit(c)
    ensures d < 10
  {
    c as int - '0' as int
  }

  function DigitChar(d: nat): (c: char)
    requires d < 10
    ensures IsDigit(c) && DigitValue(c) == d
  {
    ('0' as int + d) as char
  }

  /** The longest prefix of `s` made of decimal digits. */
  function DigitPrefix(s: string): (r: string)
    ensures |r| <= |s| && r == s[..|r|]
    ensures AllDigits(r)
    ensures |r| < |s| ==> !IsDigit(s[|r|])
  {
    if s == [] || !IsDigit(s[0]) then []
    else [s[0]] + DigitPrefix(s[1..])
  }

  /** The mathematical value of a run of decimal digits, most significant first. */
  function DigitsValue(z: string): nat
    requires AllDigits(z)
  {
    if z == [] then 0
    else DigitsValue(z[..|z| - 1]) * 10 + DigitValue(z[|z| - 1])
  }

  /** The sign a parse takes from its first non-blank character. */
  predicate IsSign(c: char) {
    c == '+' || c == '-'
  }

  /** What remains of already left-trimmed text after one optional sign. */
  function AfterSign(t: string): string {
    if t != [] && IsSign(t[0]) then t[1..] else t
  }

  /** The steps of parseInt that follow the white-space skip. */
  function ParseSigned(t: string): ParsedInt {
    var z := DigitPrefix(AfterSign(t));
    if z == [] then NaN
    else if t[0] == '-' then Num(-(DigitsValue(z) as int))
    else Num(DigitsValue(z))
  }

  /** `parseInt(s, 10)`: NaN exactly when no digit follows the leading
      white space and the optional sign. */
  function ParseInt10(s: string): (r: ParsedInt)
    ensures var u := AfterSign(TrimStart(s));
            r == NaN <==> u == [] || !IsDigit(u[0])
  {
    ParseSigned(TrimStart(s))
  }

  /** Decimal rendering of a natural number without leading zeros. */
  function NatToDecimal(n: nat): (s: string)
    ensures s != [] && AllDigits(s)
    ensures s[0] != '0' || n == 0
  {
    if n < 10 then [DigitChar(n)]
    else NatToDecimal(n / 10) + [DigitChar(n % 10)]
  }

  /** An integer written in plain decimal digits, with a leading minus when
      negative (what `String(n)` gives for |n| below 10^21). */
  function ToDecimal(n: int): (s: string)
    ensures s != [] && (IsDigit(s[0]) || s[0] == '-')
  {
    if n < 0 then ['-'] + NatToDecimal(-n) else NatToDecimal(n)
  }

  lemma {:induction false} NatToDecimalValue(n: nat)
    ensures DigitsValue(NatToDecimal(n)) == n
  {
    if n >= 10 {
      var s := NatToDecimal(n);
      assert s[..|s| - 1] == NatToDecimal(n / 10);
      NatToDecimalValue(n / 10);
    }
  }

  /** The digit run of a string that starts with digits `z` and then
      stops at a non-digit (or at the end) is exactly `z`. */
  lemma {:induction false} DigitPrefixOf(z: string, rest: string)
    requires AllDigits(z)
    requires rest == [] || !IsDigit(rest[0])
    ensures DigitPrefix(z + rest) == z
  {
    if z == [] {
      assert z + rest == rest;
    } else {
      assert (z + rest)[1..] == z[1..] + rest;
      DigitPrefixOf(z[1..], rest);
    }
  }

  /** A run of digits `z` ended by `rest`, with or without a leading minus. */
  lemma ParseSignedDigits(negative: bool, u: string, z: string, rest: string)
    requires z != [] && AllDigits(z)
    requires rest == [] || !IsDigit(rest[0])
    requires u == z + rest
    ensures ParseSigned(if negative then ['-'] + u else u)
            == Num(if negative then -(DigitsValue(z) as int) else DigitsValue(z))
  {
    DigitPrefixOf(z, rest);
    if negative {
      assert AfterSign(['-'] + u) == u;
    } else {
      assert AfterSign(u) == u;
    }
  }

  lemma NoLeadingWhitespace(s: string)
    requires s != [] && (IsDigit(s[0]) || s[0] == '-')
    ensures TrimStart(s) == s
  {
    assert !IsJsWhitespace(s[0]);
  }

  /** parseInt reads back an integer written in plain decimal digits, and
      stops at the first character that is not a digit:
      parseInt("45min", 10) is 45. */
  lemma ParseIntReadsDecimal(n: int, rest: string)
    requires rest == [] || !IsDigit(rest[0])
    ensures ParseInt10(ToDecimal(n) + rest) == Num(n)
  {
    var s := ToDecimal(n) + rest;
    var m: nat := if n < 0 then -n else n;
    var u := NatToDecimal(m) + rest;
    assert s == if n < 0 then ['-'] + u else u;
    NoLeadingWhitespace(s);
    NatToDecimalValue(m);
    ParseSignedDigits(n < 0, u, NatToDecimal(m), rest);
  }

  /** Leading white space never changes the result. */
  lemma ParseIntSkipsWhitespace(w: string, s: string)
    requires AllWhitespace(w)
    ensures ParseInt10(w + s) == ParseInt10(s)
  {
    TrimStartSkips(w, s);
  }

  lemma {:induction false} TrimStartSkips(w: string, s: string)
    requires AllWhitespace(w)
    ensures TrimStart(w + s) == TrimStart(s)
  {
    if w != [] {
      assert (w + s)[1..] == w[1..] + s;
      TrimStartSkips(w[1..], s);
    } else {
      assert w + s == s;
    }
  }

  /** The result is NaN exactly when no digit follows the leading white
      space and the optional sign. The second clause only unfolds the
      definition for the other case: the signed value of the digit run. */
  lemma ParseIntCases(s: string)
    ensures var u := AfterSign(TrimStart(s));
            ParseInt10(s) == NaN <==> u == [] || !IsDigit(u[0])
    ensures var t := TrimStart(s);
            var u := AfterSign(t);
            u != [] && IsDigit(u[0]) ==>
              ParseInt10(s) == Num(if t[0] == '-' then -(DigitsValue(DigitPrefix(u)) as int)
                                   else DigitsValue(DigitPrefix(u)))
  {
  }
}
