/**
 * The JavaScript semantics the route handlers depend on: the values a parsed
 * JSON request body (or an absent field of it) can hold, truthiness, strict
 * equality, `String.prototype.trim`, the decimal text of a number, and the
 * two string-to-number conversions `parseInt` and `Number`.
 *
 * Numbers are integers here; fractions, NaN and infinities are not values of
 * the model (NaN appears only as the failed result `None` of a conversion).
 */
module Js {
  import opened Wrappers

  /** A request-body value. `Obj` stands for any object or array. */
  datatype Value = Undefined | Null | Bool(b: bool) | Num(n: int) | Str(s: string) | Obj

  /** `!!v`. */
  predicate Truthy(v: Value) {
    match v
    case Undefined => false
    case Null => false
    case Bool(b) => b
    case Num(n) => n != 0
    case Str(s) => s != ""
    case Obj => true
  }

  /**
   * `a === b`. Objects compare by reference, and two objects parsed from
   * JSON are never the same reference, so an object equals nothing.
   */
  predicate StrictEquals(a: Value, b: Value) {
    a == b && !a.Obj?
  }

  /** The characters `trim` removes: WhiteSpace and LineTerminator of ECMAScript. */
  predicate IsWhiteSpace(c: char) {
    var k := c as int;
    k == 0x09 || k == 0x0A || k == 0x0B || k == 0x0C || k == 0x0D || k == 0x20 ||
    k == 0xA0 || k == 0x1680 || (0x2000 <= k <= 0x200A) || k == 0x2028 || k == 0x2029 ||
    k == 0x202F || k == 0x205F || k == 0x3000 || k == 0xFEFF
  }

  /** Every character is white space (true of the empty string). */
  predicate AllWhiteSpace(s: string) {
    forall i :: 0 <= i < |s| ==> IsWhiteSpace(s[i])
  }

  /** `trimStart`: the longest suffix not starting with white space. */
  function TrimStart(s: string): (r: string)
    ensures |r| <= |s| && r == s[|s| - |r|..]
    ensures forall i :: 0 <= i < |s| - |r| ==> IsWhiteSpace(s[i])
    ensures r == [] || !IsWhiteSpace(r[0])
  {
    if s != [] && IsWhiteSpace(s[0]) then TrimStart(s[1..]) else s
  }

  /** `trimEnd`: the longest prefix not ending with white space. */
  function TrimEnd(s: string): (r: string)
    ensures |r| <= |s| && r == s[..|r|]
    ensures forall i :: |r| <= i < |s| ==> IsWhiteSpace(s[i])
    ensures r == [] || !IsWhiteSpace(r[|r| - 1])
  {
    if s != [] && IsWhiteSpace(s[|s| - 1]) then TrimEnd(s[..|s| - 1]) else s
  }

  /** `trim`: empty exactly for all-white-space input, otherwise bounded by non-space characters. */
  function Trim(s: string): (r: string)
    ensures |r| <= |s|
    ensures r == [] <==> AllWhiteSpace(s)
    ensures r == [] || (!IsWhiteSpace(r[0]) && !IsWhiteSpace(r[|r| - 1]))
  {
    var t := TrimStart(s);
    var r := TrimEnd(t);
    TrimProperties(s, t, r);
    r
  }

  lemma TrimProperties(s: string, t: string, r: string)
    requires t == TrimStart(s) && r == TrimEnd(t)
    ensures r == [] <==> AllWhiteSpace(s)
    ensures r == [] || (!IsWhiteSpace(r[0]) && !IsWhiteSpace(r[|r| - 1]))
  {
    if r != [] {
      assert r[0] == t[0];
      assert !AllWhiteSpace(s) by {
        assert t[0] == s[|s| - |t|];
      }
    } else {
      TrimmedAway(s);
    }
  }

  /** When trimming leaves nothing, every character was white space. */
  lemma TrimmedAway(s: string)
    requires TrimEnd(TrimStart(s)) == []
    ensures AllWhiteSpace(s)
  {
    var t := TrimStart(s);
    assert t == [] by {
      assert TrimEnd(t) == [];
    }
  }

  /** Trimming a string that has no white space at either end changes nothing. */
  lemma TrimUntrimmed(s: string)
    requires s == [] || (!IsWhiteSpace(s[0]) && !IsWhiteSpace(s[|s| - 1]))
    ensures Trim(s) == s
  {
  }

  /**
   * The value of `c` as a digit in any radix up to 36: `0`-`9` are 0-9, the
   * letters of either case are 10-35 in alphabetical order, and every other
   * character is 36, a digit in no radix.
   */
  function DigitValue(c: char): (d: nat)
    ensures '0' <= c <= '9' ==> d == c as int - '0' as int
    ensures 'a' <= c <= 'z' ==> d == 10 + (c as int - 'a' as int)
    ensures 'A' <= c <= 'Z' ==> d == 10 + (c as int - 'A' as int)
    ensures d <= 36 && (d == 36 <==> !('0' <= c <= '9' || 'a' <= c <= 'z' || 'A' <= c <= 'Z'))
  {
    if '0' <= c <= '9' then c as nat - '0' as nat
    else if 'a' <= c <= 'z' then c as nat - 'a' as nat + 10
    else if 'A' <= c <= 'Z' then c as nat - 'A' as nat + 10
    else 36
  }

  predicate IsDigit(c: char, radix: nat) {
    DigitValue(c) < radix
  }

  /** The length of the longest prefix of `s` made of radix-`radix` digits. */
  function DigitRun(s: string, radix: nat): (n: nat)
    ensures n <= |s|
    ensures forall i :: 0 <= i < n ==> IsDigit(s[i], radix)
    ensures n < |s| ==> !IsDigit(s[n], radix)
  {
    if s != [] && IsDigit(s[0], radix) then 1 + DigitRun(s[1..], radix) else 0
  }

  /** The number a run of digits denotes, most significant digit first. */
  function DigitsValue(s: string, radix: nat): nat
    requires forall i :: 0 <= i < |s| ==> IsDigit(s[i], radix)
  {
    if s == [] then 0
    else
      var high := DigitsValue(s[..|s| - 1], radix);
      ProductOfNaturals(high, radix);
      high * radix + DigitValue(s[|s| - 1])
  }

  lemma ProductOfNaturals(a: nat, b: nat)
    ensures a * b >= 0
  {
  }

  /** The decimal digit character of `d`. */
  function DigitChar(d: nat): (c: char)
    requires d < 10
    ensures IsDigit(c, 10) && DigitValue(c) == d
  {
    ('0' as int + d) as char
  }

  /**
   * The decimal text of a natural number: digits only, no leading zero, and
   * denoting the number again.
   */
  function NatToDecimal(n: nat): (r: string)
    ensures r != [] && forall i :: 0 <= i < |r| ==> IsDigit(r[i], 10)
    ensures DigitsValue(r, 10) == n
    ensures |r| > 1 ==> r[0] != '0'
  {
    if n < 10 then [DigitChar(n)]
    else
      var r := NatToDecimal(n / 10) + [DigitChar(n % 10)];
      assert r[..|r| - 1] == NatToDecimal(n / 10);
      r
  }

  /** `String(n)` for an integer `n` (below 10^21 in magnitude). */
  function DecimalString(n: int): string {
    if n < 0 then "-" + NatToDecimal(-n) else NatToDecimal(n)
  }

  /** `String(v)`, the conversion `parseInt` applies to its argument first. */
  function ToJsString(v: Value): string {
    match v
    case Undefined => "undefined"
    case Null => "null"
    case Bool(b) => if b then "true" else "false"
    case Num(n) => DecimalString(n)
    case Str(s) => s
    case Obj => "[object Object]"
  }

  /**
   * `parseInt(text)` with no radix: leading white space is skipped, one sign
   * is read, a `0x`/`0X` prefix selects radix 16, and the longest run of
   * digits after that is the number; with no digit the result is NaN (`None`).
   */
  function ParseIntText(text: string): Option<int> {
    var s := TrimStart(text);
    if s != [] && s[0] == '-' then Negate(ParseUnsigned(s[1..]))
    else if s != [] && s[0] == '+' then ParseUnsigned(s[1..])
    else ParseUnsigned(s)
  }

  function Negate(r: Option<int>): Option<int> {
    match r
    case None => None
    case Some(m) => Some(0 - m)
  }

  /** The unsigned part of `parseInt`: an optional `0x` prefix, then the longest digit run. */
  function ParseUnsigned(u: string): Option<int> {
    var hex := |u| >= 2 && u[0] == '0' && (u[1] == 'x' || u[1] == 'X');
    var radix := if hex then 16 else 10;
    var body := if hex then u[2..] else u;
    var k := DigitRun(body, radix);
    if k == 0 then None else Some(DigitsValue(body[..k], radix))
  }

  /** `parseInt(v)`. */
  function ParseInt(v: Value): Option<int> {
    ParseIntText(ToJsString(v))
  }

  /**
   * `Number(text)` for the forms that denote integers: the whole trimmed text
   * must be a signed decimal numeral or an unsigned `0x` numeral; the empty
   * text is 0; anything else is NaN (`None`).
   */
  function StringToNumber(text: string): Option<int> {
    NumberOfTrimmed(Trim(text))
  }

  /** `Number` on text already trimmed. */
  function NumberOfTrimmed(t: string): Option<int> {
    if t == [] then Some(0)
    else if |t| >= 2 && t[0] == '0' && (t[1] == 'x' || t[1] == 'X') then
      if |t| > 2 && DigitRun(t[2..], 16) == |t| - 2 then Some(DigitsValue(t[2..], 16)) else None
    else if t[0] == '-' then Negate(DecimalNumeral(t[1..]))
    else if t[0] == '+' then DecimalNumeral(t[1..])
    else DecimalNumeral(t)
  }

  /** A text made only of decimal digits, at least one. */
  function DecimalNumeral(u: string): Option<int> {
    if u != [] && DigitRun(u, 10) == |u| then Some(DigitsValue(u, 10)) else None
  }

  /** A run of digits followed by a non-digit is read up to that character. */
  lemma {:induction false} DigitRunOfDigits(d: string, t: string, radix: nat)
    requires forall i :: 0 <= i < |d| ==> IsDigit(d[i], radix)
    requires t == [] || !IsDigit(t[0], radix)
    ensures DigitRun(d + t, radix) == |d|
  {
    if d != [] {
      assert (d + t)[1..] == d[1..] + t;
      DigitRunOfDigits(d[1..], t, radix);
    } else {
      assert d + t == t;
    }
  }

  /**
   * `parseInt` reads a decimal numeral and ignores whatever follows its last
   * digit, as in `parseInt("12px") == 12` (but "0" followed by "x" is a
   * hexadecimal prefix).
   */
  lemma ParseIntReadsNumeral(d: string, t: string)
    requires d != [] && forall i :: 0 <= i < |d| ==> IsDigit(d[i], 10)
    requires t == [] || !IsDigit(t[0], 10)
    requires d == "0" && t != [] ==> t[0] != 'x' && t[0] != 'X'
    ensures ParseIntText(d + t) == Some(DigitsValue(d, 10))
  {
    var u := d + t;
    ParseUnsignedReadsNumeral(d, t);
    assert u[0] == d[0];
    TrimStartUntrimmed(u);
    assert u[0] != '-' && u[0] != '+';
  }

  /**
   * A minus sign before a text that starts with neither white space nor a
   * sign negates what `parseInt` reads: `parseInt("-12px") == -12`.
   */
  lemma ParseIntReadsNegative(u: string, v: nat)
    requires u != [] && !IsWhiteSpace(u[0]) && u[0] != '-' && u[0] != '+'
    requires ParseIntText(u) == Some(v)
    ensures ParseIntText("-" + u) == Some(0 - v)
  {
    var s := "-" + u;
    assert s[0] == '-' && s[1..] == u;
    TrimStartUntrimmed(s);
    TrimStartUntrimmed(u);
  }

  lemma TrimStartUntrimmed(s: string)
    requires s != [] && !IsWhiteSpace(s[0])
    ensures TrimStart(s) == s
  {
  }

  lemma ParseUnsignedReadsNumeral(d: string, t: string)
    requires d != [] && forall i :: 0 <= i < |d| ==> IsDigit(d[i], 10)
    requires t == [] || !IsDigit(t[0], 10)
    requires d == "0" && t != [] ==> t[0] != 'x' && t[0] != 'X'
    ensures ParseUnsigned(d + t) == Some(DigitsValue(d, 10))
  {
    var u := d + t;
    assert u[0] == d[0];
    assert !(|u| >= 2 && u[0] == '0' && (u[1] == 'x' || u[1] == 'X')) by {
      if |u| >= 2 && u[0] == '0' {
        if |d| >= 2 {
          assert u[1] == d[1];
        } else {
          assert u[1] == t[0];
        }
      }
    }
    DigitRunOfDigits(d, t, 10);
    assert u[..|d|] == d;
  }

  /** `parseInt(String(n)) == n`. */
  lemma ParseIntOfDecimalString(n: int)
    ensures ParseIntText(DecimalString(n)) == Some(n)
    ensures ParseInt(Num(n)) == Some(n)
  {
    var m := if n < 0 then -n else n;
    var d := NatToDecimal(m);
    assert d + "" == d;
    ParseIntReadsNumeral(d, "");
    if n < 0 {
      ParseIntReadsNegative(d, m);
    }
    assert ParseInt(Num(n)) == ParseIntText(DecimalString(n));
  }

  /** Different integers have different decimal texts. */
  lemma DecimalStringInjective(a: int, b: int)
    requires DecimalString(a) == DecimalString(b)
    ensures a == b
  {
    ParseIntOfDecimalString(a);
    ParseIntOfDecimalString(b);
  }

  /** The shape of `String(n)`: an optional minus sign, then the digits of the magnitude. */
  lemma DecimalStringShape(n: int)
    ensures var s := DecimalString(n);
      && s != [] && s[0] != '+' && !IsWhiteSpace(s[0]) && !IsWhiteSpace(s[|s| - 1])
      && (s[0] == '0' ==> |s| == 1)
      && (n < 0 ==> s[0] == '-' && s[1..] == NatToDecimal(-n))
      && (n >= 0 ==> s[0] != '-' && s == NatToDecimal(n))
  {
    var s := DecimalString(n);
    if n < 0 {
      assert s[1..] == NatToDecimal(-n);
      assert s[|s| - 1] == NatToDecimal(-n)[|s| - 2];
    }
  }

  /** `Number(String(n)) == n`. */
  lemma StringToNumberOfDecimalString(n: int)
    ensures StringToNumber(DecimalString(n)) == Some(n)
  {
    var m := if n < 0 then -n else n;
    var d := NatToDecimal(m);
    var s := DecimalString(n);
    DecimalStringShape(n);
    TrimUntrimmed(s);
    DecimalNumeralOfDigits(d);
    if n < 0 {
      assert NumberOfTrimmed(s) == Negate(DecimalNumeral(d));
    } else {
      assert NumberOfTrimmed(s) == DecimalNumeral(d);
    }
  }

  /** `Number` reads a run of decimal digits as the number it denotes. */
  lemma DecimalNumeralOfDigits(d: string)
    requires d != [] && forall i :: 0 <= i < |d| ==> IsDigit(d[i], 10)
    ensures DecimalNumeral(d) == Some(DigitsValue(d, 10))
  {
    DigitRunOfDigits(d, "", 10);
    assert d + "" == d;
  }
}
