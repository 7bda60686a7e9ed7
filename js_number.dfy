/**
 * The JavaScript numbers the modelled code produces: the result of
 * `parseInt(s)` (no radix) and the decimal text of an integer (what a
 * template literal or `String(n)` gives). Only integers and NaN occur.
 */
module JsNumber {
  import opened JsString

  /** A number produced by `parseInt`: NaN or an integer (`-0` is `Int(0)`). */
  datatype Num = NaN | Int(n: int)

  /** Truthiness of a number: `0`, `-0` and `NaN` are falsy. */
  predicate Truthy(x: Num)
  {
    x.Int? && x.n != 0
  }

  /** The value of `c` as a digit in `radix` (2..36), or -1. */
  function DigitValue(c: char, radix: int): (d: int)
    ensures -1 <= d < radix || d == -1
  {
    var v :=
      if '0' <= c <= '9' then c as int - '0' as int
      else if 'a' <= c <= 'z' then c as int - 'a' as int + 10
      else if 'A' <= c <= 'Z' then c as int - 'A' as int + 10
      else -1;
    if 0 <= v < radix then v else -1
  }

  /** The number of leading characters of `s` that are digits in `radix`. */
  function DigitRun(s: string, radix: int): (k: nat)
    ensures k <= |s|
    ensures forall i :: 0 <= i < k ==> DigitValue(s[i], radix) >= 0
    ensures k < |s| ==> DigitValue(s[k], radix) == -1
  {
    if s == "" || DigitValue(s[0], radix) < 0 then 0 else 1 + DigitRun(s[1..], radix)
  }

  /** The value of a string of digits in `radix`, most significant first. */
  function DigitsValue(ds: string, radix: int): (v: int)
    requires forall i :: 0 <= i < |ds| ==> DigitValue(ds[i], radix) >= 0
    ensures v >= 0
  {
    if ds == "" then 0
    else DigitsValue(ds[..|ds| - 1], radix) * radix + DigitValue(ds[|ds| - 1], radix)
  }

  /**
   * `parseInt(s)` with no radix (ECMAScript section 19.2.5): leading white
   * space is skipped, one sign is read, then the rest is read by
   * `ParseUnsigned`.
   */
  function ParseInt(s: string): (r: Num)
    ensures AllWhitespace(s) ==> r == NaN
    ensures r.Int? ==> StartsWithDigit(TrimStart(s)) || (TrimStart(s)[0] in "+-" && StartsWithDigit(TrimStart(s)[1..]))
    ensures r.Int? && r.n < 0 ==> TrimStart(s)[0] == '-'
  {
    var t := TrimStart(s);
    if t != "" && (t[0] == '-' || t[0] == '+') then
      match ParseUnsigned(t[1..])
      case NaN => NaN
      case Int(m) => Int(if t[0] == '-' then -m else m)
    else
      ParseUnsigned(t)
  }

  /** `s` starts with a decimal digit. */
  predicate StartsWithDigit(s: string)
  {
    s != "" && '0' <= s[0] <= '9'
  }

  /** A `0x`/`0X` prefix selects radix 16, then the longest run of digits is read; no digits is NaN. */
  function ParseUnsigned(u: string): (r: Num)
    ensures r.Int? ==> StartsWithDigit(u) && r.n >= 0
  {
    var hex := |u| >= 2 && u[0] == '0' && (u[1] == 'x' || u[1] == 'X');
    var radix := if hex then 16 else 10;
    var v := if hex then u[2..] else u;
    var k := DigitRun(v, radix);
    if k == 0 then NaN else Int(DigitsValue(v[..k], radix))
  }

  function DigitChar(d: int): (c: char)
    requires 0 <= d < 10
    ensures DigitValue(c, 10) == d
  {
    ('0' as int + d) as char
  }

  /** Decimal text of a natural number, without leading zeros. */
  function NatToString(n: nat): (s: string)
    ensures s != ""
    ensures forall i :: 0 <= i < |s| ==> '0' <= s[i] <= '9' && DigitValue(s[i], 10) >= 0
    ensures |s| >= 2 ==> s[0] != '0'
  {
    if n < 10 then [DigitChar(n)] else NatToString(n / 10) + [DigitChar(n % 10)]
  }

  /** `String(n)` for an integer `n`. */
  function IntToString(n: int): (s: string)
    ensures s != ""
    ensures n < 0 <==> s[0] == '-'
    ensures var digits := if n < 0 then s[1..] else s;
      && digits != "" && (forall i :: 0 <= i < |digits| ==> '0' <= digits[i] <= '9')
      && DigitsValue(digits, 10) == if n < 0 then -n else n
  {
    if n < 0 then
      NatToStringValue(-n);
      assert ("-" + NatToString(-n))[1..] == NatToString(-n);
      "-" + NatToString(-n)
    else
      NatToStringValue(n);
      NatToString(n)
  }

  lemma {:induction false} NatToStringValue(n: nat)
    ensures DigitsValue(NatToString(n), 10) == n
  {
    if n >= 10 {
      var s := NatToString(n);
      NatToStringValue(n / 10);
      assert s[..|s| - 1] == NatToString(n / 10);
    }
  }

  /** `parseInt(String(n)) === n` for every integer `n`. */
  lemma ParseIntOfIntToString(n: int)
    ensures ParseInt(IntToString(n)) == Int(n)
  {
    if n < 0 {
      var m: nat := -n;
      assert IntToString(n) == "-" + NatToString(m);
      ParseIntOfNegative(m);
    } else {
      assert IntToString(n) == NatToString(n);
      ParseIntOfNatToString(n);
    }
  }

  lemma ParseIntOfNatToString(m: nat)
    ensures ParseInt(NatToString(m)) == Int(m)
  {
    var s := NatToString(m);
    NoLeadingWhitespace(s);
    ParseUnsignedOfNatToString(m);
  }

  lemma ParseIntOfNegative(m: nat)
    ensures ParseInt("-" + NatToString(m)) == Int(-(m as int))
  {
    var s := "-" + NatToString(m);
    NoLeadingWhitespace(s);
    ParseUnsignedOfNatToString(m);
    NegativeSign(s, NatToString(m), m);
  }

  /** `parseInt` of `-` followed by digits worth `m`. */
  lemma NegativeSign(s: string, u: string, m: nat)
    requires s != "" && s[0] == '-' && s[1..] == u && TrimStart(s) == s
    requires ParseUnsigned(u) == Int(m)
    ensures ParseInt(s) == Int(-(m as int))
  {
  }

  /** A string that starts with a digit or a sign is left as it is by `trimStart`. */
  lemma NoLeadingWhitespace(s: string)
    requires s != "" && ('0' <= s[0] <= '9' || s[0] == '-')
    ensures TrimStart(s) == s
  {
    assert !IsWhitespace(s[0]);
  }

  lemma ParseUnsignedOfNatToString(m: nat)
    ensures ParseUnsigned(NatToString(m)) == Int(m)
  {
    var u := NatToString(m);
    NatToStringValue(m);
    DigitRunAll(u, 10);
    assert u[..|u|] == u;
  }

  lemma {:induction false} DigitRunAll(s: string, radix: int)
    requires forall i :: 0 <= i < |s| ==> DigitValue(s[i], radix) >= 0
    ensures DigitRun(s, radix) == |s|
  {
    if s != "" { DigitRunAll(s[1..], radix); }
  }
}
