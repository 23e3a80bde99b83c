/**
 * Request-body values and the two JavaScript coercions the controllers
 * apply to them: truthiness (`if (x)`) and `parseInt`.
 */
module JsValues {
  import opened Wrappers
  import opened JsText

  /** A field of a parsed request body. Multipart forms deliver strings;
      JSON bodies may also carry booleans, numbers, objects and arrays, and
      a repeated multipart field arrives as an array of strings. `Num`
      holds an integral number; `Compound` is a plain object. */
  datatype FormField = Missing | Bool(b: bool) | Str(s: string) | Num(n: int) | Compound | Arr(items: seq<FormField>)

  /** JavaScript truthiness. */
  predicate Truthy(f: FormField) {
    match f
    case Missing => false
    case Bool(b) => b
    case Str(s) => s != ""
    case Num(n) => n != 0
    case Compound => true
    case Arr(_) => true
  }

  function SignedDecimal(n: int): string {
    if n < 0 then "-" + Decimal(-n) else Decimal(n)
  }

  /** `String(f)`, the conversion `parseInt` applies to its argument first.
      An array converts as `join(",")`, where an absent element is empty. */
  function ToJsString(f: FormField): string {
    match f
    case Missing => "undefined"
    case Bool(b) => if b then "true" else "false"
    case Str(s) => s
    case Num(n) => SignedDecimal(n)
    case Compound => "[object Object]"
    case Arr(items) =>
      JoinWithCommas(seq(|items|, i requires 0 <= i < |items| => if items[i].Missing? then "" else ToJsString(items[i])))
  }

  function JoinWithCommas(parts: seq<string>): (r: string)
    ensures |parts| > 0 ==> parts[0] <= r
  {
    if |parts| == 0 then ""
    else if |parts| == 1 then parts[0]
    else parts[0] + "," + JoinWithCommas(parts[1..])
  }

  predicate IsHexDigitChar(c: char) {
    IsDecimalDigit(c) || ('a' <= c <= 'f') || ('A' <= c <= 'F')
  }

  /** A digit of the given radix (10 or 16). */
  predicate IsDigitIn(c: char, radix: int) {
    if radix == 16 then IsHexDigitChar(c) else IsDecimalDigit(c)
  }

  function DigitValue(c: char): (v: nat)
    requires IsHexDigitChar(c)
    ensures v < 16
    ensures IsDecimalDigit(c) ==> v < 10
  {
    if IsDecimalDigit(c) then c as int - '0' as int
    else if 'a' <= c <= 'f' then c as int - 'a' as int + 10
    else c as int - 'A' as int + 10
  }

  /** Length of the longest prefix of `s` made of radix digits. */
  function DigitRun(s: string, radix: int): (n: nat)
    ensures n <= |s|
    ensures forall k :: 0 <= k < n ==> IsDigitIn(s[k], radix)
    ensures n < |s| ==> !IsDigitIn(s[n], radix)
  {
    if |s| > 0 && IsDigitIn(s[0], radix) then 1 + DigitRun(s[1..], radix) else 0
  }

  /** Positional value of a string of radix digits. */
  function DigitsValue(s: string, radix: int): nat
    requires radix == 10 || radix == 16
    requires forall k :: 0 <= k < |s| ==> IsDigitIn(s[k], radix)
  {
    if |s| == 0 then 0
    else
      assert IsDigitIn(s[|s| - 1], radix);
      DigitsValue(s[..|s| - 1], radix) * radix + DigitValue(s[|s| - 1])
  }

  /** The optional sign `parseInt` accepts: whether it was a minus, and
      what follows it. */
  function SplitSign(t: string): (bool, string) {
    if |t| > 0 && (t[0] == '-' || t[0] == '+') then (t[0] == '-', t[1..]) else (false, t)
  }

  predicate HasHexPrefix(u: string) {
    |u| >= 2 && u[0] == '0' && (u[1] == 'x' || u[1] == 'X')
  }

  /** NaN (`None`) when no digit follows; otherwise the value of the
      longest run of digits. */
  function ParseDigits(body: string, radix: int): Option<nat>
    requires radix == 10 || radix == 16
  {
    var n := DigitRun(body, radix);
    if n == 0 then None else Some(DigitsValue(body[..n], radix))
  }

  /** `parseInt(s)` (detectHex: no radix given, so a `0x`/`0X` prefix
      selects radix 16) or `parseInt(s, 10)` (detectHex false). `None` is
      NaN. Leading white space and one sign are skipped; parsing stops at
      the first character that is not a digit. */
  function ParseInt(s: string, detectHex: bool): Option<int> {
    var (negative, u) := SplitSign(TrimStart(s));
    var hex := detectHex && HasHexPrefix(u);
    var digits := if hex then ParseDigits(u[2..], 16) else ParseDigits(u, 10);
    match digits
    case None => None
    case Some(v) =>
      var value: int := v;
      Some(if negative then -value else value)
  }

  /** `parseInt(String(f))`. */
  function ParseIntField(f: FormField, detectHex: bool): Option<int> {
    ParseInt(ToJsString(f), detectHex)
  }

  lemma {:induction false} DecimalValue(n: nat)
    ensures DigitsValue(Decimal(n), 10) == n
  {
    if n >= 10 {
      var d := Decimal(n);
      assert d[..|d| - 1] == Decimal(n / 10);
      DecimalValue(n / 10);
    }
  }

  /** Digits followed by a non-digit: the run stops exactly at the digits. */
  lemma {:induction false} DigitRunOfDigits(d: string, rest: string, radix: int)
    requires forall k :: 0 <= k < |d| ==> IsDigitIn(d[k], radix)
    requires |rest| > 0 ==> !IsDigitIn(rest[0], radix)
    ensures DigitRun(d + rest, radix) == |d|
  {
    if |d| > 0 {
      assert (d + rest)[1..] == d[1..] + rest;
      DigitRunOfDigits(d[1..], rest, radix);
    }
  }

  /** What may follow a number for `parseInt` to stop right after it: not
      a digit, and not the `x` that would turn a leading `0` into a radix
      prefix. */
  predicate EndsNumber(rest: string) {
    |rest| > 0 ==> !IsDecimalDigit(rest[0]) && rest[0] != 'x' && rest[0] != 'X'
  }

  /** A decimal rendering never looks like a `0x` prefix. */
  lemma DecimalIsNotHexPrefixed(m: nat, rest: string)
    requires EndsNumber(rest)
    ensures !HasHexPrefix(Decimal(m) + rest)
  {
    var d := Decimal(m);
    var u := d + rest;
    if |u| >= 2 && u[0] == '0' {
      assert d[0] == '0';
      assert m == 0;
      assert |d| == 1;
      assert u[1] == rest[0];
    }
  }

  /** Digits followed by a non-digit parse to the digits' value. */
  lemma ParseDigitsPrefix(m: nat, rest: string)
    requires |rest| > 0 ==> !IsDecimalDigit(rest[0])
    ensures ParseDigits(Decimal(m) + rest, 10) == Some(m)
  {
    var d := Decimal(m);
    DigitRunOfDigits(d, rest, 10);
    assert (d + rest)[..|d|] == d;
    DecimalValue(m);
  }

  /** `parseInt` of a string that starts with a digit is the value of its
      leading run of digits. */
  lemma ParseUnsigned(s: string, detectHex: bool)
    requires |s| > 0 && IsDecimalDigit(s[0]) && !HasHexPrefix(s)
    ensures ParseInt(s, detectHex) == match ParseDigits(s, 10) case None => None case Some(v) => Some(v as int)
  {
    assert !IsJsSpace(s[0]);
    assert TrimStart(s) == s;
    assert SplitSign(s) == (false, s);
  }

  /** An unsigned digit string followed by a non-digit parses to its value. */
  lemma ParseUnsignedPrefix(m: nat, rest: string, detectHex: bool)
    requires EndsNumber(rest)
    ensures ParseInt(Decimal(m) + rest, detectHex) == Some(m)
  {
    var s := Decimal(m) + rest;
    assert s[0] == Decimal(m)[0];
    DecimalIsNotHexPrefixed(m, rest);
    ParseUnsigned(s, detectHex);
    ParseDigitsPrefix(m, rest);
  }

  /** `parseInt` of a minus sign and an unprefixed body is the negated
      value of the body's leading run of digits. */
  lemma ParseNegative(u: string, detectHex: bool)
    requires !HasHexPrefix(u)
    ensures ParseInt("-" + u, detectHex) == match ParseDigits(u, 10) case None => None case Some(v) => Some(-(v as int))
  {
    var s := "-" + u;
    assert s[0] == '-' && !IsJsSpace(s[0]);
    assert TrimStart(s) == s;
    assert s[1..] == u;
    assert SplitSign(s) == (true, u);
  }

  /** A minus sign followed by digits parses to the negated value. */
  lemma ParseNegativePrefix(m: nat, rest: string, detectHex: bool)
    requires EndsNumber(rest)
    ensures ParseInt("-" + Decimal(m) + rest, detectHex) == Some(-(m as int))
  {
    var u := Decimal(m) + rest;
    assert "-" + Decimal(m) + rest == "-" + u;
    DecimalIsNotHexPrefixed(m, rest);
    ParseDigitsPrefix(m, rest);
    ParseNegative(u, detectHex);
  }

  /** `parseInt` reads back the decimal rendering of any integer, and stops
      at the first non-digit that follows it. */
  lemma ParseDecimalPrefix(n: int, rest: string, detectHex: bool)
    requires EndsNumber(rest)
    ensures ParseInt(SignedDecimal(n) + rest, detectHex) == Some(n)
  {
    if n < 0 {
      var m: nat := -n;
      assert SignedDecimal(n) + rest == "-" + Decimal(m) + rest;
      ParseNegativePrefix(m, rest, detectHex);
    } else {
      var m: nat := n;
      assert SignedDecimal(n) + rest == Decimal(m) + rest;
      ParseUnsignedPrefix(m, rest, detectHex);
    }
  }

  /** `parseInt(String(n))` is `n` for every integral number field. */
  lemma ParseIntegralField(n: int, detectHex: bool)
    ensures ParseIntField(Num(n), detectHex) == Some(n)
  {
    ParseDecimalPrefix(n, "", detectHex);
    assert SignedDecimal(n) + "" == SignedDecimal(n);
  }

  /** A string that starts with anything but white space, a sign or a
      digit is NaN. */
  lemma NonNumericStart(s: string, detectHex: bool)
    requires |s| > 0 && !IsJsSpace(s[0]) && !IsDecimalDigit(s[0]) && s[0] != '-' && s[0] != '+'
    ensures ParseInt(s, detectHex).None?
  {
    assert TrimStart(s) == s;
    assert SplitSign(s) == (false, s);
    assert !HasHexPrefix(s);
    assert DigitRun(s, 10) == 0;
  }

  /** A missing field, a boolean and a plain object all parse to NaN. */
  lemma ParseNonNumeric(f: FormField, detectHex: bool)
    requires f.Missing? || f.Bool? || f.Compound?
    ensures ParseIntField(f, detectHex).None?
  {
    var s := ToJsString(f);
    assert s[0] == 'u' || s[0] == 't' || s[0] == 'f' || s[0] == '[';
    NonNumericStart(s, detectHex);
  }

  /** `parseInt` of an array reads its first element: `parseInt(["5"])`
      and `parseInt(["5", "6"])` are both 5, since the comma ends the
      number. */
  lemma ParseArrayFirst(n: int, more: seq<FormField>, detectHex: bool)
    ensures ParseIntField(Arr([Num(n)] + more), detectHex) == Some(n)
    ensures ParseIntField(Arr([Str(SignedDecimal(n))] + more), detectHex) == Some(n)
  {
    forall f | f == Num(n) || f == Str(SignedDecimal(n))
      ensures ParseIntField(Arr([f] + more), detectHex) == Some(n)
    {
      var items := [f] + more;
      var parts := seq(|items|, i requires 0 <= i < |items| => if items[i].Missing? then "" else ToJsString(items[i]));
      assert parts[0] == SignedDecimal(n);
      var rest := ToJsString(Arr(items))[|SignedDecimal(n)|..];
      assert ToJsString(Arr(items)) == SignedDecimal(n) + rest;
      assert EndsNumber(rest) by {
        if |parts| > 1 {
          assert ToJsString(Arr(items)) == parts[0] + "," + JoinWithCommas(parts[1..]);
          assert rest[0] == ',';
        } else {
          assert rest == "";
        }
      }
      ParseDecimalPrefix(n, rest, detectHex);
    }
  }
}
