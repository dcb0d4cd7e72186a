/**
  Decimal numerals and their values. Python's `float(text)` is modelled as
  `ParseDecimal`: an optional sign, decimal digits with an optional decimal
  point, and at least one digit. The value is an exact `real`, not an IEEE
  double.
 */
module Numbers {
  import opened Wrappers
  import opened Strings

  function DigitValue(c: char): (d: nat)
    requires IsAsciiDigit(c)
    ensures d < 10
  {
    c as int - '0' as int
  }

  predicate AllDigits(ds: string) {
    forall k :: 0 <= k < |ds| ==> IsAsciiDigit(ds[k])
  }

  /** The value of a digit string read as a base-10 integer (the empty string reads as 0). */
  function DigitsValue(ds: string): nat
    requires AllDigits(ds)
  {
    if ds == [] then 0 else 10 * DigitsValue(ds[..|ds| - 1]) + DigitValue(ds[|ds| - 1])
  }

  /** The value of the digits after a decimal point. */
  function FracValue(ds: string): (v: real)
    requires AllDigits(ds)
    ensures 0.0 <= v < 1.0
  {
    if ds == [] then 0.0 else (DigitValue(ds[0]) as real + FracValue(ds[1..])) / 10.0
  }

  /** A character that may occur in an accepted numeral. */
  predicate IsNumeralChar(c: char) {
    IsAsciiDigit(c) || c == '.' || c == '+' || c == '-'
  }

  /** An unsigned numeral: digits, optionally a point and more digits, at least one digit in all. */
  function ParseUnsigned(s: string): (r: Option<real>)
    ensures r.Some? ==> s != [] && 0.0 <= r.value
    ensures r.Some? ==> forall k :: 0 <= k < |s| ==> IsAsciiDigit(s[k]) || s[k] == '.'
  {
    var ip := DigitRun(s);
    var rest := s[|ip|..];
    if rest == [] then
      if ip == [] then None else Some(DigitsValue(ip) as real)
    else if rest[0] != '.' then None
    else
      var fp := DigitRun(rest[1..]);
      if |fp| != |rest| - 1 || (ip == [] && fp == []) then None
      else
        assert s == ip + ['.'] + fp;
        Some(DigitsValue(ip) as real + FracValue(fp))
  }

  /** `float(s)` on an already stripped numeral; `None` where Python raises `ValueError`. */
  function ParseDecimal(s: string): (r: Option<real>)
    ensures r.Some? ==> s != [] && forall k :: 0 <= k < |s| ==> IsNumeralChar(s[k])
  {
    if s != [] && (s[0] == '+' || s[0] == '-') then
      match ParseUnsigned(s[1..])
      case None => None
      case Some(v) => Some(if s[0] == '-' then -v else v)
    else ParseUnsigned(s)
  }

  /**
    A numeral in its parts: an optional sign, the integer digits, whether a
    decimal point is written, and the fraction digits.
   */
  datatype Numeral = Numeral(sign: string, ip: string, point: bool, fp: string)

  /** The numerals `float` accepts here: at least one digit, fraction digits only after a point. */
  predicate ValidNumeral(n: Numeral) {
    && (n.sign == [] || n.sign == "+" || n.sign == "-")
    && AllDigits(n.ip) && AllDigits(n.fp)
    && (n.point || n.fp == [])
    && (n.ip != [] || n.fp != [])
  }

  /** What a numeral's digits are worth, before its sign. */
  function UnsignedValue(n: Numeral): real
    requires AllDigits(n.ip) && AllDigits(n.fp)
  {
    DigitsValue(n.ip) as real + FracValue(n.fp)
  }

  /** What a valid numeral is worth. */
  function NumeralValue(n: Numeral): real
    requires ValidNumeral(n)
  {
    if n.sign == "-" then -UnsignedValue(n) else UnsignedValue(n)
  }

  /** Reads text without a sign as the parts of a numeral, whether or not they make a valid one. */
  function ReadUnsigned(s: string): Numeral {
    var ip := DigitRun(s);
    var rest := s[|ip|..];
    if rest == [] then Numeral([], ip, false, [])
    else Numeral([], ip, rest[0] == '.', rest[1..])
  }

  /** Reads any text as the parts of a numeral, whether or not they make a valid one. */
  function ReadNumeral(s: string): Numeral {
    var sign := if s != [] && (s[0] == '+' || s[0] == '-') then s[..1] else [];
    ReadUnsigned(s[|sign|..]).(sign := sign)
  }

  /** The numeral as written without its sign. */
  function UnsignedSpelling(n: Numeral): string {
    n.ip + (if n.point then "." else "") + n.fp
  }

  /** How a numeral is written. */
  function Spelling(n: Numeral): string {
    n.sign + UnsignedSpelling(n)
  }

  /** Digits, a point and digits, with a digit somewhere, parse to the whole and fractional value. */
  lemma ParsePointed(ip: string, fp: string)
    requires AllDigits(ip) && AllDigits(fp) && (ip != [] || fp != [])
    ensures ParseUnsigned(ip + "." + fp) == Some(DigitsValue(ip) as real + FracValue(fp))
  {
    var s := ip + "." + fp;
    var tail := "." + fp;
    assert s == ip + tail;
    DigitRunOfDigits(ip);
    DigitRunStopsAtNonDigit(ip, tail);
    assert s[|ip|..] == tail;
    assert tail[1..] == fp;
    DigitRunOfDigits(fp);
    ParseAfterPoint(s, ip, fp);
  }

  /** The parse of a text whose digit run is followed by a point and the digits `fp`. */
  lemma ParseAfterPoint(s: string, ip: string, fp: string)
    requires DigitRun(s) == ip && |ip| <= |s| && s[|ip|..] == "." + fp && DigitRun(fp) == fp
    requires ip != [] || fp != []
    ensures AllDigits(ip) && AllDigits(fp)
    ensures ParseUnsigned(s) == Some(DigitsValue(ip) as real + FracValue(fp))
  {
    assert ("." + fp)[1..] == fp;
  }

  /** Digits alone, at least one, parse to their integer value. */
  lemma ParseWhole(ip: string)
    requires AllDigits(ip) && ip != []
    ensures ParseUnsigned(ip) == Some(DigitsValue(ip) as real)
  {
    DigitRunOfDigits(ip);
    assert ip[|ip|..] == [];
  }

  /** An unsigned valid numeral is parsed to its value. */
  lemma ParseUnsignedNumeral(n: Numeral)
    requires ValidNumeral(n)
    ensures ParseUnsigned(UnsignedSpelling(n)) == Some(UnsignedValue(n))
  {
    if n.point {
      ParsePointed(n.ip, n.fp);
      assert UnsignedSpelling(n) == n.ip + "." + n.fp;
    } else {
      ParseWhole(n.ip);
      assert UnsignedSpelling(n) == n.ip;
      assert UnsignedValue(n) == DigitsValue(n.ip) as real + 0.0;
    }
  }

  /** Text that does not start with a sign is parsed as unsigned. */
  lemma ParseWithoutSign(s: string)
    requires s == [] || (s[0] != '+' && s[0] != '-')
    ensures ParseDecimal(s) == ParseUnsigned(s)
  {
  }

  /** Text that starts with a sign is parsed as unsigned after it, negated for "-". */
  lemma ParseWithSign(c: char, s: string)
    requires c == '+' || c == '-'
    ensures ParseDecimal([c] + s) ==
      match ParseUnsigned(s) case None => None case Some(v) => Some(if c == '-' then -v else v)
  {
    assert ([c] + s)[1..] == s;
  }

  /** Every valid numeral is accepted, with its value. */
  lemma ParseNumeral(n: Numeral)
    requires ValidNumeral(n)
    ensures ParseDecimal(Spelling(n)) == Some(NumeralValue(n))
  {
    var body := UnsignedSpelling(n);
    ParseUnsignedNumeral(n);
    assert Spelling(n) == n.sign + body;
    if n.sign == [] {
      assert Spelling(n) == body;
      assert body != [];
      assert body[0] == '.' || IsAsciiDigit(body[0]) by {
        if n.ip != [] { assert body[0] == n.ip[0]; }
      }
      ParseWithoutSign(body);
    } else {
      assert n.sign == [n.sign[0]];
      ParseWithSign(n.sign[0], body);
    }
  }

  /** Every accepted unsigned text is the spelling of a valid unsigned numeral with that value. */
  lemma ParsedUnsignedIsNumeral(s: string)
    requires ParseUnsigned(s).Some?
    ensures var n := ReadUnsigned(s);
      ValidNumeral(n) && UnsignedSpelling(n) == s
      && ParseUnsigned(s) == Some(UnsignedValue(n))
  {
    if |DigitRun(s)| == |s| {
      ParsedWhole(s);
    } else {
      ParsedPointed(s);
    }
  }

  /** An accepted text that is all digits. */
  lemma ParsedWhole(s: string)
    requires ParseUnsigned(s).Some? && |DigitRun(s)| == |s|
    ensures var n := ReadUnsigned(s);
      ValidNumeral(n) && UnsignedSpelling(n) == s
      && ParseUnsigned(s) == Some(UnsignedValue(n))
  {
    assert DigitRun(s) == s[..|s|] == s;
    ReadWhole(s);
    ParseWhole(s);
    var n := Numeral([], s, false, []);
    assert UnsignedSpelling(n) == s + [];
    assert UnsignedValue(n) == DigitsValue(s) as real + 0.0;
  }

  /** Reading text that is all digits. */
  lemma ReadWhole(s: string)
    requires DigitRun(s) == s
    ensures ReadUnsigned(s) == Numeral([], s, false, [])
  {
    assert s[|s|..] == [];
  }

  /** An accepted text with a decimal point after its leading digits. */
  lemma ParsedPointed(s: string)
    requires ParseUnsigned(s).Some? && |DigitRun(s)| < |s|
    ensures var n := ReadUnsigned(s);
      ValidNumeral(n) && UnsignedSpelling(n) == s
      && ParseUnsigned(s) == Some(UnsignedValue(n))
  {
    var ip := DigitRun(s);
    var fp := PointedShape(s);
    ReadPointed(s, ip, fp);
  }

  /** The shape of an accepted text that does not end with its leading digits. */
  lemma PointedShape(s: string) returns (fp: string)
    requires ParseUnsigned(s).Some? && |DigitRun(s)| < |s|
    ensures s[|DigitRun(s)|..] == "." + fp && DigitRun(fp) == fp
    ensures DigitRun(s) != [] || fp != []
  {
    var ip := DigitRun(s);
    var rest := s[|ip|..];
    fp := rest[1..];
    var run := DigitRun(fp);
    assert rest[0] == '.' && |run| == |fp|;
    assert rest == "." + fp;
  }

  /** Reading digits, a point and digits back as a numeral. */
  lemma ReadPointed(s: string, ip: string, fp: string)
    requires DigitRun(s) == ip && |ip| <= |s| && s[|ip|..] == "." + fp && DigitRun(fp) == fp
    requires ip != [] || fp != []
    ensures var n := ReadUnsigned(s);
      ValidNumeral(n) && UnsignedSpelling(n) == s
      && ParseUnsigned(s) == Some(UnsignedValue(n))
  {
    ParseAfterPoint(s, ip, fp);
    PointedParts(s, ip, fp);
    var n := Numeral([], ip, true, fp);
    assert UnsignedSpelling(n) == ip + "." + fp;
  }

  /** The parts read from digits, a point and digits. */
  lemma PointedParts(s: string, ip: string, fp: string)
    requires DigitRun(s) == ip && |ip| <= |s| && s[|ip|..] == "." + fp
    ensures ReadUnsigned(s) == Numeral([], ip, true, fp) && s == ip + "." + fp
  {
    PointAt(s, |ip|, fp);
    ReadAtPoint(s, ip, fp);
    JoinAtPoint(s, ip, fp);
  }

  /** What a point followed by `fp`, from position `i` on, says about the characters there. */
  lemma PointAt(s: string, i: nat, fp: string)
    requires i <= |s| && s[i..] == "." + fp
    ensures i < |s| && s[i] == '.' && s[i + 1..] == fp
  {
    assert s[i..][0] == '.' && s[i..][1..] == fp;
  }

  /** Reading text whose digit run `ip` is followed by a point and `fp`. */
  lemma ReadAtPoint(s: string, ip: string, fp: string)
    requires DigitRun(s) == ip && |ip| < |s| && s[|ip|] == '.' && s[|ip| + 1..] == fp
    ensures ReadUnsigned(s) == Numeral([], ip, true, fp)
  {
    var rest := s[|ip|..];
    assert rest[0] == '.' && rest[1..] == fp;
  }

  /** Text that starts with `ip`, then a point and `fp`, is their concatenation. */
  lemma JoinAtPoint(s: string, ip: string, fp: string)
    requires |ip| <= |s| && ip == s[..|ip|] && s[|ip|..] == "." + fp
    ensures s == ip + "." + fp
  {
    assert s == s[..|ip|] + s[|ip|..];
  }

  /** Every accepted text is a valid numeral, and the parse is its value. */
  lemma ParsedIsNumeral(s: string)
    requires ParseDecimal(s).Some?
    ensures var n := ReadNumeral(s);
      ValidNumeral(n) && Spelling(n) == s && ParseDecimal(s) == Some(NumeralValue(n))
  {
    var n := ReadNumeral(s);
    var body := s[|n.sign|..];
    var u := ReadUnsigned(body);
    assert n == u.(sign := n.sign);
    assert s == n.sign + body;
    if n.sign == [] {
      ParseWithoutSign(s);
      assert body == s;
    } else {
      assert n.sign == [s[0]];
      ParseWithSign(s[0], body);
    }
    ParsedUnsignedIsNumeral(body);
    SignedValue(n, u, body, s);
  }

  /** Putting a parsed sign in front of a parsed unsigned numeral. */
  lemma SignedValue(n: Numeral, u: Numeral, body: string, s: string)
    requires ValidNumeral(u) && UnsignedSpelling(u) == body && ParseUnsigned(body) == Some(UnsignedValue(u))
    requires n == u.(sign := n.sign) && (n.sign == [] || n.sign == "+" || n.sign == "-")
    requires s == n.sign + body
    requires ParseDecimal(s) == match ParseUnsigned(body)
      case None => None
      case Some(v) => Some(if n.sign == "-" then -v else v)
    ensures ValidNumeral(n) && Spelling(n) == s && ParseDecimal(s) == Some(NumeralValue(n))
  {
    assert UnsignedValue(n) == UnsignedValue(u);
    assert UnsignedSpelling(n) == UnsignedSpelling(u);
  }

  /** A non-empty run of digits parses to its integer value. */
  lemma ParseDigits(ds: string)
    requires ds != [] && AllDigits(ds)
    ensures ParseDecimal(ds) == Some(DigitsValue(ds) as real)
  {
    DigitRunOfDigits(ds);
  }

  /** The canonical decimal rendering of a natural number (no leading zeros). */
  function NatDigits(n: nat): (ds: string)
    ensures ds != [] && AllDigits(ds)
    ensures |ds| > 1 ==> ds[0] != '0'
  {
    var last := ['0' + (n % 10) as char];
    if n < 10 then last else NatDigits(n / 10) + last
  }

  predicate IsCanonical(ds: string) {
    ds != [] && AllDigits(ds) && (|ds| > 1 ==> ds[0] != '0')
  }

  /** Reading back a rendered number gives the number. */
  lemma {:induction false} ValueOfNatDigits(n: nat)
    ensures DigitsValue(NatDigits(n)) == n
  {
    if n >= 10 {
      var ds := NatDigits(n);
      assert ds[..|ds| - 1] == NatDigits(n / 10);
      ValueOfNatDigits(n / 10);
    }
  }

  /** A digit string that starts with a non-zero digit is worth at least 1. */
  lemma {:induction false} LeadingDigitPositive(ds: string)
    requires ds != [] && AllDigits(ds) && ds[0] != '0'
    ensures DigitsValue(ds) >= 1
    decreases |ds|
  {
    if |ds| > 1 {
      LeadingDigitPositive(ds[..|ds| - 1]);
    }
  }

  /** Rendering the value of a canonical digit string gives the string back. */
  lemma {:induction false} NatDigitsOfValue(ds: string)
    requires IsCanonical(ds)
    ensures NatDigits(DigitsValue(ds)) == ds
    decreases |ds|
  {
    var n := DigitsValue(ds);
    var init := ds[..|ds| - 1];
    if |ds| == 1 {
      assert n == DigitValue(ds[0]);
    } else {
      LeadingDigitPositive(init);
      assert n / 10 == DigitsValue(init) && n % 10 == DigitValue(ds[|ds| - 1]);
      NatDigitsOfValue(init);
      assert ds == init + [ds[|ds| - 1]];
    }
  }

  /** `float(str(n))` is `n`. */
  lemma ParseNatDigits(n: nat)
    ensures ParseDecimal(NatDigits(n)) == Some(n as real)
  {
    ParseDigits(NatDigits(n));
    ValueOfNatDigits(n);
  }

  /** `float("63000000.00")` is 63000000. */
  lemma ParseFractionExample()
    ensures ParseDecimal("63000000.00") == Some(63000000.0)
  {
    var n := FractionNumeral();
    ParseNumeral(n);
  }

  /** The numeral written "63000000.00" and its value. */
  lemma FractionNumeral() returns (n: Numeral)
    ensures ValidNumeral(n) && Spelling(n) == "63000000.00" && NumeralValue(n) == 63000000.0
  {
    var ip, fp := "63000000", "00";
    IntegerPartExample();
    assert FracValue(fp) == 0.0 by {
      assert fp[1..] == "0" && fp[1..][1..] == [];
    }
    n := Numeral([], ip, true, fp);
    assert Spelling(n) == "63000000.00";
  }

  /** The digits "63000000" are worth 63000000. */
  lemma IntegerPartExample()
    ensures DigitsValue("63000000") == 63000000
  {
    RenderIntegerPart();
    ValueOfNatDigits(63000000);
  }

  /** `str(63000000)` is "63000000". */
  lemma RenderIntegerPart()
    ensures NatDigits(63000000) == "63000000"
  {
    assert NatDigits(63) == "63";
    assert NatDigits(630) == "630";
    assert NatDigits(6300) == "6300";
    assert NatDigits(63000) == "63000";
    assert NatDigits(630000) == "630000";
    assert NatDigits(6300000) == "6300000";
  }

  /** `float("12345678")` is 12345678. */
  lemma ParseExample()
    ensures ParseDecimal("12345678") == Some(12345678.0)
  {
    RenderExample();
    ParseNatDigits(12345678);
  }

  /** `str(12345678)` is "12345678". */
  lemma RenderExample()
    ensures NatDigits(12345678) == "12345678"
  {
    assert NatDigits(12) == "12";
    assert NatDigits(123) == "123";
    assert NatDigits(1234) == "1234";
    assert NatDigits(12345) == "12345";
    assert NatDigits(123456) == "123456";
    assert NatDigits(1234567) == "1234567";
  }
}
