/**
 * The cell validator: which texts a column accepts, given the column's type
 * name. Only the exact names "int", "float" and "string" are known; a value is
 * checked by reading it from a fresh stream and demanding that the read
 * succeeds and reaches the end of the text.
 */
module Types {
  import opened Wrappers
  import opened Text

  /** The range of a 32-bit C++ `int`. */
  const IntMin: int := -0x8000_0000
  const IntMax: int := 0x7FFF_FFFF

  /** Length of an optional leading `+` or `-`. */
  function SignLength(s: string): (n: nat)
    ensures n <= |s| && n <= 1
    ensures n == 1 <==> s != [] && (s[0] == '+' || s[0] == '-')
  {
    if s != [] && (s[0] == '+' || s[0] == '-') then 1 else 0
  }

  /**
   * `int temp; ss >> temp;` and then `ss.eof() && !ss.fail()`: after leading
   * whitespace, an optional sign and one or more decimal digits must make up
   * the rest of the text, and the value must fit in an `int`; the result is
   * the value read.
   */
  function ScanInt(v: string): (r: Option<int>)
    ensures r.Some? ==> IntMin <= r.value <= IntMax
    ensures r.Some? ==> v != [] && IsDigit(v[|v| - 1])
  {
    var s := v[LeadingSpace(v)..];
    var r := ScanSigned(s);
    assert r.Some? ==> v[|v| - 1] == s[|s| - 1];
    r
  }

  /** `ScanInt` once the leading whitespace is skipped. */
  function ScanSigned(s: string): (r: Option<int>)
    ensures r.Some? ==> IntMin <= r.value <= IntMax
    ensures r.Some? ==> s != [] && IsDigit(s[|s| - 1])
  {
    var ds := s[SignLength(s)..];
    if ds == [] || !AllDigits(ds) then None
    else
      assert s[|s| - 1] == ds[|ds| - 1];
      var n: int := if SignLength(s) == 1 && s[0] == '-' then -(DigitsValue(ds) as int) else DigitsValue(ds);
      if IntMin <= n <= IntMax then Some(n) else None
  }

  /** An optional exponent: `e` or `E`, an optional sign, then one or more digits. */
  predicate ExponentSyntax(e: string) {
    e == [] ||
    ((e[0] == 'e' || e[0] == 'E') &&
     var b := e[1..];
     var d := b[SignLength(b)..];
     d != [] && AllDigits(d))
  }

  /**
   * Decimal floating-point text: an optional sign, digits with an optional
   * `.` and fraction (at least one digit in all), then an optional exponent.
   */
  predicate DecimalSyntax(s: string) {
    UnsignedDecimal(s[SignLength(s)..])
  }

  predicate UnsignedDecimal(m: string) {
    var ip := DigitRun(m);
    var rest := m[ip..];
    if rest != [] && rest[0] == '.' then FractionSyntax(ip, rest[1..])
    else ip > 0 && ExponentSyntax(rest)
  }

  /** What follows the point, given `intDigits` digits before it. */
  predicate FractionSyntax(intDigits: nat, f: string) {
    var fp := DigitRun(f);
    intDigits + fp > 0 && ExponentSyntax(f[fp..])
  }

  /**
   * `float temp; ss >> temp;` and then `ss.eof() && !ss.fail()`, as a syntax
   * check: leading whitespace, then decimal floating-point text up to the end.
   */
  predicate ScanFloat(v: string) {
    DecimalSyntax(v[LeadingSpace(v)..])
  }

  /** `isValidType(value, type)`. */
  predicate IsValidType(value: string, typeName: string) {
    if typeName == "int" then ScanInt(value).Some?
    else if typeName == "float" then ScanFloat(value)
    else typeName == "string"
  }

  lemma LeadingSpaceOfPadded(pad: string, s: string)
    requires forall i | 0 <= i < |pad| :: IsSpace(pad[i])
    requires s == [] || !IsSpace(s[0])
    ensures LeadingSpace(pad + s) == |pad|
  {
    var t := pad + s;
    assert forall i | 0 <= i < |pad| :: t[i] == pad[i];
    assert |pad| < |t| ==> t[|pad|] == s[0];
  }

  /** The number digits `ds` denote under the sign text `sign`. */
  function SignedValue(sign: string, ds: string): int
    requires AllDigits(ds)
  {
    if sign == "-" then -(DigitsValue(ds) as int) else DigitsValue(ds)
  }

  /**
   * `ScanInt` exactly: whitespace, an optional `+` or `-` and one or more
   * digits (leading zeros allowed) are accepted as the number they denote
   * when it fits in an `int`, and rejected when it does not.
   */
  lemma ScanIntOfText(pad: string, sign: string, ds: string)
    requires forall i | 0 <= i < |pad| :: IsSpace(pad[i])
    requires sign == "" || sign == "+" || sign == "-"
    requires ds != [] && AllDigits(ds)
    ensures ScanInt(pad + sign + ds)
         == if IntMin <= SignedValue(sign, ds) <= IntMax then Some(SignedValue(sign, ds)) else None
  {
    var s := sign + ds;
    assert pad + sign + ds == pad + s;
    SignedText(sign, ds);
    PaddedScan(pad, s);
    SignedScan(sign, ds);
  }

  lemma PaddedScan(pad: string, s: string)
    requires forall i | 0 <= i < |pad| :: IsSpace(pad[i])
    requires s == [] || !IsSpace(s[0])
    ensures ScanInt(pad + s) == ScanSigned(s)
  {
    LeadingSpaceOfPadded(pad, s);
    assert (pad + s)[|pad|..] == s;
  }

  lemma SignedScan(sign: string, ds: string)
    requires sign == "" || sign == "+" || sign == "-"
    requires ds != [] && AllDigits(ds)
    ensures ScanSigned(sign + ds)
         == if IntMin <= SignedValue(sign, ds) <= IntMax then Some(SignedValue(sign, ds)) else None
  {
    SignedText(sign, ds);
  }

  lemma SignedText(sign: string, ds: string)
    requires sign == "" || sign == "+" || sign == "-"
    requires ds != [] && AllDigits(ds)
    ensures var s := sign + ds;
      && s != [] && !IsSpace(s[0])
      && SignLength(s) == |sign|
      && s[SignLength(s)..] == ds
      && (SignLength(s) == 1 && s[0] == '-') == (sign == "-")
  {
    var s := sign + ds;
    if sign == "" {
      assert s == ds;
      assert IsDigit(s[0]);
    } else {
      assert s[0] == sign[0];
      assert s[1..] == ds;
    }
  }

  /**
   * The inverse of `ScanInt` on canonical text: whitespace, an optional minus
   * and the decimal digits of a magnitude in range read back as that number.
   */
  lemma ScanIntOfDecimal(pad: string, negative: bool, m: nat)
    requires forall i | 0 <= i < |pad| :: IsSpace(pad[i])
    requires if negative then m <= -IntMin else m <= IntMax
    ensures ScanInt(pad + (if negative then "-" else "") + NatToString(m))
         == Some(if negative then -(m as int) else m)
  {
    var sign := if negative then "-" else "";
    var ds := NatToString(m);
    NatToStringValue(m);
    assert SignedValue(sign, ds) == if negative then -(m as int) else m;
    ScanIntOfText(pad, sign, ds);
  }

  /** A magnitude outside the `int` range is rejected, whatever whitespace and sign come before it. */
  lemma IntRejectsOutOfRange(pad: string, sign: string, ds: string)
    requires forall i | 0 <= i < |pad| :: IsSpace(pad[i])
    requires sign == "" || sign == "+" || sign == "-"
    requires ds != [] && AllDigits(ds)
    requires DigitsValue(ds) > (if sign == "-" then -IntMin else IntMax)
    ensures !IsValidType(pad + sign + ds, "int")
  {
    ScanIntOfText(pad, sign, ds);
  }

  /**
   * The converse of `ScanIntOfText`: every text `ScanInt` accepts is
   * whitespace, an optional `+` or `-`, then one or more digits to the end,
   * and the value read is the number they denote.
   */
  lemma ScanIntForm(v: string)
    requires ScanInt(v).Some?
    ensures var n := LeadingSpace(v); var s := v[n..]; var k := SignLength(s);
      && (forall i | 0 <= i < n :: IsSpace(v[i]))
      && (s[..k] == "" || s[..k] == "+" || s[..k] == "-")
      && v == v[..n] + s[..k] + s[k..]
      && s[k..] != [] && AllDigits(s[k..])
      && ScanInt(v).value == SignedValue(s[..k], s[k..])
  {
    var n := LeadingSpace(v);
    SignedForm(v[n..]);
    ThreeParts(v, n, SignLength(v[n..]));
  }

  lemma ThreeParts(v: string, n: nat, k: nat)
    requires n + k <= |v|
    ensures v == v[..n] + v[n..][..k] + v[n..][k..]
  {
    assert v[n..] == v[n..][..k] + v[n..][k..];
  }

  /** `ScanIntForm` once the leading whitespace is skipped. */
  lemma SignedForm(s: string)
    requires ScanSigned(s).Some?
    ensures var k := SignLength(s);
      && (s[..k] == "" || s[..k] == "+" || s[..k] == "-")
      && s == s[..k] + s[k..]
      && s[k..] != [] && AllDigits(s[k..])
      && ScanSigned(s).value == SignedValue(s[..k], s[k..])
  {
    var k := SignLength(s);
    if k == 1 {
      assert s[..k] == [s[0]];
    }
    assert s == s[..k] + s[k..];
  }

  /** Two signs, a sign after a blank, or a sign or blank between digits are rejected. */
  lemma IntRejectsMisplaced()
    ensures !IsValidType("4 2", "int") && !IsValidType("1-2", "int")
    ensures !IsValidType("--1", "int") && !IsValidType("- 1", "int")
  {
    RejectsSplitDigits("4 2");
    RejectsSplitDigits("1-2");
    RejectsSplitDigits("--1");
    RejectsSplitDigits("- 1");
  }

  /** A three-character text that starts with a non-blank and whose second character is not a digit is rejected. */
  lemma RejectsSplitDigits(v: string)
    requires |v| == 3 && !IsSpace(v[0]) && !IsDigit(v[1])
    ensures ScanInt(v).None?
  {
    if ScanInt(v).Some? {
      ScanIntForm(v);
      assert false;
    }
  }

  lemma AllDigitsRun(s: string)
    requires AllDigits(s)
    ensures DigitRun(s) == |s|
  {
  }

  /** Every text an `int` column accepts, a `float` column accepts too. */
  lemma IntTextIsFloatText(v: string)
    requires ScanInt(v).Some?
    ensures ScanFloat(v)
  {
    var s := v[LeadingSpace(v)..];
    var m := s[SignLength(s)..];
    AllDigitsRun(m);
    assert m[|m|..] == [];
  }

  /**
   * What each type name accepts: "string" takes any text, the empty one
   * included; a name other than "int", "float" and "string" takes nothing.
   */
  lemma StringAndUnknownTypes(v: string, other: string)
    requires other != "int" && other != "float" && other != "string"
    ensures IsValidType(v, "string") && IsValidType("", "string")
    ensures !IsValidType(v, other)
  {
  }

  /** Text an "int" column accepts holds only whitespace, signs and digits. */
  lemma IntTextCharacters(v: string)
    requires ScanInt(v).Some?
    ensures forall i | 0 <= i < |v| :: IsSpace(v[i]) || IsDigit(v[i]) || v[i] == '+' || v[i] == '-'
  {
    var n := LeadingSpace(v);
    var s := v[n..];
    var k := SignLength(s);
    forall i | 0 <= i < |v|
      ensures IsSpace(v[i]) || IsDigit(v[i]) || v[i] == '+' || v[i] == '-'
    {
      if n + k <= i {
        assert v[i] == s[k..][i - n - k];
      } else if n <= i {
        assert v[i] == s[0];
      }
    }
  }

  /** An "int" column takes `42` and ` 42`. */
  lemma IntAcceptsExamples()
    ensures IsValidType("42", "int") && IsValidType(" 42", "int")
  {
    IntAcceptsFortyTwo("");
    IntAcceptsFortyTwo(" ");
  }

  lemma IntAcceptsFortyTwo(pad: string)
    requires pad == "" || pad == " "
    ensures IsValidType(pad + "42", "int")
    ensures pad + "42" == if pad == "" then "42" else " 42"
  {
    PaddedFortyTwo(pad);
    if pad == "" {
      assert "" + "42" == "42";
    } else {
      assert " " + "42" == " 42";
    }
  }

  lemma PaddedFortyTwo(pad: string)
    requires forall i | 0 <= i < |pad| :: IsSpace(pad[i])
    ensures ScanInt(pad + "42") == Some(42)
  {
    FortyTwo();
    ScanIntOfDecimal(pad, false, 42);
    assert pad + "" + NatToString(42) == pad + "42";
  }

  /** A character other than whitespace, a sign or a digit anywhere makes "int" reject the text. */
  lemma IntRejectsCharacter(v: string, i: nat)
    requires i < |v|
    requires !IsSpace(v[i]) && !IsDigit(v[i]) && v[i] != '+' && v[i] != '-'
    ensures !IsValidType(v, "int")
  {
    if ScanInt(v).Some? {
      IntTextCharacters(v);
    }
  }

  /** An "int" column rejects `42.5`, `42abc`, `42 ` and the empty text. */
  lemma IntRejectsExamples()
    ensures !IsValidType("42.5", "int") && !IsValidType("42abc", "int")
    ensures !IsValidType("42 ", "int") && !IsValidType("", "int")
  {
    IntRejectsCharacter("42.5", 2);
  }

  lemma FortyTwo()
    ensures NatToString(42) == "42"
  {
    assert NatToString(4) == "4";
  }

  lemma DigitRunOf(d: string, rest: string)
    requires AllDigits(d)
    requires rest == [] || !IsDigit(rest[0])
    ensures DigitRun(d + rest) == |d|
    decreases |d|
  {
    if d != [] {
      assert (d + rest)[1..] == d[1..] + rest;
      DigitRunOf(d[1..], rest);
    } else {
      assert d + rest == rest;
    }
  }

  lemma ScanFloatPadded(pad: string, s: string)
    requires forall i | 0 <= i < |pad| :: IsSpace(pad[i])
    requires s == [] || !IsSpace(s[0])
    ensures ScanFloat(pad + s) == DecimalSyntax(s)
  {
    LeadingSpaceOfPadded(pad, s);
    assert (pad + s)[|pad|..] == s;
  }

  /**
   * Digits, a point and digits, with at least one digit in all and any
   * whitespace in front, are accepted by a "float" column.
   */
  lemma ScanFloatOfFraction(pad: string, ip: string, fp: string)
    requires forall i | 0 <= i < |pad| :: IsSpace(pad[i])
    requires AllDigits(ip) && AllDigits(fp) && |ip| + |fp| > 0
    ensures ScanFloat(pad + ip + "." + fp)
  {
    var s := ip + ("." + fp);
    assert pad + ip + "." + fp == pad + s;
    assert s[0] == if ip == [] then '.' else ip[0];
    FractionIsDecimal(ip, fp);
    UnsignedStart(s);
    ScanFloatPadded(pad, s);
  }

  /** Text starting with a digit or a point has no sign and no leading whitespace. */
  lemma UnsignedStart(s: string)
    requires s != [] && (IsDigit(s[0]) || s[0] == '.')
    ensures !IsSpace(s[0]) && SignLength(s) == 0
    ensures DecimalSyntax(s) == UnsignedDecimal(s)
  {
    assert s[0..] == s;
  }

  lemma FractionIsDecimal(ip: string, fp: string)
    requires AllDigits(ip) && AllDigits(fp) && |ip| + |fp| > 0
    ensures UnsignedDecimal(ip + ("." + fp))
  {
    var m := ip + ("." + fp);
    DigitRunOf(ip, "." + fp);
    assert m[|ip|..] == "." + fp;
    assert ("." + fp)[1..] == fp;
    DigitRunOf(fp, "");
    assert fp + "" == fp;
    assert fp[|fp|..] == [];
  }

  function Last(s: string): char
    requires s != []
  {
    s[|s| - 1]
  }

  lemma LastOfSuffix(s: string, k: nat)
    requires k < |s|
    ensures Last(s[k..]) == Last(s)
  {
  }

  lemma ExponentEnd(e: string)
    requires ExponentSyntax(e) && e != []
    ensures IsDigit(Last(e))
  {
    var b := e[1..];
    var d := b[SignLength(b)..];
    LastOfSuffix(b, SignLength(b));
    LastOfSuffix(e, 1);
  }

  lemma UnsignedDecimalEnd(m: string)
    requires UnsignedDecimal(m)
    ensures m != [] && (IsDigit(Last(m)) || Last(m) == '.')
  {
    var ip := DigitRun(m);
    var rest := m[ip..];
    if rest != [] && rest[0] == '.' {
      var f := rest[1..];
      var fp := DigitRun(f);
      LastOfSuffix(m, ip);
      if |rest| > 1 {
        LastOfSuffix(rest, 1);
        if fp < |f| {
          ExponentEnd(f[fp..]);
          LastOfSuffix(f, fp);
        } else {
          assert f[..fp] == f;
        }
      }
    } else if rest == [] {
      assert m[..ip] == m;
    } else {
      ExponentEnd(rest);
      LastOfSuffix(m, ip);
    }
  }

  /** Text a "float" column accepts ends in a digit or a point, so trailing letters are rejected. */
  lemma FloatTextEnd(v: string)
    requires ScanFloat(v)
    ensures v != [] && (IsDigit(Last(v)) || Last(v) == '.')
  {
    var n := LeadingSpace(v);
    var s := v[n..];
    var k := SignLength(s);
    UnsignedDecimalEnd(s[k..]);
    LastOfSuffix(s, k);
    LastOfSuffix(v, n);
  }

  /** A "float" column takes `42` and `42.5`. */
  lemma FloatAcceptsExamples()
    ensures IsValidType("42", "float") && IsValidType("42.5", "float")
  {
    PaddedFortyTwo("");
    assert "" + "42" == "42";
    IntTextIsFloatText("42");
    FloatFortyTwoPointFive();
  }

  lemma FloatFortyTwoPointFive()
    ensures ScanFloat("42.5")
  {
    ScanFloatOfFraction("", "42", "5");
    assert "" + "42" == "42";
    assert "42" + "." == "42.";
    assert "42." + "5" == "42.5";
  }

  /** A "float" column rejects `42.5abc`. */
  lemma FloatRejectsExample()
    ensures !IsValidType("42.5abc", "float")
  {
    if ScanFloat("42.5abc") {
      FloatTextEnd("42.5abc");
    }
  }
}
