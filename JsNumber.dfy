/**
 * The global `parseInt` called without a radix, as main.js calls it, and the
 * decimal rendering of a non-negative integer that template literals such as
 * `${pageCount}` produce. Numbers are mathematical integers: parseInt's
 * rounding of very long digit strings to a double and its negative zero are
 * not represented (neither changes how the result compares with a page count).
 */
module JsNumber {
  import opened Wrappers
  import opened JsString

  /** The value of a digit character in radixes up to 36; 36 for every other character. */
  function DigitValue(c: char): (v: nat)
    ensures v <= 36
  {
    if '0' <= c <= '9' then (c as int - '0' as int)
    else if 'a' <= c <= 'z' then (c as int - 'a' as int) + 10
    else if 'A' <= c <= 'Z' then (c as int - 'A' as int) + 10
    else 36
  }

  predicate IsDigitIn(c: char, radix: nat) {
    DigitValue(c) < radix
  }

  predicate AllDigitsIn(s: string, radix: nat) {
    forall i :: 0 <= i < |s| ==> IsDigitIn(s[i], radix)
  }

  /** The length of the longest prefix of s made of radix digits. */
  function DigitRun(s: string, radix: nat): (n: nat)
    ensures n <= |s|
  {
    if |s| > 0 && IsDigitIn(s[0], radix) then 1 + DigitRun(s[1..], radix) else 0
  }

  /** The run is all digits and stops at the end or at a non-digit: it is the longest digit prefix. */
  lemma {:induction false} DigitRunSpec(s: string, radix: nat)
    ensures var n := DigitRun(s, radix);
      AllDigitsIn(s[..n], radix) && (n == |s| || !IsDigitIn(s[n], radix))
  {
    if |s| > 0 && IsDigitIn(s[0], radix) {
      DigitRunSpec(s[1..], radix);
      var n := DigitRun(s, radix);
      assert s[..n] == [s[0]] + s[1..][..n - 1];
    }
  }

  /** The value of a digit string, most significant digit first. */
  function DigitsValue(d: string, radix: nat): nat
  {
    if d == [] then 0 else DigitsValue(d[..|d| - 1], radix) * radix + DigitValue(d[|d| - 1])
  }

  /** The text after optional leading white space and one optional sign character. */
  function Unsigned(t: string): string {
    if |t| > 0 && (t[0] == '+' || t[0] == '-') then t[1..] else t
  }

  predicate HasHexPrefix(u: string) {
    |u| >= 2 && u[0] == '0' && (u[1] == 'x' || u[1] == 'X')
  }

  /** The longest run of radix digits at the start of body, read as a number; None when there is none. */
  function ParseDigits(body: string, radix: nat): Option<nat>
  {
    var n := DigitRun(body, radix);
    if n == 0 then None else Some(DigitsValue(body[..n], radix))
  }

  /** The digits after the sign: hexadecimal after a `0x`/`0X` prefix, decimal otherwise. */
  function ParseUnsigned(u: string): Option<nat>
  {
    if HasHexPrefix(u) then ParseDigits(u[2..], 16) else ParseDigits(u, 10)
  }

  /**
   * parseInt(input) with no radix: skip leading white space, read one optional
   * sign, read the radix-16 prefix `0x`/`0X` if present (radix 10 otherwise),
   * then take the longest run of digits. No digit at all is NaN (None);
   * whatever follows the digits is ignored.
   */
  function ParseInt(input: string): Option<int>
  {
    var t := TrimStart(input);
    match ParseUnsigned(Unsigned(t))
    case None => None
    case Some(m) => Some(if |t| > 0 && t[0] == '-' then -(m as int) else m)
  }

  function DigitChar(d: nat): (c: char)
    requires d < 10
    ensures IsDigitIn(c, 10) && DigitValue(c) == d
  {
    ('0' as int + d) as char
  }

  /** The decimal rendering of n, without leading zeros. */
  function NatToString(n: nat): (s: string)
    ensures |s| >= 1 && AllDigitsIn(s, 10)
    ensures s[0] == '0' ==> n == 0
  {
    if n < 10 then [DigitChar(n)] else NatToString(n / 10) + [DigitChar(n % 10)]
  }

  /** The decimal rendering of an integer, with a '-' in front of a negative one. */
  function IntToString(n: int): (s: string)
    ensures |s| >= 1
  {
    if n < 0 then "-" + NatToString(-n) else NatToString(n)
  }

  /** Reading back the digits of NatToString gives the number. */
  lemma {:induction false} DigitsValueOfNatToString(n: nat)
    ensures DigitsValue(NatToString(n), 10) == n
  {
    if n >= 10 {
      DigitsValueOfNatToString(n / 10);
      var s := NatToString(n);
      assert s[..|s| - 1] == NatToString(n / 10);
    }
  }

  /** The value of a digit string does not depend on what follows it. */
  lemma {:induction false} DigitRunOfDigits(d: string, rest: string, radix: nat)
    requires AllDigitsIn(d, radix)
    requires rest == [] || !IsDigitIn(rest[0], radix)
    ensures DigitRun(d + rest, radix) == |d|
    decreases |d|
  {
    if d == [] {
      assert d + rest == rest;
    } else {
      assert (d + rest)[0] == d[0] && IsDigitIn(d[0], radix);
      assert (d + rest)[1..] == d[1..] + rest;
      assert AllDigitsIn(d[1..], radix);
      DigitRunOfDigits(d[1..], rest, radix);
    }
  }

  /** The digits of NatToString(n), followed by a tail that cannot continue them, read back as n. */
  lemma ParseUnsignedOfDecimal(n: nat, rest: string)
    requires rest == [] || (!IsDigitIn(rest[0], 10) && !(n == 0 && (rest[0] == 'x' || rest[0] == 'X')))
    ensures ParseUnsigned(NatToString(n) + rest) == Some(n)
  {
    var digits := NatToString(n);
    var u := digits + rest;
    assert u[0] == digits[0];
    assert !HasHexPrefix(u) by {
      if |u| >= 2 && u[0] == '0' {
        assert |digits| == 1;
        assert u[1] == rest[0];
      }
    }
    DigitRunOfDigits(digits, rest, 10);
    assert u[..|digits|] == digits;
    DigitsValueOfNatToString(n);
  }

  /**
   * Round trip: white space, the decimal rendering of n and any tail that
   * cannot continue the number parse back to n. A tail starting with 'x' or
   * 'X' continues the number "0" as a hexadecimal prefix, so it is excluded
   * after a zero.
   */
  lemma ParseIntOfDecimal(lead: string, n: nat, rest: string)
    requires AllSpace(lead)
    requires rest == [] || (!IsDigitIn(rest[0], 10) && !(n == 0 && (rest[0] == 'x' || rest[0] == 'X')))
    ensures ParseInt(lead + (NatToString(n) + rest)) == Some(n)
  {
    var u := NatToString(n) + rest;
    ParseUnsignedOfDecimal(n, rest);
    UnsignedStartsWithDigit(u);
    ParseIntOfUnsigned(u, u, n);
    ParseIntAfterSpace(lead, u);
  }

  /** The same for a negative number written with its '-' sign. */
  lemma ParseIntOfNegative(lead: string, n: nat, rest: string)
    requires AllSpace(lead) && n > 0
    requires rest == [] || !IsDigitIn(rest[0], 10)
    ensures ParseInt(lead + IntToString(-(n as int)) + rest) == Some(-(n as int))
  {
    var u := NatToString(n) + rest;
    assert lead + IntToString(-(n as int)) + rest == lead + ("-" + u);
    ParseUnsignedOfDecimal(n, rest);
    ParseIntOfMinus(u, n);
    ParseIntAfterSpace(lead, "-" + u);
  }

  /** Digits with no sign or a '+' in front read as their value. */
  lemma ParseIntOfUnsigned(signed: string, u: string, m: nat)
    requires ParseUnsigned(u) == Some(m)
    requires signed == u || signed == "+" + u
    ensures ParseInt(signed) == Some(m)
  {
    UnsignedStartsWithDigit(u);
    var t := TrimStart(signed);
    assert t == signed by {
      assert signed[0] == '+' || IsDigitIn(signed[0], 10);
    }
    assert Unsigned(t) == u;
    assert t[0] != '-';
  }

  lemma UnsignedStartsWithDigit(u: string)
    requires ParseUnsigned(u).Some?
    ensures u != [] && IsDigitIn(u[0], 10) && !IsSpace(u[0])
  {
    if !HasHexPrefix(u) {
      assert DigitRun(u, 10) > 0;
    }
  }

  /** Digits with a '-' in front read as the negated value. */
  lemma ParseIntOfMinus(u: string, m: nat)
    requires ParseUnsigned(u) == Some(m)
    ensures ParseInt("-" + u) == Some(-(m as int))
  {
    assert TrimStart("-" + u) == "-" + u;
    assert Unsigned("-" + u) == u;
  }

  /** Leading white space does not change what parseInt reads. */
  lemma ParseIntAfterSpace(lead: string, signed: string)
    requires AllSpace(lead)
    requires signed == [] || !IsSpace(signed[0])
    ensures ParseInt(lead + signed) == ParseInt(signed)
  {
    assert TrimStart(lead + signed) == TrimStart(signed) by {
      TrimStartPadded(lead, signed);
      TrimStartPadded([], signed);
      assert [] + signed == signed;
    }
    ParseIntSeesTrimStart(lead + signed, signed);
  }

  lemma ParseIntSeesTrimStart(x: string, y: string)
    requires TrimStart(x) == TrimStart(y)
    ensures ParseInt(x) == ParseInt(y)
  {
  }

  /** Every integer's decimal rendering parses back to it. */
  lemma ParseIntOfIntToString(n: int)
    ensures ParseInt(IntToString(n)) == Some(n)
  {
    if n < 0 {
      ParseIntOfNegative("", -n, "");
      assert "" + IntToString(n) + "" == IntToString(n);
    } else {
      ParseIntOfDecimal("", n, "");
      assert "" + (NatToString(n) + "") == IntToString(n);
    }
  }

  /** No digit after the white space and the sign means NaN. */
  lemma ParseIntNaN(input: string)
    requires var u := Unsigned(TrimStart(input)); u == [] || !IsDigitIn(u[0], 10)
    ensures ParseInt(input) == None
  {
  }

  /** A `0x` prefix switches to hexadecimal: "0x1A" is 26. */
  lemma ParseIntHexExample()
    ensures ParseInt("0x1A") == Some(26)
  {
    var body := "0x1A"[2..];
    assert body == "1A";
    assert DigitRun(body, 16) == 2 by {
      assert DigitRun(body[1..], 16) == 1 by {
        assert body[1..][1..] == [];
      }
    }
    assert body[..2] == "1A";
    assert DigitsValue("1A", 16) == 26 by {
      assert "1A"[..1] == "1";
      assert "1"[..0] == [];
    }
    assert TrimStart("0x1A") == "0x1A";
  }

  /** A bare `0x` prefix has no digits after it: NaN, although "0" alone is 0. */
  lemma ParseIntBarePrefixExample()
    ensures ParseInt("0x") == None
    ensures ParseInt("0") == Some(0)
  {
    assert TrimStart("0x") == "0x";
    assert "0x"[2..] == [];
    ParseIntOfIntToString(0);
  }

  /** Leading white space is skipped and text after the digits is ignored: " -12abc" is -12. */
  lemma ParseIntTrailingTextExample(input: string)
    requires input == " -12abc"
    ensures ParseInt(input) == Some(-12)
  {
    var digits := NatToString(12);
    assert digits == "12" by {
      assert NatToString(1) == "1";
    }
    ParseIntOfNegative(" ", 12, "abc");
    assert " " + IntToString(-12) + "abc" == input;
  }

  /** No digits at all: the empty string is NaN. */
  lemma ParseIntEmptyExample()
    ensures ParseInt("") == None
  {
  }

  /** No digits at all: a word is NaN. */
  lemma ParseIntWordExample(input: string)
    requires input == "abc"
    ensures ParseInt(input) == None
  {
    assert TrimStart(input) == input;
    ParseIntNaN(input);
  }
}
