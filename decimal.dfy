/**
  Decimal numerals: `IntToDecimal` stands in for `strconv.Itoa`, the rendering
  the FreeBSD walker applies to every counter, and `ParseInt` is its inverse on
  the strings it produces.
*/
module Decimal {
  import opened Wrappers

  predicate IsDigit(c: char)
  {
    '0' <= c <= '9'
  }

  predicate AllDigits(s: string)
  {
    forall i :: 0 <= i < |s| ==> IsDigit(s[i])
  }

  /** A canonical numeral: at least one digit, and no leading zero unless it is "0". */
  predicate IsDecimal(s: string)
  {
    |s| >= 1 && AllDigits(s) && (s[0] == '0' ==> |s| == 1)
  }

  function DigitChar(d: nat): (c: char)
    requires d < 10
    ensures IsDigit(c) && c as int - '0' as int == d
  {
    ('0' as int + d) as char
  }

  /** The number a string of digits denotes, most significant digit first. */
  function DigitsValue(s: string): nat
    requires AllDigits(s)
  {
    if s == [] then 0
    else DigitsValue(s[..|s| - 1]) * 10 + (s[|s| - 1] as int - '0' as int)
  }

  /** `strconv.Itoa(n)` for `n >= 0`: a canonical numeral denoting `n`. */
  function NatToDecimal(n: nat): (s: string)
    ensures IsDecimal(s) && DigitsValue(s) == n
    decreases n
  {
    if n < 10 then [DigitChar(n)]
    else
      var high := NatToDecimal(n / 10);
      var s := high + [DigitChar(n % 10)];
      assert s[..|s| - 1] == high;
      s
  }

  /** Reads a canonical numeral back; anything else is rejected. */
  function ParseDecimal(s: string): Option<nat>
  {
    if IsDecimal(s) then Some(DigitsValue(s)) else None
  }

  /** Only a string of zeros denotes zero. */
  lemma {:induction false} ZeroValueAllZeros(s: string)
    requires AllDigits(s) && DigitsValue(s) == 0
    ensures forall i :: 0 <= i < |s| ==> s[i] == '0'
  {
    if s != [] {
      ZeroValueAllZeros(s[..|s| - 1]);
      forall i | 0 <= i < |s| - 1 ensures s[i] == '0' {
        assert s[i] == s[..|s| - 1][i];
      }
    }
  }

  /** Rendering the value of a canonical numeral gives the numeral back. */
  lemma {:induction false} NatToDecimalOfValue(s: string)
    requires IsDecimal(s)
    ensures NatToDecimal(DigitsValue(s)) == s
    decreases |s|
  {
    if |s| > 1 {
      var high := s[..|s| - 1];
      var d := s[|s| - 1] as int - '0' as int;
      assert high[0] == s[0] != '0';
      if DigitsValue(high) == 0 {
        ZeroValueAllZeros(high);
        assert false;
      }
      NatToDecimalOfValue(high);
      var n := DigitsValue(s);
      assert n == DigitsValue(high) * 10 + d;
      assert n / 10 == DigitsValue(high) && n % 10 == d;
      assert s == high + [DigitChar(d)];
    }
  }

  /** Parsing undoes rendering. */
  lemma ParseNatToDecimal(n: nat)
    ensures ParseDecimal(NatToDecimal(n)) == Some(n)
  {
  }

  /** Rendering undoes parsing: a numeral that parses is the rendering of its value. */
  lemma NatToDecimalParse(s: string, n: nat)
    requires ParseDecimal(s) == Some(n)
    ensures NatToDecimal(n) == s
  {
    NatToDecimalOfValue(s);
  }

  /** `strconv.Itoa(i)`: the canonical numeral of `|i|`, after a minus sign when `i < 0`. */
  function IntToDecimal(i: int): (s: string)
    ensures |s| >= 1
    ensures s[0] == '-' <==> i < 0
  {
    if i < 0 then "-" + NatToDecimal(-i) else NatToDecimal(i)
  }

  /** Reads back exactly the strings `IntToDecimal` produces ("-0" is not one of them). */
  function ParseInt(s: string): Option<int>
  {
    var negative := |s| >= 1 && s[0] == '-';
    var magnitude := ParseDecimal(if negative then s[1..] else s);
    if magnitude.None? || (negative && magnitude.value == 0) then None
    else if negative then Some(0 - magnitude.value as int)
    else Some(magnitude.value as int)
  }

  /** Parsing undoes `strconv.Itoa`. */
  lemma ParseIntToDecimal(i: int)
    ensures ParseInt(IntToDecimal(i)) == Some(i)
  {
    if i < 0 {
      var s := IntToDecimal(i);
      assert s[1..] == NatToDecimal(-i);
      ParseNatToDecimal(-i);
    } else {
      ParseNatToDecimal(i);
    }
  }

  /** And `strconv.Itoa` undoes parsing: every string `ParseInt` accepts is a rendering. */
  lemma IntToDecimalParse(s: string, i: int)
    requires ParseInt(s) == Some(i)
    ensures IntToDecimal(i) == s
  {
    if |s| >= 1 && s[0] == '-' {
      NatToDecimalParse(s[1..], -i);
      assert s == "-" + s[1..];
    } else {
      NatToDecimalParse(s, i);
    }
  }
}
