/** Decimal rendering of Kotlin `Int` values, as produced by string templates
    such as `"$index"` and `"<Code $code>"`, together with the matching parser. */
module Decimal {
  import opened Wrappers

  /** Kotlin's 32-bit signed `Int`. */
  newtype Int32 = x: int | -0x8000_0000 <= x < 0x8000_0000

  predicate IsDigit(c: char) {
    '0' <= c <= '9'
  }

  function DigitChar(d: nat): (c: char)
    requires d < 10
    ensures IsDigit(c)
    ensures c as int - '0' as int == d
  {
    ('0' as int + d) as char
  }

  function DigitValue(c: char): (d: nat)
    requires IsDigit(c)
    ensures d < 10 && DigitChar(d) == c
  {
    (c as int - '0' as int) as nat
  }

  /** The digits of `n`, most significant first, without leading zeros. */
  function NatToString(n: nat): (s: string)
    ensures |s| > 0
    ensures forall i :: 0 <= i < |s| ==> IsDigit(s[i])
    ensures |s| > 1 ==> s[0] != '0'
  {
    if n < 10 then [DigitChar(n)] else NatToString(n / 10) + [DigitChar(n % 10)]
  }

  /** Kotlin's `Int.toString()`: a minus sign for negative values, then the digits. */
  function IntToString(i: int): (s: string)
    ensures |s| > 0
    ensures s[0] == '-' <==> i < 0
    ensures forall k :: 0 <= k < |s| ==> IsDigit(s[k]) || (k == 0 && s[k] == '-')
  {
    if i < 0 then "-" + NatToString(-i) else NatToString(i)
  }

  /** The value of a non-empty run of decimal digits (leading zeros allowed). */
  function DigitsValue(s: string): Option<nat>
  {
    if |s| == 0 || !IsDigit(s[|s| - 1]) then None
    else if |s| == 1 then Some(DigitValue(s[0]))
    else
      match DigitsValue(s[..|s| - 1])
      case None => None
      case Some(v) => Some(v * 10 + DigitValue(s[|s| - 1]))
  }

  /** Reads a natural number written without leading zeros. */
  function ParseNat(s: string): Option<nat>
  {
    if |s| > 1 && s[0] == '0' then None else DigitsValue(s)
  }

  /** Reads an optional minus sign followed by a canonical non-zero magnitude. */
  function ParseInt(s: string): Option<int>
  {
    if |s| > 0 && s[0] == '-' then
      match ParseNat(s[1..])
      case Some(v) => if v == 0 then None else Some(0 - v as int)
      case None => None
    else
      match ParseNat(s)
      case Some(v) => Some(v)
      case None => None
  }

  lemma {:induction false} DigitsValueOfString(n: nat)
    ensures DigitsValue(NatToString(n)) == Some(n)
  {
    var s := NatToString(n);
    if n >= 10 {
      var p := NatToString(n / 10);
      assert s[..|s| - 1] == p;
      DigitsValueOfString(n / 10);
    }
  }

  /** Rendering an `Int` and reading it back gives the same number. */
  lemma {:induction false} ParseIntToString(i: int)
    ensures ParseInt(IntToString(i)) == Some(i)
  {
    var s := IntToString(i);
    if i < 0 {
      var p := NatToString(-i);
      assert s[1..] == p;
      DigitsValueOfString(-i);
      assert ParseNat(s[1..]) == Some(-i);
    } else {
      DigitsValueOfString(i);
      assert s[0] != '-';
    }
  }

  lemma {:induction false} DigitsValuePositive(s: string, v: nat)
    requires DigitsValue(s) == Some(v)
    requires s[0] != '0'
    ensures v > 0
  {
    if |s| > 1 {
      var p := s[..|s| - 1];
      DigitsValuePositive(p, DigitsValue(p).value);
    }
  }

  lemma {:induction false} NatToStringOfDigits(s: string, v: nat)
    requires DigitsValue(s) == Some(v)
    requires |s| > 1 ==> s[0] != '0'
    ensures NatToString(v) == s
  {
    if |s| > 1 {
      var p := s[..|s| - 1];
      var pv := DigitsValue(p).value;
      DigitsValuePositive(p, pv);
      NatToStringOfDigits(p, pv);
      assert v / 10 == pv && v % 10 == DigitValue(s[|s| - 1]);
      assert s == p + [s[|s| - 1]];
    }
  }

  /** Every string the parser accepts is the rendering of the number it returns. */
  lemma {:induction false} IntToStringOfParse(s: string, i: int)
    requires ParseInt(s) == Some(i)
    ensures IntToString(i) == s
  {
    if |s| > 0 && s[0] == '-' {
      var t := s[1..];
      var v := ParseNat(t).value;
      assert v > 0 && i + v == 0;
      assert DigitsValue(t) == Some(v) && (|t| > 1 ==> t[0] != '0');
      NatToStringOfDigits(t, v);
      assert IntToString(i) == "-" + t;
      assert s == "-" + t;
    } else {
      var v := ParseNat(s).value;
      assert i == v;
      NatToStringOfDigits(s, v);
    }
  }

  /** Distinct numbers render to distinct strings. */
  lemma IntToStringInjective(i: int, j: int)
    requires IntToString(i) == IntToString(j)
    ensures i == j
  {
    ParseIntToString(i);
    ParseIntToString(j);
  }
}
