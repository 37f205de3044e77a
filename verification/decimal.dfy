/** Decimal rendering of integers, as Python's `str(int)` (and `"%s" % n`) produces it,
    together with the parser that undoes it. */
module Decimal {
  import opened Wrappers

  predicate IsDigit(c: char) {
    '0' <= c <= '9'
  }

  predicate AllDigits(s: string) {
    forall i :: 0 <= i < |s| ==> IsDigit(s[i])
  }

  /** Digits as `str` writes them: at least one, and no leading zero. */
  predicate Canonical(s: string) {
    1 <= |s| && AllDigits(s) && (1 < |s| ==> s[0] != '0')
  }

  function DigitChar(d: nat): (c: char)
    requires d < 10
    ensures IsDigit(c)
  {
    (d + '0' as int) as char
  }

  function DigitValue(c: char): (d: nat)
    requires IsDigit(c)
    ensures d < 10
  {
    c as int - '0' as int
  }

  /** The digits of `n`, most significant first, without leading zeros. */
  function NatToString(n: nat): (s: string)
    ensures Canonical(s)
    decreases n
  {
    if n < 10 then [DigitChar(n)] else NatToString(n / 10) + [DigitChar(n % 10)]
  }

  /** The value of a string of decimal digits (the empty string reads as 0). */
  function ParseNat(s: string): nat
    requires AllDigits(s)
  {
    if |s| == 0 then 0 else ParseNat(s[..|s| - 1]) * 10 + DigitValue(s[|s| - 1])
  }

  /** `str(i)`: a minus sign for negative values, then the digits of the magnitude. */
  function IntToString(i: int): (s: string)
    ensures i >= 0 ==> Canonical(s)
    ensures i < 0 ==> 2 <= |s| && s[0] == '-' && Canonical(s[1..]) && s[1..] != "0"
  {
    if i < 0 then "-" + NatToString(-i) else NatToString(i)
  }

  /** Reads back what IntToString writes; None for anything else, including
      leading zeros and "-0". */
  function ParseInt(s: string): Option<int> {
    if 2 <= |s| && s[0] == '-' && Canonical(s[1..]) && s[1..] != "0" then Some(-(ParseNat(s[1..]) as int))
    else if Canonical(s) then Some(ParseNat(s))
    else None
  }

  lemma {:induction false} ParseNatToString(n: nat)
    ensures ParseNat(NatToString(n)) == n
    decreases n
  {
    var s := NatToString(n);
    if n >= 10 {
      var d := DigitChar(n % 10);
      assert s == NatToString(n / 10) + [d];
      assert s[..|s| - 1] == NatToString(n / 10);
      ParseNatToString(n / 10);
    } else {
      assert s[..|s| - 1] == [];
    }
  }

  /** Digits that do not start with '0' have a positive value. */
  lemma {:induction false} ParseNatPositive(s: string)
    requires 1 <= |s| && AllDigits(s) && s[0] != '0'
    ensures ParseNat(s) >= 1
    decreases |s|
  {
    if |s| > 1 {
      ParseNatPositive(s[..|s| - 1]);
    }
  }

  /** Canonical digits are exactly what NatToString writes for their value. */
  lemma {:induction false} NatToStringParse(s: string)
    requires Canonical(s)
    ensures NatToString(ParseNat(s)) == s
    decreases |s|
  {
    if |s| > 1 {
      var front := s[..|s| - 1];
      assert Canonical(front);
      ParseNatPositive(front);
      NatToStringParse(front);
      var n := ParseNat(s);
      assert n / 10 == ParseNat(front) && n % 10 == DigitValue(s[|s| - 1]);
      assert s == front + [s[|s| - 1]];
    }
  }

  /** The rendering is decodable, hence injective: distinct codes give distinct strings. */
  lemma ParseIntToString(i: int)
    ensures ParseInt(IntToString(i)) == Some(i)
  {
    var s := IntToString(i);
    if i < 0 {
      assert s[1..] == NatToString(-i);
      ParseNatToString(-i);
    } else {
      ParseNatToString(i);
    }
  }

  /** The parser accepts nothing but renderings: whatever it reads as `i` is
      exactly the text `str(i)` writes. */
  lemma StringToParseInt(s: string, i: int)
    requires ParseInt(s) == Some(i)
    ensures s == IntToString(i)
  {
    if 2 <= |s| && s[0] == '-' && Canonical(s[1..]) && s[1..] != "0" {
      NatToStringParse(s[1..]);
      ParseNatPositive(s[1..]);
      assert s == "-" + s[1..];
    } else {
      NatToStringParse(s);
    }
  }

  lemma IntToStringInjective(i: int, j: int)
    requires IntToString(i) == IntToString(j)
    ensures i == j
  {
    ParseIntToString(i);
    ParseIntToString(j);
  }
}
