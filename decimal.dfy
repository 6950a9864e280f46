/** Decimal numerals: how a JavaScript template literal renders a
    non-negative integer (`${idx + 1}` in helpers/sql.js), and how such a
    numeral is read back. */
module Decimal {

  predicate IsDigit(c: char) {
    '0' <= c <= '9'
  }

  predicate AllDigits(s: string) {
    forall i :: 0 <= i < |s| ==> IsDigit(s[i])
  }

  function DigitChar(d: nat): (c: char)
    requires d < 10
    ensures IsDigit(c)
    ensures c as int - '0' as int == d
  {
    ('0' as int + d) as char
  }

  function DigitValue(c: char): (d: nat)
    requires IsDigit(c)
    ensures d < 10
    ensures DigitChar(d) == c
  {
    c as int - '0' as int
  }

  /** The shortest decimal numeral of n: at least one digit, and no leading
      zero unless the numeral is "0" itself. */
  function NatToString(n: nat): (s: string)
    ensures |s| >= 1
    ensures AllDigits(s)
    ensures s[0] == '0' ==> n == 0
    ensures |s| >= 2 ==> s[0] != '0'
    decreases n
  {
    if n < 10 then [DigitChar(n)] else NatToString(n / 10) + [DigitChar(n % 10)]
  }

  /** The value of a numeral, most significant digit first. */
  function StringToNat(s: string): (n: nat)
    requires AllDigits(s)
    ensures s == [] ==> n == 0
    decreases |s|
  {
    if s == [] then 0 else 10 * StringToNat(s[..|s| - 1]) + DigitValue(s[|s| - 1])
  }

  /** Reading a rendered numeral gives back the number. */
  lemma {:induction false} StringToNatInverts(n: nat)
    ensures StringToNat(NatToString(n)) == n
    decreases n
  {
    var s := NatToString(n);
    if n >= 10 {
      StringToNatInverts(n / 10);
      assert s[..|s| - 1] == NatToString(n / 10);
      assert s[|s| - 1] == DigitChar(n % 10);
    } else {
      assert s[..|s| - 1] == [];
    }
  }

  /** A numeral without a leading zero is a shortest numeral: it is what
      its own value renders as. */
  lemma {:induction false} CanonicalNumeral(d: string)
    requires |d| >= 1 && AllDigits(d)
    requires |d| >= 2 ==> d[0] != '0'
    ensures NatToString(StringToNat(d)) == d
    decreases |d|
  {
    var last := d[|d| - 1];
    if |d| == 1 {
      assert d[..0] == [];
      assert d == [last];
    } else {
      var prefix := d[..|d| - 1];
      CanonicalNumeral(prefix);
      var x := StringToNat(prefix);
      assert prefix[0] == d[0] != '0';
      var n := StringToNat(d);
      assert n == 10 * x + DigitValue(last);
      assert n / 10 == x && n % 10 == DigitValue(last);
      assert d == prefix + [last];
    }
  }

  /** Distinct numbers render as distinct numerals. */
  lemma NatToStringInjective(m: nat, n: nat)
    ensures NatToString(m) == NatToString(n) ==> m == n
  {
    StringToNatInverts(m);
    StringToNatInverts(n);
  }

  /** Length of the longest all-digit prefix of s. */
  function DigitRun(s: string): (k: nat)
    ensures k <= |s|
    ensures AllDigits(s[..k])
    ensures k < |s| ==> !IsDigit(s[k])
    decreases |s|
  {
    if s == [] || !IsDigit(s[0]) then 0 else 1 + DigitRun(s[1..])
  }

  /** A numeral followed by something that is not a digit is read as
      exactly that numeral. */
  lemma {:induction false} DigitRunOfNumeral(d: string, rest: string)
    requires AllDigits(d)
    requires rest == [] || !IsDigit(rest[0])
    ensures DigitRun(d + rest) == |d|
    decreases |d|
  {
    if d != [] {
      assert (d + rest)[1..] == d[1..] + rest;
      DigitRunOfNumeral(d[1..], rest);
    } else {
      assert d + rest == rest;
    }
  }
}
