/**
 * Decimal text as the form uses it: `Number(...)` on a run of ASCII digits, `toString()` of
 * an integer, and `padStart(2, '0')`.
 */
module Decimal {

  predicate IsDigit(c: char) {
    '0' <= c <= '9'
  }

  predicate AllDigits(s: string) {
    forall i :: 0 <= i < |s| ==> IsDigit(s[i])
  }

  function DigitChar(d: int): (c: char)
    requires 0 <= d < 10
    ensures IsDigit(c)
  {
    ('0' as int + d) as char
  }

  /** `Number(s)` for a string of digits: its value in base ten, leading zeros allowed. */
  function DigitsValue(s: string): (n: nat)
    requires AllDigits(s)
  {
    if s == [] then 0
    else DigitsValue(s[..|s| - 1]) * 10 + (s[|s| - 1] as int - '0' as int)
  }

  /** `n.toString()` for a natural number: decimal digits, no leading zeros. */
  function NatToString(n: nat): (s: string)
    ensures AllDigits(s) && |s| >= 1
    ensures n == 0 || s[0] != '0'
  {
    if n < 10 then [DigitChar(n)]
    else NatToString(n / 10) + [DigitChar(n % 10)]
  }

  /** `n.toString()` for an integer: a minus sign before the digits of a negative number. */
  function IntToString(n: int): (s: string)
    ensures |s| >= 1
    ensures n >= 0 ==> s == NatToString(n)
    ensures n < 0 ==> s[0] == '-' && s[1..] == NatToString(-n)
  {
    if n < 0 then "-" + NatToString(-n) else NatToString(n)
  }

  /** Reading back the digits `toString` wrote gives the number. */
  lemma {:induction false} NatToStringValue(n: nat)
    ensures DigitsValue(NatToString(n)) == n
    decreases n
  {
    if n >= 10 {
      NatToStringValue(n / 10);
      var s := NatToString(n);
      assert s[..|s| - 1] == NatToString(n / 10);
    }
  }

  /** Writing a digit run without leading zeros gives back the same run. */
  lemma {:induction false} DigitsValueToString(s: string)
    requires AllDigits(s) && |s| >= 1 && (|s| == 1 || s[0] != '0')
    ensures NatToString(DigitsValue(s)) == s
    decreases |s|
  {
    var front := s[..|s| - 1];
    var last := s[|s| - 1] as int - '0' as int;
    if |s| == 1 {
      assert DigitsValue(s) == last;
      assert [DigitChar(last)] == s;
    } else {
      assert front[0] == s[0];
      DigitsValueToString(front);
      var n := DigitsValue(s);
      PositiveLead(front);
      assert n / 10 == DigitsValue(front) && n % 10 == last;
      assert NatToString(n) == NatToString(DigitsValue(front)) + [DigitChar(last)];
      assert s == front + [s[|s| - 1]];
    }
  }

  /** A digit run that does not start with 0 has a non-zero value. */
  lemma {:induction false} PositiveLead(s: string)
    requires AllDigits(s) && |s| >= 1 && s[0] != '0'
    ensures DigitsValue(s) >= 1
    decreases |s|
  {
    if |s| > 1 {
      PositiveLead(s[..|s| - 1]);
    }
  }

  /** The number of digits `toString` writes for a natural number. */
  lemma {:induction false} NatToStringLength(n: nat)
    ensures n < 10 ==> |NatToString(n)| == 1
    ensures 10 <= n < 100 ==> |NatToString(n)| == 2
    ensures 100 <= n < 1000 ==> |NatToString(n)| == 3
    ensures 1000 <= n < 10000 ==> |NatToString(n)| == 4
    ensures 10000 <= n ==> |NatToString(n)| >= 5
  {
    if n >= 10 {
      NatToStringLength(n / 10);
      assert |NatToString(n)| == |NatToString(n / 10)| + 1;
    }
  }

  /** `s.padStart(2, '0')`. */
  function PadStart2(s: string): (r: string)
    ensures |s| >= 2 ==> r == s
    ensures |s| < 2 ==> |r| == 2 && r[2 - |s|..] == s && forall i :: 0 <= i < 2 - |s| ==> r[i] == '0'
  {
    if |s| >= 2 then s
    else if |s| == 1 then "0" + s
    else "00"
  }

  /** A number below 100 written and padded is two digits that read back as the number. */
  lemma TwoDigits(n: nat)
    requires n < 100
    ensures var s := PadStart2(NatToString(n));
            |s| == 2 && AllDigits(s) && DigitsValue(s) == n
  {
    NatToStringLength(n);
    NatToStringValue(n);
    var t := NatToString(n);
    var s := PadStart2(t);
    if n < 10 {
      assert s == ['0', t[0]];
      assert s[..1] == ['0'];
      assert DigitsValue(t) == DigitsValue(t[..0]) * 10 + (t[0] as int - '0' as int);
    }
  }

  /** The value of a two-digit run, digit by digit. */
  lemma TwoDigitValue(s: string)
    requires |s| == 2 && AllDigits(s)
    ensures DigitsValue(s) == (s[0] as int - '0' as int) * 10 + (s[1] as int - '0' as int)
  {
    var a := s[..1];
    assert s[..|s| - 1] == a;
    assert a[..|a| - 1] == [];
    assert DigitsValue(a) == a[0] as int - '0' as int;
  }

  /** The value of a four-digit run, digit by digit. */
  lemma FourDigitValue(s: string)
    requires |s| == 4 && AllDigits(s)
    ensures DigitsValue(s) == (s[0] as int - '0' as int) * 1000 + (s[1] as int - '0' as int) * 100
                              + (s[2] as int - '0' as int) * 10 + (s[3] as int - '0' as int)
  {
    assert s[..3][..2] == s[..2];
    TwoDigitValue(s[..2]);
  }

  /** Two digits read and then written and padded are the same two digits. */
  lemma TwoDigitsBack(s: string)
    requires |s| == 2 && AllDigits(s)
    ensures PadStart2(NatToString(DigitsValue(s))) == s
  {
    var n := DigitsValue(s);
    if s[0] == '0' {
      var tail := s[1..];
      assert s[..1] == ['0'];
      assert n == DigitsValue(tail) by {
        assert DigitsValue(s[..1]) == 0;
        assert DigitsValue(tail) == DigitsValue(tail[..0]) * 10 + (tail[0] as int - '0' as int);
      }
      DigitsValueToString(tail);
      assert s == "0" + tail;
    } else {
      DigitsValueToString(s);
    }
  }
}
