/**
  The string formatting src/App.tsx uses for the countdown: String(n) on an
  integer and String.prototype.padStart(2, "0").
 */
module Text {

  predicate IsDigit(c: char) {
    '0' <= c <= '9'
  }

  predicate AllDigits(s: string) {
    forall i :: 0 <= i < |s| ==> IsDigit(s[i])
  }

  function DigitChar(d: int): (c: char)
    requires 0 <= d <= 9
    ensures IsDigit(c) && c as int - '0' as int == d
  {
    ('0' as int + d) as char
  }

  /** Decimal digits of a natural number, most significant first, without
      leading zeros. */
  function NatToString(n: nat): string
    decreases n
  {
    if n < 10 then [DigitChar(n)] else NatToString(n / 10) + [DigitChar(n % 10)]
  }

  /** String(n) for an integer n. */
  function IntToString(n: int): string {
    if n < 0 then "-" + NatToString(-n) else NatToString(n)
  }

  /** The number a string of decimal digits denotes (leading zeros allowed). */
  function DecimalValue(s: string): nat
    requires AllDigits(s)
  {
    if s == [] then 0 else DecimalValue(s[..|s| - 1]) * 10 + (s[|s| - 1] as int - '0' as int)
  }

  /** s.padStart(width, fill) with a one-character fill: s itself when it is
      already wide enough, otherwise s preceded by enough copies of fill. */
  function PadStart(s: string, width: nat, fill: char): (r: string)
    ensures |r| == if |s| < width then width else |s|
    ensures forall i :: 0 <= i < |s| ==> r[|r| - |s| + i] == s[i]
    ensures forall i :: 0 <= i < |r| - |s| ==> r[i] == fill
  {
    if |s| < width then seq(width - |s|, _ => fill) + s else s
  }

  /** String(n).padStart(2, "0"). */
  function PadTwo(n: int): string {
    PadStart(IntToString(n), 2, '0')
  }

  lemma {:induction false} NatToStringDigits(n: nat)
    ensures AllDigits(NatToString(n))
    ensures 1 <= |NatToString(n)|
    ensures n < 10 ==> |NatToString(n)| == 1
    ensures 10 <= n < 100 ==> |NatToString(n)| == 2
    decreases n
  {
    if n >= 10 {
      NatToStringDigits(n / 10);
    }
  }

  /** Reading back the digits String(n) prints gives n. */
  lemma {:induction false} NatToStringRoundTrip(n: nat)
    ensures AllDigits(NatToString(n))
    ensures DecimalValue(NatToString(n)) == n
    decreases n
  {
    NatToStringDigits(n);
    if n >= 10 {
      NatToStringRoundTrip(n / 10);
      var s := NatToString(n);
      assert s[..|s| - 1] == NatToString(n / 10);
    }
  }

  /** Leading zeros do not change the number a digit string denotes. */
  lemma {:induction false} LeadingZeros(k: nat, s: string)
    requires AllDigits(s)
    ensures AllDigits(seq(k, _ => '0') + s)
    ensures DecimalValue(seq(k, _ => '0') + s) == DecimalValue(s)
    decreases |s|
  {
    var z := seq(k, _ => '0');
    if s == [] {
      assert z + s == z;
      AllZeros(k);
    } else {
      LeadingZeros(k, s[..|s| - 1]);
      assert (z + s)[..|z + s| - 1] == z + s[..|s| - 1];
    }
  }

  lemma {:induction false} AllZeros(k: nat)
    ensures AllDigits(seq(k, _ => '0'))
    ensures DecimalValue(seq(k, _ => '0')) == 0
    decreases k
  {
    if k > 0 {
      AllZeros(k - 1);
      assert seq(k, _ => '0')[..k - 1] == seq(k - 1, _ => '0');
    }
  }

  /** The two-digit padding of a countdown field in 0..99 is exactly two
      digits long and denotes the same number. */
  lemma PadTwoDenotes(n: int)
    requires 0 <= n <= 99
    ensures |PadTwo(n)| == 2
    ensures AllDigits(PadTwo(n))
    ensures DecimalValue(PadTwo(n)) == n
  {
    NatToStringDigits(n);
    NatToStringRoundTrip(n);
    var s := NatToString(n);
    if |s| < 2 {
      LeadingZeros(2 - |s|, s);
      assert PadTwo(n) == seq(2 - |s|, _ => '0') + s;
    }
  }

  /** For 0..9 the padding adds exactly one leading zero; from 10 on it adds
      none (e.g. 2 is shown as "02", 55 as "55"). */
  lemma PadTwoShape(n: int)
    requires 0 <= n <= 99
    ensures n < 10 ==> PadTwo(n) == ['0', DigitChar(n)]
    ensures 10 <= n ==> PadTwo(n) == [DigitChar(n / 10), DigitChar(n % 10)]
  {
    NatToStringDigits(n);
    if n < 10 {
      assert PadTwo(n) == seq(1, _ => '0') + [DigitChar(n)];
    } else {
      assert NatToString(n / 10) == [DigitChar(n / 10)];
    }
  }

  /** The padded field is String(n) itself from 10 to 99 and String(n) after
      one "0" below 10. */
  lemma PadTwoOfDigits(n: int)
    requires 0 <= n <= 99
    ensures 10 <= n ==> PadTwo(n) == IntToString(n)
    ensures n < 10 ==> PadTwo(n) == "0" + IntToString(n)
  {
    NatToStringDigits(n);
    if n < 10 {
      assert seq(1, _ => '0') == "0";
    }
  }
}
