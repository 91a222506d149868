/** Decimal rendering of integers, as Go's `strconv.Itoa` produces it. */
module Decimal {
  import opened ByteText

  predicate IsDigit(c: Byte)
  {
    '0' <= c <= '9'
  }

  /** Every byte of `s` is an ASCII digit (the empty string included). */
  predicate AllDigits(s: Bytes)
  {
    forall i :: 0 <= i < |s| ==> IsDigit(s[i])
  }

  /** A digit string as Itoa writes one: non-empty, no superfluous leading zero. */
  predicate Canonical(s: Bytes)
  {
    |s| > 0 && AllDigits(s) && (|s| > 1 ==> s[0] != '0')
  }

  function DigitChar(d: nat): (c: Byte)
    requires d < 10
    ensures IsDigit(c)
  {
    ('0' as int + d) as char
  }

  function DigitValue(c: Byte): (d: nat)
    requires IsDigit(c)
    ensures d < 10 && DigitChar(d) == c
  {
    c as int - '0' as int
  }

  /** The decimal digits of a non-negative value. */
  function NatToDecimal(n: nat): (r: Bytes)
    ensures Canonical(r)
    ensures (n == 0) == (r == "0")
  {
    if n < 10 then [DigitChar(n)] else NatToDecimal(n / 10) + [DigitChar(n % 10)]
  }

  /** `strconv.Itoa(n)`: a minus sign for negative values, then the digits
      of the magnitude. */
  function Itoa(n: int): (r: Bytes)
    ensures |r| > 0
    ensures (n < 0) == (r[0] == '-')
    ensures forall i :: 0 <= i < |r| ==> IsDigit(r[i]) || r[i] == '-'
    ensures n >= 0 ==> Canonical(r)
    ensures n < 0 ==> Canonical(r[1..]) && r[1..] != "0"
  {
    if n < 0 then "-" + NatToDecimal(-n) else NatToDecimal(n)
  }

  /** The value of a digit string, most significant digit first. */
  function ParseDecimal(s: Bytes): nat
    requires AllDigits(s)
  {
    if |s| == 0 then 0 else 10 * ParseDecimal(s[..|s| - 1]) + DigitValue(s[|s| - 1])
  }

  /** Reading back what Itoa wrote gives the value again. */
  lemma {:induction false} ParseOfDecimal(n: nat)
    ensures ParseDecimal(NatToDecimal(n)) == n
  {
    var r := NatToDecimal(n);
    if n >= 10 {
      ParseOfDecimal(n / 10);
      assert r[..|r| - 1] == NatToDecimal(n / 10);
    }
  }

  /** Conversely, a canonical digit string is what Itoa writes for its value. */
  lemma {:induction false} DecimalOfParse(s: Bytes)
    requires Canonical(s)
    ensures NatToDecimal(ParseDecimal(s)) == s
  {
    var front := s[..|s| - 1];
    var last := DigitValue(s[|s| - 1]);
    if |s| == 1 {
      assert ParseDecimal(s) == last;
    } else {
      assert AllDigits(front);
      LeadingDigitPositive(front);
      DecimalOfParse(front);
      assert ParseDecimal(s) / 10 == ParseDecimal(front);
      assert ParseDecimal(s) % 10 == last;
      assert s == front + [s[|s| - 1]];
    }
  }

  /** A digit string without a leading zero denotes a positive value. */
  lemma {:induction false} LeadingDigitPositive(s: Bytes)
    requires |s| > 0 && AllDigits(s) && s[0] != '0'
    ensures ParseDecimal(s) > 0
  {
    if |s| > 1 {
      var front := s[..|s| - 1];
      assert AllDigits(front) && front[0] == s[0];
      LeadingDigitPositive(front);
    }
  }

  /** Reading back Itoa's output: the digits after the sign of a negative
      value give its magnitude, and the whole output of any other value
      gives the value. */
  lemma ItoaRoundTrip(n: int)
    ensures n < 0 ==> ParseDecimal(Itoa(n)[1..]) == -n
    ensures n >= 0 ==> ParseDecimal(Itoa(n)) == n
  {
    if n < 0 {
      assert Itoa(n)[1..] == NatToDecimal(-n);
      ParseOfDecimal(-n);
    } else {
      ParseOfDecimal(n);
    }
  }

  /** Distinct numbers are rendered differently. */
  lemma ItoaInjective(a: int, b: int)
    requires Itoa(a) == Itoa(b)
    ensures a == b
  {
    ItoaRoundTrip(a);
    ItoaRoundTrip(b);
  }
}
