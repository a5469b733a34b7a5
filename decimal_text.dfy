/**
  Decimal spelling of an integer, as C# writes an int when it is concatenated
  to a string ("\\sb" + twips): an optional minus sign, then the digits with
  no leading zero.
*/
module DecimalText {

  function DigitChar(d: nat): char
    requires d < 10
  {
    "0123456789"[d]
  }

  function NatDigits(n: nat): (r: string)
    ensures |r| > 0
    decreases n
  {
    if n < 10 then [DigitChar(n)] else NatDigits(n / 10) + [DigitChar(n % 10)]
  }

  function Decimal(n: int): (r: string)
    ensures |r| > 0
  {
    if n < 0 then "-" + NatDigits(-n) else NatDigits(n)
  }

  /** Reads back a run of decimal digits; any other character counts as zero. */
  function ParseDigits(s: string): nat {
    if s == [] then 0
    else
      var c := s[|s| - 1];
      ParseDigits(s[..|s| - 1]) * 10 + (if '0' <= c <= '9' then c as int - '0' as int else 0)
  }

  function ParseDecimal(s: string): int {
    if |s| > 0 && s[0] == '-' then 0 - ParseDigits(s[1..]) as int else ParseDigits(s)
  }

  lemma {:induction false} NatDigitsShape(n: nat)
    ensures NatDigits(n)[0] != '-'
    ensures ParseDigits(NatDigits(n)) == n
    decreases n
  {
    if n >= 10 {
      NatDigitsShape(n / 10);
      var s := NatDigits(n);
      assert s[..|s| - 1] == NatDigits(n / 10);
      assert s[0] == NatDigits(n / 10)[0];
    }
  }

  /** The spelling reads back as the number: Decimal is injective. */
  lemma DecimalRoundTrip(n: int)
    ensures ParseDecimal(Decimal(n)) == n
  {
    if n < 0 {
      NatDigitsShape(-n);
      assert Decimal(n)[1..] == NatDigits(-n);
    } else {
      NatDigitsShape(n);
    }
  }
}
