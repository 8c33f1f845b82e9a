/** Decimal rendering of integers, the `%d` verb the engine's messages use. */
module Decimal {

  predicate IsDigits(s: string) {
    forall i :: 0 <= i < |s| ==> '0' <= s[i] <= '9'
  }

  function DigitChar(d: nat): (c: char)
    requires d < 10
    ensures '0' <= c <= '9' && c as int - '0' as int == d
  {
    ('0' as int + d) as char
  }

  /** The decimal digits of `n`, most significant first, without leading zeros. */
  function NatToDecimal(n: nat): (s: string)
    ensures |s| >= 1 && IsDigits(s)
    ensures |s| > 1 ==> s[0] != '0'
    ensures (|s| == 1) <==> n < 10
    decreases n
  {
    if n < 10 then [DigitChar(n)] else NatToDecimal(n / 10) + [DigitChar(n % 10)]
  }

  /** A minus sign for negative values, then the digits of the magnitude. */
  function IntToDecimal(i: int): (s: string)
    ensures |s| >= 1
    ensures (s[0] == '-') <==> i < 0
    ensures i < 0 ==> |s| >= 2 && s[1..] == NatToDecimal(-i)
    ensures i >= 0 ==> s == NatToDecimal(i)
  {
    if i < 0 then "-" + NatToDecimal(-i) else NatToDecimal(i)
  }

  /** One piece of a formatted message: literal text or a `%s` argument, or an integer printed by `%d`. */
  datatype Piece = Str(s: string) | Int(i: int)

  /** The text `fmt.Sprintf` produces, the format and its arguments given as pieces in order. */
  function Format(pieces: seq<Piece>): string {
    if pieces == [] then ""
    else (match pieces[0] case Str(s) => s case Int(i) => IntToDecimal(i)) + Format(pieces[1..])
  }

  /** The value a string of decimal digits denotes: the reading direction of `NatToDecimal`. */
  function DecimalValue(s: string): nat
    requires IsDigits(s)
  {
    if s == [] then 0
    else DecimalValue(s[..|s| - 1]) * 10 + (s[|s| - 1] as int - '0' as int)
  }

  function SignedValue(s: string): int
    requires |s| >= 1
    requires if s[0] == '-' then IsDigits(s[1..]) else IsDigits(s)
  {
    if s[0] == '-' then 0 - DecimalValue(s[1..]) else DecimalValue(s)
  }

  lemma {:induction false} DecimalRoundTrip(n: nat)
    ensures DecimalValue(NatToDecimal(n)) == n
    decreases n
  {
    if n >= 10 {
      var s := NatToDecimal(n / 10);
      var t := s + [DigitChar(n % 10)];
      assert t[..|t| - 1] == s;
      DecimalRoundTrip(n / 10);
    }
  }

  lemma SignedRoundTrip(i: int)
    ensures SignedValue(IntToDecimal(i)) == i
  {
    if i < 0 {
      DecimalRoundTrip(-i);
    } else {
      DecimalRoundTrip(i);
    }
  }

  /** Distinct numbers print differently, so names built from them are distinct. */
  lemma NatToDecimalInjective(a: nat, b: nat)
    ensures NatToDecimal(a) == NatToDecimal(b) ==> a == b
  {
    DecimalRoundTrip(a);
    DecimalRoundTrip(b);
  }
}
