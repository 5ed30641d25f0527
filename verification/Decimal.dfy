/** Decimal printing and parsing, shared by the expiry field and the date prefixes. */
module Decimal {
  import opened Bytes

  predicate IsDigit(c: Byte) {
    48 <= c <= 57
  }

  predicate AllDigits(s: seq<Byte>) {
    forall i | 0 <= i < |s| :: IsDigit(s[i])
  }

  function PrintNat(n: nat): (s: seq<Byte>)
    ensures |s| > 0 && AllDigits(s)
    ensures s[0] == 48 ==> s == [48]
    ensures n > 0 ==> s[0] != 48
  {
    if n < 10 then [48 + n] else PrintNat(n / 10) + [48 + n % 10]
  }

  function Print(n: int): seq<Byte> {
    if n < 0 then [45] + PrintNat(-n) else PrintNat(n)
  }

  function NatValue(s: seq<Byte>): nat
    requires AllDigits(s)
  {
    if |s| == 0 then 0 else NatValue(s[..|s| - 1]) * 10 + (s[|s| - 1] - 48)
  }

  lemma {:induction false} PrintNatValue(n: nat)
    ensures NatValue(PrintNat(n)) == n
  {
    if n >= 10 {
      PrintNatValue(n / 10);
      assert PrintNat(n)[..|PrintNat(n)| - 1] == PrintNat(n / 10);
    } else {
      assert PrintNat(n)[..0] == [];
    }
  }

  /** The number of leading digits. */
  function Span(s: seq<Byte>): (n: nat)
    ensures n <= |s| && AllDigits(s[..n])
    ensures n < |s| ==> !IsDigit(s[n])
  {
    if |s| == 0 || !IsDigit(s[0]) then 0
    else
      var n := 1 + Span(s[1..]);
      assert forall i | 0 < i < n :: s[..n][i] == s[1..][..n - 1][i - 1];
      n
  }

  lemma {:induction false} SpanOf(digits: seq<Byte>, rest: seq<Byte>)
    requires AllDigits(digits) && (|rest| > 0 ==> !IsDigit(rest[0]))
    ensures Span(digits + rest) == |digits|
  {
    if |digits| > 0 {
      SpanOf(digits[1..], rest);
      assert (digits + rest)[1..] == digits[1..] + rest;
    } else {
      assert digits + rest == rest;
    }
  }
}
