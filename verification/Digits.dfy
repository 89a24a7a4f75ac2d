/** Decimal digits and the numbers they stand for. */
module Digits {
  predicate IsNum(c: char) { '0' <= c <= '9' }

  function LeadingDigits(s: string): (n: nat)
    ensures n <= |s| && (forall i :: 0 <= i < n ==> IsNum(s[i])) && (n < |s| ==> !IsNum(s[n]))
  {
    if s == "" || !IsNum(s[0]) then 0 else 1 + LeadingDigits(s[1..])
  }

  function Decimal(s: string): nat
    requires forall i :: 0 <= i < |s| ==> IsNum(s[i])
  {
    if s == "" then 0
    else
      var last := s[|s| - 1];
      assert IsNum(last);
      10 * Decimal(s[..|s| - 1]) + (last as int - '0' as int)
  }

  lemma {:induction false} DigitsOf(s: string, rest: string)
    requires forall i :: 0 <= i < |s| ==> IsNum(s[i])
    ensures LeadingDigits(s + rest) == |s| + LeadingDigits(rest)
  {
    if s == "" {
      assert s + rest == rest;
    } else {
      assert (s + rest)[1..] == s[1..] + rest;
      DigitsOf(s[1..], rest);
    }
  }

  lemma {:induction false} DecimalGrows(s: string, t: string)
    requires forall i :: 0 <= i < |s| ==> IsNum(s[i])
    requires forall i :: 0 <= i < |t| ==> IsNum(t[i])
    ensures forall i :: 0 <= i < |s + t| ==> IsNum((s + t)[i])
    ensures Decimal(s) <= Decimal(s + t)
    ensures t != "" && Decimal(s) > 0 ==> Decimal(s) < Decimal(s + t)
  {
    if t == "" {
      assert s + t == s;
    } else {
      var front := t[..|t| - 1];
      assert (s + t)[..|s + t| - 1] == s + front;
      DecimalGrows(s, front);
    }
  }

  predicate AllZeros(s: string) {
    forall i :: 0 <= i < |s| ==> s[i] == '0'
  }

  lemma {:induction false} ZeroIsZeros(s: string)
    requires forall i :: 0 <= i < |s| ==> IsNum(s[i])
    ensures Decimal(s) == 0 <==> AllZeros(s)
  {
    if s != "" {
      assert IsNum(s[|s| - 1]);
      ZeroIsZeros(s[..|s| - 1]);
    }
  }

  /** Zeros put together. */
  lemma ZerosConcat(s: string, t: string)
    ensures AllZeros(s + t) <==> AllZeros(s) && AllZeros(t)
  {
    if AllZeros(s + t) {
      assert forall i :: 0 <= i < |s| ==> s[i] == (s + t)[i];
      assert forall i :: 0 <= i < |t| ==> t[i] == (s + t)[|s| + i];
    }
  }
}
