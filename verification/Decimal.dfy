/** Decimal notation of natural numbers, and why a number before a non-digit can be read back. */
module Decimal {

  function Digit(d: nat): char
    requires d < 10
  {
    ['0', '1', '2', '3', '4', '5', '6', '7', '8', '9'][d]
  }

  predicate IsDigit(c: char) {
    '0' <= c <= '9'
  }

  function DigitValue(c: char): nat {
    if IsDigit(c) then c as int - '0' as int else 0
  }

  predicate AllDigits(s: string) {
    forall i :: 0 <= i < |s| ==> IsDigit(s[i])
  }

  function ToString(n: nat): (s: string)
    ensures s != [] && AllDigits(s)
  {
    if n < 10 then [Digit(n)] else ToString(n / 10) + [Digit(n % 10)]
  }

  function Value(s: string): nat {
    if s == [] then 0 else 10 * Value(s[..|s| - 1]) + DigitValue(s[|s| - 1])
  }

  lemma {:induction false} ValueOfToString(n: nat)
    ensures Value(ToString(n)) == n
  {
    if n >= 10 {
      ValueOfToString(n / 10);
      assert ToString(n)[..|ToString(n)| - 1] == ToString(n / 10);
    }
  }

  /** The digits a string starts with. */
  function DigitRun(s: string): (n: nat)
    ensures n <= |s| && (forall i :: 0 <= i < n ==> IsDigit(s[i])) && (n < |s| ==> !IsDigit(s[n]))
  {
    if s == [] || !IsDigit(s[0]) then 0 else 1 + DigitRun(s[1..])
  }

  lemma DigitRunOf(n: nat, rest: string)
    requires rest == [] || !IsDigit(rest[0])
    ensures DigitRun(ToString(n) + rest) == |ToString(n)|
    ensures (ToString(n) + rest)[..|ToString(n)|] == ToString(n)
  {
    var s := ToString(n) + rest;
    var k := DigitRun(s);
    assert forall i :: 0 <= i < |ToString(n)| ==> s[i] == ToString(n)[i];
    assert rest != [] ==> s[|ToString(n)|] == rest[0];
  }

  /** A number followed by a non-digit determines both itself and what follows. */
  lemma ReadBack(m: nat, x: string, n: nat, y: string)
    requires x == [] || !IsDigit(x[0])
    requires y == [] || !IsDigit(y[0])
    requires ToString(m) + x == ToString(n) + y
    ensures m == n && x == y
  {
    DigitRunOf(m, x);
    DigitRunOf(n, y);
    ValueOfToString(m);
    ValueOfToString(n);
    assert x == (ToString(m) + x)[|ToString(m)|..];
    assert y == (ToString(n) + y)[|ToString(n)|..];
  }
}
