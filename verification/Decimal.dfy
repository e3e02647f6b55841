/** printf("%d") and atoi on octet strings. */
module Decimal {
  import opened Bytes
  import opened Bits

  predicate IsDigit(c: byte) { 48 <= c <= 57 }

  function Print(n: nat): (r: seq<byte>)
    ensures r != [] && forall c :: c in r ==> IsDigit(c)
  {
    if n < 10 then [48 + n] else Print(n / 10) + [48 + n % 10]
  }

  /** A number has at most k digits exactly below the k-th power of ten. */
  lemma {:induction false} PrintLength(n: nat, digits: nat)
    requires digits >= 1
    ensures |Print(n)| <= digits <==> n < Pow10(digits)
    decreases digits
  {
    if n < 10 {
      assert Pow10(digits) == 10 * Pow10(digits - 1);
    } else if digits > 1 {
      PrintLength(n / 10, digits - 1);
    }
  }

  function Pow10(k: nat): (r: nat)
    ensures r >= 1
  {
    if k == 0 then 1 else 10 * Pow10(k - 1)
  }

  /** The digit i places from the end is that of the i-th power of ten. */
  lemma {:induction false} PrintDigit(n: nat, i: nat)
    requires i < |Print(n)|
    ensures Print(n)[|Print(n)| - 1 - i] == 48 + n / Pow10(i) % 10
    decreases i
  {
    if i > 0 {
      PrintDigit(n / 10, i - 1);
      TenthQuotient(n, Pow10(i - 1));
    }
  }

  lemma TenthQuotient(n: nat, p: nat)
    requires p > 0
    ensures n / 10 / p == n / (10 * p)
  {
    var q, r := n / 10 / p, n / 10 % p;
    assert n / 10 == p * q + r;
    assert n == 10 * p * q + (10 * r + n % 10);
    QuotientIs(n, 10 * p, q, 10 * r + n % 10);
  }

  /** The decimal digits at the start of `s`, folded onto `acc`. */
  function Digits(s: seq<byte>, acc: nat): (r: nat)
    decreases |s|
  {
    if s == [] || !IsDigit(s[0]) then acc else Digits(s[1..], 10 * acc + (s[0] - 48))
  }

  predicate IsSpace(c: byte) { c == 32 || 9 <= c <= 13 }

  /** atoi of the octets before any terminating zero: white space, an optional sign, digits. */
  function Atoi(s: seq<byte>): (r: int)
    decreases |s|
  {
    if s == [] then 0
    else if IsSpace(s[0]) then Atoi(s[1..])
    else if s[0] == 45 then 0 - Digits(s[1..], 0)
    else if s[0] == 43 then Digits(s[1..], 0)
    else Digits(s, 0)
  }

  lemma {:induction false} DigitsAppend(s: seq<byte>, d: byte, acc: nat)
    requires IsDigit(d) && forall c :: c in s ==> IsDigit(c)
    ensures Digits(s + [d], acc) == 10 * Digits(s, acc) + (d - 48)
    decreases |s|
  {
    if s == [] {
    } else {
      assert (s + [d])[1..] == s[1..] + [d];
      assert s[0] in s;
      DigitsAppend(s[1..], d, 10 * acc + (s[0] - 48));
    }
  }

  lemma {:induction false} DigitsPrint(n: nat)
    ensures Digits(Print(n), 0) == n
    decreases n
  {
    if n >= 10 {
      DigitsPrint(n / 10);
      DigitsAppend(Print(n / 10), 48 + n % 10, 0);
    }
  }

  lemma AtoiPrint(n: nat)
    ensures Atoi(Print(n)) == n
  {
    DigitsPrint(n);
  }
}
