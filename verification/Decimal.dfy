/** Decimal numbers as the C library prints and reads them. */
module Decimal {

  predicate IsDigit(c: char) {
    '0' <= c <= '9'
  }

  predicate AllDigits(s: string) {
    forall c <- s :: IsDigit(c)
  }

  function DigitChar(n: nat): char
    requires n < 10
  {
    '0' + n as char
  }

  /** printf("%d") of a natural number. */
  function Print(n: nat): string {
    if n < 10 then [DigitChar(n)] else Print(n / 10) + [DigitChar(n % 10)]
  }

  /** The number a string of digits denotes; 0 for the empty string, as atoi gives. */
  function Value(s: string): nat
    requires AllDigits(s)
  {
    if s == "" then 0
    else
      var front := s[..|s| - 1];
      assert forall c <- front :: c in s;
      assert IsDigit(s[|s| - 1]);
      10 * Value(front) + (s[|s| - 1] - '0') as nat
  }

  /** The digits at the start of a string, as many as there are. */
  function Run(s: string): (r: string)
    ensures AllDigits(r) && r <= s
    ensures |r| < |s| ==> !IsDigit(s[|r|])
  {
    if s == "" || !IsDigit(s[0]) then "" else [s[0]] + Run(s[1..])
  }

  /** sscanf("%d") on a string that starts with a digit. */
  function Scan(s: string): nat {
    Value(Run(s))
  }

  /** Reading undoes printing. */
  lemma {:induction false} PrintValue(n: nat)
    ensures AllDigits(Print(n)) && Print(n) != "" && Value(Print(n)) == n
  {
    if n < 10 {
      assert Print(n)[..0] == "";
    } else {
      PrintValue(n / 10);
      assert Print(n)[..|Print(n)| - 1] == Print(n / 10);
    }
  }

  /** No number is printed with a zero in front, but 0 itself. */
  lemma {:induction false} PrintShort(n: nat)
    ensures Print(n)[0] == '0' <==> n == 0
    ensures n == 0 ==> Print(n) == "0"
  {
    if n >= 10 {
      PrintShort(n / 10);
      PrintValue(n / 10);
    }
  }

  function PowerOfTen(n: nat): int {
    if n == 0 then 1 else 10 * PowerOfTen(n - 1)
  }

  /** The sum of the digits, each times its power of ten. */
  function Weighted(s: string): int
    requires AllDigits(s)
  {
    if s == "" then 0
    else
      assert IsDigit(s[0]) && forall c <- s[1..] :: c in s;
      (s[0] as int - 48) * PowerOfTen(|s| - 1) + Weighted(s[1..])
  }

  lemma TenTimes(d: int, n: int)
    ensures d * (10 * n) == 10 * (d * n)
  {
  }

  lemma {:induction false} WeightedSnoc(s: string, c: char)
    requires AllDigits(s) && IsDigit(c)
    ensures AllDigits(s + [c]) && Weighted(s + [c]) == 10 * Weighted(s) + (c as int - 48)
  {
    if s == "" {
      assert (s + [c])[1..] == "" && PowerOfTen(0) == 1;
    } else {
      var d := s[0] as int - 48;
      assert (s + [c])[1..] == s[1..] + [c] && IsDigit(s[0]) && forall x <- s[1..] :: x in s;
      WeightedSnoc(s[1..], c);
      TenTimes(d, PowerOfTen(|s| - 1));
      assert Weighted(s + [c]) == d * PowerOfTen(|s|) + Weighted(s[1..] + [c]);
    }
  }

  /** The value of a string of digits is that sum. */
  lemma {:induction false} ValueExact(s: string)
    requires AllDigits(s)
    ensures Value(s) == Weighted(s)
  {
    if s != "" {
      var front, last := s[..|s| - 1], s[|s| - 1];
      assert s == front + [last] && last in s && forall c <- front :: c in s;
      ValueExact(front);
      WeightedSnoc(front, last);
    }
  }

  /** The run of a digit string followed by something else is the digit string. */
  lemma {:induction false} RunOf(digits: string, rest: string)
    requires AllDigits(digits)
    requires rest != "" ==> !IsDigit(rest[0])
    ensures Run(digits + rest) == digits
  {
    if digits == "" {
      assert digits + rest == rest;
    } else {
      assert (digits + rest)[1..] == digits[1..] + rest;
      RunOf(digits[1..], rest);
    }
  }

  lemma ScanPrint(n: nat, rest: string)
    requires rest != "" ==> !IsDigit(rest[0])
    ensures Scan(Print(n) + rest) == n
  {
    PrintValue(n);
    RunOf(Print(n), rest);
  }
}
