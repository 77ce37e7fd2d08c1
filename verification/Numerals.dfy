/** Decimal rendering of natural numbers, as template strings produce it. */
module Numerals {

  function Digit(d: nat): char
    requires d < 10
  {
    "0123456789"[d]
  }

  function Dec(n: nat): string {
    if n < 10 then [Digit(n)] else Dec(n / 10) + [Digit(n % 10)]
  }

  predicate IsDigit(c: char) {
    '0' <= c <= '9'
  }

  lemma {:induction false} DecShape(n: nat)
    ensures |Dec(n)| > 0
    ensures forall c :: c in Dec(n) ==> IsDigit(c)
    ensures n > 0 ==> Dec(n)[0] != '0'
  {
    if n >= 10 {
      DecShape(n / 10);
    }
  }

  /** The number that a decimal numeral stands for, by the codes of its digits. */
  function NumberOf(t: string): int {
    if t == "" then 0 else 10 * NumberOf(t[..|t| - 1]) + (t[|t| - 1] as int - '0' as int)
  }

  /** The rendering is the decimal numeral of the number. */
  lemma {:induction false} DecIsNumeral(n: nat)
    ensures NumberOf(Dec(n)) == n
    ensures Dec(n) == "0" || (Dec(n) != "" && Dec(n)[0] != '0')
    ensures forall c :: c in Dec(n) ==> '0' <= c <= '9'
  {
    DecShape(n);
    if n >= 10 {
      DecIsNumeral(n / 10);
      assert Dec(n)[..|Dec(n)| - 1] == Dec(n / 10);
    } else {
      assert Dec(n)[..0] == "";
    }
  }

  lemma {:induction false} DecInjective(i: nat, j: nat)
    requires Dec(i) == Dec(j)
    ensures i == j
  {
    DecShape(i);
    DecShape(j);
    if i >= 10 && j >= 10 {
      var a, b := Dec(i / 10), Dec(j / 10);
      assert a == Dec(i)[..|Dec(i)| - 1] && b == Dec(j)[..|Dec(j)| - 1];
      assert Digit(i % 10) == Dec(i)[|Dec(i)| - 1] == Digit(j % 10);
      DecInjective(i / 10, j / 10);
    } else if i >= 10 {
      DecShape(i / 10);
    } else if j >= 10 {
      DecShape(j / 10);
    }
  }

  /** Every non-empty prefix of a numeral is a numeral, positive when the whole is. */
  lemma {:induction false} DecPrefix(i: nat, k: nat) returns (n: nat)
    requires 0 < k <= |Dec(i)|
    ensures Dec(i)[..k] == Dec(n)
    ensures i > 0 ==> n > 0
  {
    DecShape(i);
    if k == |Dec(i)| {
      assert Dec(i)[..k] == Dec(i);
      n := i;
    } else {
      assert i >= 10;
      n := DecPrefix(i / 10, k);
      assert Dec(i)[..k] == Dec(i / 10)[..k];
    }
  }
}
