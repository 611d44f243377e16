/** Row ids and integer literals in decimal. */
module Decimals {
  function Digits(n: nat): (s: string)
    ensures s != [] && forall c :: c in s ==> '0' <= c <= '9'
  {
    if n < 10 then [('0' as int + n) as char]
    else Digits(n / 10) + [('0' as int + n % 10) as char]
  }

  lemma {:induction false} DigitsInjective(m: nat, n: nat)
    requires Digits(m) == Digits(n)
    ensures m == n
  {
    var a, b := Digits(m), Digits(n);
    assert a[|a| - 1] == b[|b| - 1];
    assert m % 10 == n % 10;
    if m < 10 || n < 10 {
      assert m >= 10 ==> |a| >= 2;
      assert n >= 10 ==> |b| >= 2;
    } else {
      assert a[..|a| - 1] == Digits(m / 10) && b[..|b| - 1] == Digits(n / 10);
      DigitsInjective(m / 10, n / 10);
    }
  }
}
