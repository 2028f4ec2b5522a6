/** strconv.Itoa and FormatUint in base 10, which make lock tokens out of counters. */
module Decimal {

  const DIGITS := "0123456789"

  function Itoa(n: nat): (s: string)
    ensures s != ""
  {
    if n < 10 then [DIGITS[n]] else Itoa(n / 10) + [DIGITS[n % 10]]
  }

  /** Different counters print differently. */
  lemma {:induction false} ItoaInjective(m: nat, n: nat)
    requires Itoa(m) == Itoa(n)
    ensures m == n
  {
    var s, t := Itoa(m), Itoa(n);
    assert s[|s| - 1] == DIGITS[m % 10] && t[|t| - 1] == DIGITS[n % 10];
    assert m % 10 == n % 10;
    assert m >= 10 ==> Itoa(m / 10) == s[..|s| - 1];
    assert n >= 10 ==> Itoa(n / 10) == t[..|t| - 1];
    if m >= 10 && n >= 10 {
      ItoaInjective(m / 10, n / 10);
    }
  }
}
