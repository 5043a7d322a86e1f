/** NUMERIC(19,4) as PostgreSQL stores it. A stored value is an integer count of units of
    0.0001; a value on its way into a column is any real number of such units. */
module Numeric {
  // 999999999999999.9999 in units of 0.0001
  const MAX_UNITS: int := 9_999_999_999_999_999_999

  predicate Fits(units: int) {
    -MAX_UNITS <= units <= MAX_UNITS
  }

  /** Storage rounding: to the nearest unit, ties away from zero. */
  function Round(x: real): int {
    if x >= 0.0 then (x + 0.5).Floor else -(-x + 0.5).Floor
  }

  predicate IsTie(x: real) {
    x - x.Floor as real == 0.5
  }

  /** Round is the nearest unit, and the farther from zero of two equally near ones. */
  lemma RoundIsNearest(x: real, n: int)
    ensures Round(x) == n <==>
      (n as real - x < 0.5 && x - n as real < 0.5)
      || (x > 0.0 && n as real - x == 0.5)
      || (x < 0.0 && x - n as real == 0.5)
  {
  }

  /** A debit that is rounded after the subtraction takes Round(a) units, except that a tie
      above zero takes one unit less. */
  lemma RoundDebit(balance: int, a: real)
    requires a >= 0.0
    ensures Round(balance as real - a) ==
      balance - Round(a) + if IsTie(a) && balance as real > a then 1 else 0
  {
    var x := balance as real - a;
    var n := balance - Round(a) + if IsTie(a) && balance as real > a then 1 else 0;
    RoundIsNearest(a, Round(a));
    TieIsHalf(a);
    RoundIsNearest(x, n);
  }

  /** A credit that is rounded after the addition gives Round(a) units, except that a tie
      below zero gives one unit less. */
  lemma RoundCredit(balance: int, a: real)
    requires a >= 0.0
    ensures Round(balance as real + a) ==
      balance + Round(a) - if IsTie(a) && balance as real + a < 0.0 then 1 else 0
  {
    var x := balance as real + a;
    var n := balance + Round(a) - if IsTie(a) && balance as real + a < 0.0 then 1 else 0;
    RoundIsNearest(a, Round(a));
    TieIsHalf(a);
    RoundIsNearest(x, n);
  }

  /** A non-negative tie is rounded up by exactly half a unit, and nothing else is. */
  lemma TieIsHalf(a: real)
    requires a >= 0.0
    ensures IsTie(a) <==> Round(a) as real - a == 0.5
  {
    var r := Round(a);
    assert r as real <= a + 0.5 < r as real + 1.0;
    if r as real - a == 0.5 {
      assert a.Floor == r - 1;
    }
  }
}
