/**
 * Python's built-in `round(x, 2)` applied to an exact value: the result is the
 * nearest multiple of 0.01, and a value exactly halfway between two multiples
 * goes to the one whose last digit is even ("banker's rounding").
 */
module Rounding {

  /** `round(x)`: the nearest integer, ties going to the even neighbour. */
  function RoundHalfEven(x: real): int
  {
    var f := x.Floor;
    var frac := x - f as real;
    if frac < 0.5 then f
    else if frac > 0.5 then f + 1
    else if f % 2 == 0 then f else f + 1
  }

  /** `round(x, 2)`: the nearest whole number of hundredths. */
  function Round2(x: real): real
  {
    RoundHalfEven(x * 100.0) as real / 100.0
  }

  /** `round` lands within half a unit of its argument and breaks ties towards an even result. */
  lemma RoundHalfEvenNearest(x: real)
    ensures var k := RoundHalfEven(x);
      && x - 0.5 <= k as real <= x + 0.5
      && ((k as real - x == 0.5 || x - k as real == 0.5) ==> k % 2 == 0)
  {
  }

  /** `round(x, 2)` is off by at most half a hundredth. */
  lemma Round2Error(x: real)
    ensures x - 0.005 <= Round2(x) <= x + 0.005
  {
    RoundHalfEvenNearest(x * 100.0);
  }

  /** The two clauses of RoundHalfEven's contract pick out exactly one integer. */
  lemma NearestEvenIsUnique(x: real, j: int, k: int)
    requires x - 0.5 <= j as real <= x + 0.5
    requires (j as real - x == 0.5 || x - j as real == 0.5) ==> j % 2 == 0
    requires x - 0.5 <= k as real <= x + 0.5
    requires (k as real - x == 0.5 || x - k as real == 0.5) ==> k % 2 == 0
    ensures j == k
  {
  }

  /** Rounding never reverses the order of two values. */
  lemma RoundHalfEvenMonotone(x: real, y: real)
    requires x <= y
    ensures RoundHalfEven(x) <= RoundHalfEven(y)
  {
    RoundHalfEvenNearest(x);
    RoundHalfEvenNearest(y);
    if RoundHalfEven(x) > RoundHalfEven(y) {
      NearestEvenIsUnique(x, RoundHalfEven(x), RoundHalfEven(y));
    }
  }

  /** Shifting by an even whole number commutes with rounding (ties keep their parity). */
  lemma RoundHalfEvenShift(x: real, j: int)
    requires j % 2 == 0
    ensures RoundHalfEven(x + j as real) == RoundHalfEven(x) + j
  {
    var k := RoundHalfEven(x + j as real);
    RoundHalfEvenNearest(x + j as real);
    RoundHalfEvenNearest(x);
    NearestEvenIsUnique(x, k - j, RoundHalfEven(x));
  }

  lemma Round2Monotone(x: real, y: real)
    requires x <= y
    ensures Round2(x) <= Round2(y)
  {
    RoundHalfEvenMonotone(x * 100.0, y * 100.0);
  }

  /** A non-negative amount never rounds to a negative one. */
  lemma Round2NonNegative(x: real)
    requires x >= 0.0
    ensures Round2(x) >= 0.0
  {
    Round2Monotone(0.0, x);
  }

  /** Adding a whole number of rupees (here the 500 insurance fee) passes through rounding unchanged. */
  lemma Round2AddRupees(x: real, rupees: int)
    ensures Round2(x + rupees as real) == Round2(x) + rupees as real
  {
    var y := x * 100.0;
    var cents := rupees * 100;
    assert cents % 2 == 0 by { assert cents == 2 * (rupees * 50); }
    assert (x + rupees as real) * 100.0 == y + cents as real;
    RoundHalfEvenShift(y, cents);
    var k := RoundHalfEven(y);
    assert Round2(x + rupees as real) == (k + cents) as real / 100.0;
  }

  /** A whole number rounds to itself. */
  lemma RoundHalfEvenInt(j: int)
    ensures RoundHalfEven(j as real) == j
  {
  }

  /** A whole multiple of an already rounded amount is its own rounding. */
  lemma Round2OfMultiple(count: nat, x: real)
    ensures Round2(count as real * Round2(x)) == count as real * Round2(x)
  {
    var k := RoundHalfEven(x * 100.0);
    var total := count as real * Round2(x);
    assert total * 100.0 == (count * k) as real;
    RoundHalfEvenInt(count * k);
  }

  /** An amount that is a whole number of hundredths (paise). */
  ghost predicate WholeCents(x: real)
  {
    (x * 100.0).Floor as real == x * 100.0
  }

  /** Whatever `round(·, 2)` returns is a whole number of hundredths. */
  lemma Round2WholeCents(x: real)
    ensures WholeCents(Round2(x))
  {
    hide RoundHalfEven;
    var k := RoundHalfEven(x * 100.0);
    assert Round2(x) == k as real / 100.0;
    assert Round2(x) * 100.0 == k as real;
  }

  /** Adding two amounts in whole hundredths gives an amount in whole hundredths. */
  lemma WholeCentsAdd(a: real, b: real)
    requires WholeCents(a) && WholeCents(b)
    ensures WholeCents(a + b)
  {
    var j, k := (a * 100.0).Floor, (b * 100.0).Floor;
    assert (a + b) * 100.0 == (j + k) as real;
  }

  /** An amount already in whole hundredths is unchanged by `round(·, 2)`. */
  lemma Round2OfWholeCents(x: real)
    requires WholeCents(x)
    ensures Round2(x) == x
  {
    var j := (x * 100.0).Floor;
    RoundHalfEvenInt(j);
    assert Round2(x) == j as real / 100.0;
  }
}
