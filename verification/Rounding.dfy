/** Python's `round`: to the nearest integer, halves to the even neighbour, over real numbers. */
module Rounding {

  function Round(x: real): (n: int)
    ensures x - 0.5 <= n as real <= x + 0.5
    ensures (n as real == x + 0.5 || n as real == x - 0.5) ==> n % 2 == 0
  {
    var f := x.Floor;
    var d := x - f as real;
    if d < 0.5 || (d == 0.5 && f % 2 == 0) then f else f + 1
  }

  lemma RoundMonotone(x: real, y: real)
    requires x <= y
    ensures Round(x) <= Round(y)
  {
    assert Round(x) as real <= x + 0.5 <= y + 0.5 <= Round(y) as real + 1.0;
  }

  lemma RoundInteger(n: int)
    ensures Round(n as real) == n
  {
  }

  /** Python's `round(x, 2)`. */
  function Round2(x: real): (r: real)
    ensures x - 0.005 <= r <= x + 0.005
  {
    Round(x * 100.0) as real / 100.0
  }

  /** It has two decimals. */
  lemma Hundredths(x: real) returns (n: int)
    ensures Round2(x) == n as real / 100.0
  {
    n := Round(x * 100.0);
  }

  lemma Round2Monotone(x: real, y: real)
    requires x <= y
    ensures Round2(x) <= Round2(y)
  {
    RoundMonotone(x * 100.0, y * 100.0);
  }

  lemma Quotient(part: real, whole: real)
    requires 0.0 <= part <= whole && whole > 0.0
    ensures 0.0 <= part * 100.0 / whole <= 100.0
    ensures part == whole ==> part * 100.0 / whole == 100.0
    ensures part == 0.0 ==> part * 100.0 / whole == 0.0
  {
    assert (whole - part) * 100.0 / whole >= 0.0;
    assert part * 100.0 / whole + (whole - part) * 100.0 / whole == whole * 100.0 / whole == 100.0;
  }

  /** A part in percent of the whole, to two decimals: from 0, for nothing, to 100, for all. */
  lemma PercentOf(part: real, whole: real)
    requires 0.0 <= part <= whole && whole > 0.0
    ensures var exact := part * 100.0 / whole;
            && exact - 0.005 <= Round2(exact) <= exact + 0.005 && 0.0 <= Round2(exact) <= 100.0
            && (part == whole ==> Round2(exact) == 100.0) && (part == 0.0 ==> Round2(exact) == 0.0)
  {
    RoundInteger(0);
    RoundInteger(10000);
    assert Round2(0.0) == 0.0 && Round2(100.0) == 100.0;
    hide Round2;
    Quotient(part, whole);
    Round2Monotone(0.0, part * 100.0 / whole);
    Round2Monotone(part * 100.0 / whole, 100.0);
  }
}
