/** Amounts in USDC as exact rationals, and Python's `round(x, 6)`: to the nearest millionth, a tie
    going to the even one.
 */
module Money {

  function RoundHalfEven(y: real): int {
    var f := y.Floor;
    var d := y - f as real;
    if d < 0.5 || (d == 0.5 && f % 2 == 0) then f else f + 1
  }

  function Round6(x: real): real {
    RoundHalfEven(x * 1_000_000.0) as real / 1_000_000.0
  }

  /** `x` is a whole number of millionths. */
  predicate IsMicro(x: real) {
    (x * 1_000_000.0).Floor as real == x * 1_000_000.0
  }

  /** The nearest whole number, the even one of two. */
  lemma RoundsExactly(y: real, n: int)
    ensures RoundHalfEven(y) == n <==>
      -0.5 <= y - n as real <= 0.5 && (y - n as real in {-0.5, 0.5} ==> n % 2 == 0)
  {
  }

  /** Rounding moves an amount by at most half a millionth, always lands on a millionth, and leaves
      exactly the millionths alone. */
  lemma Round6IsNearest(x: real)
    ensures -0.0000005 <= Round6(x) - x <= 0.0000005
    ensures IsMicro(Round6(x))
    ensures Round6(x) == x <==> IsMicro(x)
  {
    var n := RoundHalfEven(x * 1_000_000.0);
    assert Round6(x) * 1_000_000.0 == n as real;
    assert (n as real).Floor == n;
  }

  /** A positive amount rounds to zero exactly up to half a millionth, the tie included. */
  lemma Round6Positive(x: real)
    requires x > 0.0
    ensures Round6(x) >= 0.0
    ensures Round6(x) > 0.0 <==> x > 0.0000005
  {
    var n := RoundHalfEven(x * 1_000_000.0);
    assert n >= 0;
    assert n >= 1 <==> x * 1_000_000.0 > 0.5;
  }

  lemma Round6Monotone(x: real, y: real)
    requires x <= y
    ensures Round6(x) <= Round6(y)
  {
    assert x * 1_000_000.0 <= y * 1_000_000.0;
    assert RoundHalfEven(x * 1_000_000.0) <= RoundHalfEven(y * 1_000_000.0);
  }

  lemma WholeMillionths(z: real, n: int)
    requires z * 1_000_000.0 == n as real
    ensures IsMicro(z)
  {
  }

  lemma MicroSum(x: real, y: real)
    requires IsMicro(x) && IsMicro(y)
    ensures IsMicro(x + y) && IsMicro(x - y)
  {
    var m, n := (x * 1_000_000.0).Floor, (y * 1_000_000.0).Floor;
    WholeMillionths(x + y, m + n);
    WholeMillionths(x - y, m - n);
  }
}
