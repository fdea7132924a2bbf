/**
  Python's built-in `round(x)` with no digits argument: the nearest integer,
  ties going to the even neighbour ("banker's rounding"). Scores are rounded
  this way before they are reported.
 */
module Numbers {

  /** The rounding rule: `n` is nearest to `x`, and an exact tie picks the
      even neighbour. */
  predicate RoundsTo(x: real, n: int)
  {
    && -0.5 <= x - n as real <= 0.5
    && ((x - n as real == 0.5 || n as real - x == 0.5) ==> n % 2 == 0)
  }

  /** `round(x)`. */
  function Round(x: real): (n: int)
    ensures RoundsTo(x, n)
  {
    var f := x.Floor;
    var d := x - f as real;
    if d < 0.5 then f
    else if d > 0.5 then f + 1
    else if f % 2 == 0 then f else f + 1
  }

  /** The rounding rule leaves no choice: `Round` is the only integer it
      accepts. */
  lemma RoundUnique(x: real, n: int)
    requires RoundsTo(x, n)
    ensures n == Round(x)
  {
    var m := Round(x);
    if n < m {
      assert false;
    } else if m < n {
      assert false;
    }
  }

  /** Rounding an integer gives it back. */
  lemma RoundInt(n: int)
    ensures Round(n as real) == n
  {
    RoundUnique(n as real, n);
  }

  /** Rounding never reverses an order. */
  lemma RoundMonotone(x: real, y: real)
    requires x <= y
    ensures Round(x) <= Round(y)
  {
    var m, n := Round(x), Round(y);
    if n < m {
      assert false;
    }
  }

  /** A value at most `n` rounds to at most `n`. */
  lemma RoundAtMost(x: real, n: int)
    requires x <= n as real
    ensures Round(x) <= n
  {
    RoundMonotone(x, n as real);
    RoundInt(n);
  }

  /** A value at least 0 rounds to at least 0. */
  lemma RoundNonNegative(x: real)
    requires 0.0 <= x
    ensures 0 <= Round(x)
  {
    RoundMonotone(0.0, x);
    RoundInt(0);
  }
}
