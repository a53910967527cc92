/** Rounding of coordinates, over the reals. */
module Rounding {
  /** A cast to an integer type cuts off towards zero. */
  function Trunc(r: real): int {
    if r >= 0.0 then r.Floor else -((-r).Floor)
  }

  /** `round_to_int`: to the nearest integer, halves away from zero. */
  function RoundToInt(f: real): int {
    if f > 0.0 then Trunc(f + 0.5) else Trunc(f - 0.5)
  }

  lemma RoundIsNearest(f: real)
    ensures -0.5 <= f - RoundToInt(f) as real <= 0.5
    ensures f > 0.0 ==> f - RoundToInt(f) as real < 0.5
    ensures f <= 0.0 ==> -0.5 < f - RoundToInt(f) as real
  {
  }

  lemma RoundOfInt(n: int)
    ensures RoundToInt(n as real) == n
  {
  }

  lemma RoundMonotone(f: real, g: real)
    requires f <= g
    ensures RoundToInt(f) <= RoundToInt(g)
  {
  }
}
