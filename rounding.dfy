/**
 * Turning one reconstructed real sample into a pixel: `np.round` (nearest
 * integer, ties to even), then `np.clip(·, 0, 255)`, then the `uint8` cast of
 * the finished plane (compression_tool/main.py:60-61, 64).
 */
module Rounding {

  function Abs(x: real): real {
    if x < 0.0 then -x else x
  }

  /** `np.round` with zero decimals: the nearest integer, a tie going to the even neighbour. */
  function RoundHalfEven(x: real): (r: int)
    ensures x - 0.5 <= r as real <= x + 0.5
    ensures (r as real == x - 0.5 || r as real == x + 0.5) ==> r % 2 == 0
  {
    var f := x.Floor;
    var frac := x - f as real;
    if frac < 0.5 then f
    else if frac > 0.5 then f + 1
    else if f % 2 == 0 then f
    else f + 1
  }

  /** The two properties above single out one integer: `RoundHalfEven` is exactly that integer. */
  lemma RoundHalfEvenUnique(x: real, n: int)
    requires x - 0.5 <= n as real <= x + 0.5
    requires (n as real == x - 0.5 || n as real == x + 0.5) ==> n % 2 == 0
    ensures RoundHalfEven(x) == n
  {
  }

  /** `np.clip(v, 0, 255)` applied to an already rounded value. */
  function Clip(v: int): (s: int)
    ensures 0 <= s <= 255
    ensures 0 <= v <= 255 ==> s == v
    ensures v < 0 ==> s == 0
    ensures v > 255 ==> s == 255
  {
    if v < 0 then 0 else if v > 255 then 255 else v
  }

  /** One output pixel: round half to even, clip, cast to `uint8` (exact, since the value is an integer in [0,255]). */
  function ToSample(x: real): (s: int)
    ensures 0 <= s <= 255
  {
    Clip(RoundHalfEven(x))
  }

  /** Rounding then clipping lands on a value of [0,255] that is nearest to `x`. */
  lemma ToSampleNearest(x: real, n: int)
    requires 0 <= n <= 255
    ensures Abs(ToSample(x) as real - x) <= Abs(n as real - x)
  {
    var r := RoundHalfEven(x);
    if r < 0 {
      assert ToSample(x) == 0 && x <= 0.5;
    } else if r > 255 {
      assert ToSample(x) == 255 && x >= 254.5;
    } else {
      assert ToSample(x) == r;
      if n < r {
        assert n as real <= r as real - 1.0;
      } else if n > r {
        assert n as real >= r as real + 1.0;
      }
    }
  }

  /** A sample that is already a pixel value comes back unchanged. */
  lemma ToSampleOfPixel(n: int)
    requires 0 <= n <= 255
    ensures ToSample(n as real) == n
  {
    RoundHalfEvenUnique(n as real, n);
  }
}
