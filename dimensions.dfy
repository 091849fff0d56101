/** Working dimensions of the inference buffer.

    The transform network halves each image dimension twice and doubles it
    back twice, so the webcam loop rounds the requested width, and the
    height derived from the camera's aspect ratio, up to a multiple of 4
    before it builds the input placeholder. */
module Dimensions {

  /** The working width and height handed to the network. */
  datatype Dims = Dims(width: int, height: int)

  /** Rounds `n` up to the next multiple of 4: `n` itself when it is
      already aligned, otherwise `n + 4 - n % 4`. Python's `%` by a
      positive divisor is never negative, and neither is Dafny's, so the
      same expression serves for every integer. */
  function RoundUp4(n: int): (r: int)
    ensures r % 4 == 0
    ensures n <= r < n + 4
  {
    if n % 4 == 0 then n else n + 4 - n % 4
  }

  /** A width that is already divisible by 4 is kept as it is. */
  lemma RoundUp4KeepsAligned(n: int)
    requires n % 4 == 0
    ensures RoundUp4(n) == n
  {
  }

  /** Rounding twice is rounding once. */
  lemma RoundUp4Idempotent(n: int)
    ensures RoundUp4(RoundUp4(n)) == RoundUp4(n)
  {
    RoundUp4KeepsAligned(RoundUp4(n));
  }

  /** The rounded value is the least multiple of 4 that is at least `n`. */
  lemma RoundUp4IsLeast(n: int, m: int)
    requires m % 4 == 0 && n <= m
    ensures RoundUp4(n) <= m
  {
  }

  /** An independent closed form: four times the ceiling of `n / 4`. */
  lemma RoundUp4ClosedForm(n: int)
    ensures RoundUp4(n) == 4 * ((n + 3) / 4)
  {
    var c := 4 * ((n + 3) / 4);
    assert c % 4 == 0 && n <= c < n + 4;
    RoundUp4IsLeast(n, c);
    RoundUp4IsLeast(c - 3, RoundUp4(n));
  }

  /** Rounding up preserves the order of its arguments. */
  lemma RoundUp4Monotonic(a: int, b: int)
    requires a <= b
    ensures RoundUp4(a) <= RoundUp4(b)
  {
    RoundUp4IsLeast(a, RoundUp4(b));
  }

  /** The working dimensions: the requested width rounded up, and the
      pre-rounding height (derived from the camera's aspect ratio by
      floating-point arithmetic, taken here as an input) rounded up the
      same way. */
  function WorkingDims(width: int, rawHeight: int): (d: Dims)
    ensures d.width % 4 == 0 && d.height % 4 == 0
    ensures width <= d.width < width + 4
    ensures rawHeight <= d.height < rawHeight + 4
    ensures width % 4 == 0 ==> d.width == width
    ensures rawHeight % 4 == 0 ==> d.height == rawHeight
  {
    Dims(RoundUp4(width), RoundUp4(rawHeight))
  }
}
