/** The colour gradient: `ComplexPlane::iterationsToRGB` maps an escape count to a colour
    by the fifth of MAX_ITER it falls into. */
module Coloring {
  import opened Limits

  /** An SFML `Uint8` channel. */
  type Uint8 = x: int | 0 <= x < 256

  datatype Rgb = Rgb(r: Uint8, g: Uint8, b: Uint8)

  const Black := Rgb(0, 0, 0)

  /** The fixed colour of the lowest band. */
  const Cyan := Rgb(21, 182, 221)

  /** The channel value `static_cast<Uint8>(255 * count / MAX_ITER)`: the product is taken
      in `size_t` (wrapping at 2^64), divided with truncation (both operands are
      non-negative, so Dafny's division agrees), then narrowed to eight bits. */
  function Base(count: nat, maxIter: nat): Uint8
    requires count < SIZE_T_MOD && 0 < maxIter
  {
    ((255 * count) % SIZE_T_MOD / maxIter) % 256
  }

  /** The colour of a pixel whose orbit took `count` steps to escape. */
  function IterationsToRGB(count: nat, maxIter: nat): (c: Rgb)
    requires count < SIZE_T_MOD && ValidMaxIter(maxIter)
    ensures count == maxIter ==> c == Black
    ensures count < maxIter / 5 ==> c == Cyan
  {
    var base := Base(count, maxIter);
    if count == maxIter then Black
    else if count < maxIter / 5 then Cyan
    else if count < 2 * maxIter / 5 then Rgb(0, base, base)
    else if count < 3 * maxIter / 5 then Rgb(0, base, 0)
    else if count < 4 * maxIter / 5 then Rgb(base, base, 0)
    else Rgb(base, 0, 0)
  }

  /** Division by a positive number is monotone. */
  lemma DivMonotone(a: nat, b: nat, d: nat)
    requires a <= b && 0 < d
    ensures a / d <= b / d
  {
    if a / d > b / d {
      calc {
        a;
      >= (a / d) * d;
      >= (b / d + 1) * d;
      == (b / d) * d + d;
      > b;
      }
    }
  }

  /** Multiplying by a natural number keeps the order. */
  lemma MulLe(a: nat, b: nat, c: nat)
    requires a <= b
    ensures a * c <= b * c
  {
    if a < b {
      assert b * c == a * c + (b - a) * c;
    }
  }

  /** The quotient of `q * d + r` by `d` is `q` whenever `0 <= r < d`. */
  lemma DivUnique(n: int, d: int, q: int, r: int)
    requires 0 < d && 0 <= r < d && n == q * d + r
    ensures n / d == q && n % d == r
  {
    var q', r' := n / d, n % d;
    assert n == q' * d + r' && 0 <= r' < d;
    if q' < q {
      assert (q - q') * d == q * d - q' * d;
      MulLe(1, q - q', d);
    } else if q' > q {
      assert (q' - q) * d == q' * d - q * d;
      MulLe(1, q' - q, d);
    }
  }

  /** For counts up to MAX_ITER the product never wraps and the channel never wraps either:
      the channel is exactly the truncated quotient `255 * count / MAX_ITER`, at most 255. */
  lemma BaseExact(count: nat, maxIter: nat)
    requires ValidMaxIter(maxIter) && count <= maxIter
    ensures 255 * count / maxIter <= 255
    ensures Base(count, maxIter) == 255 * count / maxIter
  {
    assert 255 * count <= 255 * maxIter < SIZE_T_MOD;
    DivMonotone(255 * count, 255 * maxIter, maxIter);
    DivUnique(255 * maxIter, maxIter, 255, 0);
  }

  /** Within the counts up to MAX_ITER, a larger count never gives a darker channel. */
  lemma BaseMonotone(c1: nat, c2: nat, maxIter: nat)
    requires ValidMaxIter(maxIter) && c1 <= c2 <= maxIter
    ensures Base(c1, maxIter) <= Base(c2, maxIter)
  {
    BaseExact(c1, maxIter);
    BaseExact(c2, maxIter);
    DivMonotone(255 * c1, 255 * c2, maxIter);
  }

  /** For counts below MAX_ITER, each band shows its own pattern, and its channel value
      is the exact (unwrapped) quotient `255 * count / MAX_ITER`. */
  lemma BandColours(count: nat, maxIter: nat)
    requires ValidMaxIter(maxIter) && count < maxIter
    ensures Base(count, maxIter) == 255 * count / maxIter
    ensures var base := Base(count, maxIter);
      var c := IterationsToRGB(count, maxIter);
      && (count < maxIter / 5 ==> c == Cyan)
      && (maxIter / 5 <= count < 2 * maxIter / 5 ==> c == Rgb(0, base, base))
      && (2 * maxIter / 5 <= count < 3 * maxIter / 5 ==> c == Rgb(0, base, 0))
      && (3 * maxIter / 5 <= count < 4 * maxIter / 5 ==> c == Rgb(base, base, 0))
      && (4 * maxIter / 5 <= count ==> c == Rgb(base, 0, 0))
  {
    BaseExact(count, maxIter);
  }

  /** With at least five iterations, black is reserved for a count of exactly MAX_ITER:
      every smaller count is cyan or has a non-zero channel. */
  lemma BlackOnlyAtMaxIter(count: nat, maxIter: nat)
    requires ValidMaxIter(maxIter) && 5 <= maxIter && count <= maxIter
    ensures IterationsToRGB(count, maxIter) == Black <==> count == maxIter
  {
    if count < maxIter && maxIter / 5 <= count {
      BaseExact(count, maxIter);
      var f := maxIter / 5;
      assert maxIter == 5 * f + maxIter % 5;
      assert 5 * count >= maxIter - 4;
      assert 255 * count >= maxIter;
      DivMonotone(maxIter, 255 * count, maxIter);
      DivUnique(maxIter, maxIter, 1, 0);
      assert Base(count, maxIter) >= 1;
    }
  }

  /** The channel of a count of MAX_ITER + 1 wraps when MAX_ITER is at most 255. */
  lemma InteriorBase(maxIter: nat)
    requires ValidMaxIter(maxIter)
    ensures Base(maxIter + 1, maxIter) == if maxIter <= 255 then 255 / maxIter - 1 else 255
  {
    var n := 255 * (maxIter + 1);
    var q, r := 255 / maxIter, 255 % maxIter;
    DivUnique(n, SIZE_T_MOD, 0, n);
    assert n == (255 + q) * maxIter + r;
    DivUnique(n, maxIter, 255 + q, r);
    assert Base(maxIter + 1, maxIter) == (255 + q) % 256;
    if maxIter <= 255 {
      DivMonotone(maxIter, 255, maxIter);
      DivUnique(maxIter, maxIter, 1, 0);
      DivMonotone(255, 255 * maxIter, maxIter);
      DivUnique(255 * maxIter, maxIter, 255, 0);
      DivUnique(255 + q, 256, 1, q - 1);
    } else {
      DivUnique(255, maxIter, 0, 255);
      DivUnique(255, 256, 0, 255);
    }
  }

  /** A count of MAX_ITER + 1 (an orbit that never escaped) lands in the last band with
      the wrapped channel: for MAX_ITER up to 255 the point is red with channel
      `255 / MAX_ITER - 1`, which is 0 (black) for MAX_ITER in 128..255; above 255 it is
      full red. */
  lemma InteriorColour(maxIter: nat)
    requires ValidMaxIter(maxIter)
    ensures IterationsToRGB(maxIter + 1, maxIter)
         == Rgb(if maxIter <= 255 then 255 / maxIter - 1 else 255, 0, 0)
  {
    InteriorBase(maxIter);
    assert 4 * maxIter / 5 <= maxIter + 1;
  }
}
