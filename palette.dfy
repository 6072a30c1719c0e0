/**
  The two-point colour gradient of the loading spinner: circle `i` of `n`
  gets, channel by channel, `Math.round(start + (end - start) * i / (n - 1))`.
  Colours are integer triples; the CSS `rgb(...)` string is not modelled.
*/
module Palette {

  import opened Arith

  /** One colour, as the three integer channels the source formats into `rgb(r, g, b)`. */
  datatype Rgb = Rgb(r: int, g: int, b: int)

  /** The shipped constants. */
  const NUM_CIRCLES: nat := 8
  const ANIMATION_INTERVAL: nat := 400
  const CONTAINER_SIZE: nat := 300
  const CIRCLE_SIZE: nat := 50
  /** Orbit radius; the source divides exactly (250 / 2), and it is never negative. */
  const RADIUS: nat := (CONTAINER_SIZE - CIRCLE_SIZE) / 2
  const START_COLOR: Rgb := Rgb(50, 50, 50)
  const END_COLOR: Rgb := Rgb(200, 200, 200)

  /**
    `c` is what `Math.round` returns for the exact value `num / den`:
    the integer with `c - 1/2 <= num / den < c + 1/2` (halves round up).
  */
  ghost predicate RoundsTo(c: int, num: int, den: int)
    requires den > 0
  {
    2 * (c * den) - den <= 2 * num < 2 * (c * den) + den
  }

  /** `Math.round` never goes down as its argument grows. */
  lemma RoundingMonotone(c1: int, c2: int, num1: int, num2: int, den: int)
    requires den > 0 && num1 <= num2
    requires RoundsTo(c1, num1, den) && RoundsTo(c2, num2, den)
    ensures c1 <= c2
  {
    if c1 > c2 {
      assert den * (c2 + 1) == c2 * den + den;
      assert den * c1 == c1 * den;
      MulMono(den, c2 + 1, c1);
    }
  }

  /** A value that is already a whole number rounds to itself. */
  lemma RoundsExact(v: int, den: int)
    requires den > 0
    ensures RoundsTo(v, v * den, den)
  {
  }

  /** At most one integer is the rounding of a given value. */
  lemma RoundingUnique(c1: int, c2: int, num: int, den: int)
    requires den > 0
    requires RoundsTo(c1, num, den) && RoundsTo(c2, num, den)
    ensures c1 == c2
  {
    RoundingMonotone(c1, c2, num, num, den);
    RoundingMonotone(c2, c1, num, num, den);
  }

  /** The exact value of entry `i` of `n`, scaled by `n - 1`; `Lerp` rounds it. */
  function Exact(s: int, e: int, i: nat, n: nat): int
    requires 2 <= n
  {
    s * (n - 1) + (e - s) * i
  }

  /**
    One channel of gradient entry `i` out of `n`: the source computes
    `ratio = i / (n - 1)` and `Math.round(s + (e - s) * ratio)`; here the exact
    value is `(s * (n - 1) + (e - s) * i) / (n - 1)` and the rounding is done
    in integers by flooring `(2 * (e - s) * i + (n - 1)) / (2 * (n - 1))`.
    The source divides by `n - 1`, so it needs at least two circles.
  */
  function Lerp(s: int, e: int, i: nat, n: nat): (c: int)
    requires 2 <= n && i < n
    ensures RoundsTo(c, Exact(s, e, i, n), n - 1)
  {
    var den := 2 * (n - 1);
    var num := 2 * (e - s) * i + (n - 1);
    var q := num / den;
    assert q * den <= num < q * den + den;
    s + q
  }

  /** Entry 0 is the start channel exactly. */
  lemma LerpAtStart(s: int, e: int, n: nat)
    requires 2 <= n
    ensures Lerp(s, e, 0, n) == s
  {
    assert RoundsTo(s, Exact(s, e, 0, n), n - 1);
    RoundingUnique(Lerp(s, e, 0, n), s, Exact(s, e, 0, n), n - 1);
  }

  /** Entry `n - 1` is the end channel exactly. */
  lemma LerpAtEnd(s: int, e: int, n: nat)
    requires 2 <= n
    ensures Lerp(s, e, n - 1, n) == e
  {
    var num := Exact(s, e, n - 1, n);
    assert num == e * (n - 1);
    assert RoundsTo(e, num, n - 1);
    RoundingUnique(Lerp(s, e, n - 1, n), e, num, n - 1);
  }

  /**
    The exact value `num / den` of entry `i` lies between the exact values
    `s` and `e`, so its rounding does too.
  */
  lemma RoundingBetween(s: int, e: int, c: int, num: int, den: int)
    requires den > 0 && s * den <= num <= e * den
    requires RoundsTo(c, num, den)
    ensures s <= c <= e
  {
    RoundsExact(s, den);
    RoundsExact(e, den);
    RoundingMonotone(s, c, s * den, num, den);
    RoundingMonotone(c, e, num, e * den, den);
  }

  /** Every entry lies between the two end channels, whichever is larger. */
  lemma LerpBetween(s: int, e: int, i: nat, n: nat)
    requires 2 <= n && i < n
    ensures s <= e ==> s <= Lerp(s, e, i, n) <= e
    ensures e <= s ==> e <= Lerp(s, e, i, n) <= s
  {
    var c, den := Lerp(s, e, i, n), n - 1;
    var num := Exact(s, e, i, n);
    assert num == e * den + (s - e) * (den - i);
    if s <= e {
      MulMono(e - s, 0, i);
      MulMono(den - i, s - e, 0);
      RoundingBetween(s, e, c, num, den);
    } else {
      MulMono(i, e - s, 0);
      MulMono(s - e, 0, den - i);
      RoundingBetween(e, s, c, num, den);
    }
  }

  /** The exact values move in the direction of `e - s` as `i` grows. */
  lemma ExactMonotone(s: int, e: int, i: nat, j: nat, n: nat)
    requires 2 <= n && i <= j
    ensures s <= e ==> Exact(s, e, i, n) <= Exact(s, e, j, n)
    ensures e <= s ==> Exact(s, e, j, n) <= Exact(s, e, i, n)
  {
    var p, q := (e - s) * i, (e - s) * j;
    if s <= e {
      MulMono(e - s, i, j);
    } else {
      MulMono(s - e, i, j);
      assert (s - e) * i == -p && (s - e) * j == -q;
    }
  }

  /**
    Later entries are at least as light as earlier ones when the gradient
    rises, and at most as light when it falls.
  */
  lemma LerpMonotone(s: int, e: int, i: nat, j: nat, n: nat)
    requires 2 <= n && i <= j < n
    ensures s <= e ==> Lerp(s, e, i, n) <= Lerp(s, e, j, n)
    ensures e <= s ==> Lerp(s, e, j, n) <= Lerp(s, e, i, n)
  {
    var ci, cj := Lerp(s, e, i, n), Lerp(s, e, j, n);
    var xi, xj := Exact(s, e, i, n), Exact(s, e, j, n);
    assert RoundsTo(ci, xi, n - 1) && RoundsTo(cj, xj, n - 1);
    ExactMonotone(s, e, i, j, n);
    if s <= e {
      RoundingMonotone(ci, cj, xi, xj, n - 1);
    }
    if e <= s {
      RoundingMonotone(cj, ci, xj, xi, n - 1);
    }
  }

  /** Gradient entry `i` of `n`, every channel interpolated the same way. */
  function Shade(start: Rgb, end: Rgb, i: nat, n: nat): Rgb
    requires 2 <= n && i < n
  {
    Rgb(Lerp(start.r, end.r, i, n), Lerp(start.g, end.g, i, n), Lerp(start.b, end.b, i, n))
  }

  /** The whole `colors` list the initialisation loop builds. */
  function Gradient(start: Rgb, end: Rgb, n: nat): seq<Rgb>
    requires 2 <= n
  {
    seq(n, i requires 0 <= i < n => Shade(start, end, i, n))
  }

  /** Channel `x` lies between `a` and `b`, in whichever order those two come. */
  predicate ChannelBetween(x: int, a: int, b: int)
  {
    if a <= b then a <= x <= b else b <= x <= a
  }

  /** Each channel of `c` lies between the matching channels of `a` and `b`. */
  predicate ColorBetween(c: Rgb, a: Rgb, b: Rgb)
  {
    ChannelBetween(c.r, a.r, b.r) && ChannelBetween(c.g, a.g, b.g) && ChannelBetween(c.b, a.b, b.b)
  }

  /** The list has `n` entries; the first is `start` and the last is `end`, channel by channel. */
  lemma GradientEndpoints(start: Rgb, end: Rgb, n: nat)
    requires 2 <= n
    ensures |Gradient(start, end, n)| == n
    ensures Gradient(start, end, n)[0] == start
    ensures Gradient(start, end, n)[n - 1] == end
  {
    LerpAtStart(start.r, end.r, n);
    LerpAtStart(start.g, end.g, n);
    LerpAtStart(start.b, end.b, n);
    LerpAtEnd(start.r, end.r, n);
    LerpAtEnd(start.g, end.g, n);
    LerpAtEnd(start.b, end.b, n);
  }

  /** Every entry lies channel by channel between `start` and `end`. */
  lemma GradientBetween(start: Rgb, end: Rgb, n: nat, i: nat)
    requires 2 <= n && i < n
    ensures ColorBetween(Gradient(start, end, n)[i], start, end)
  {
    LerpBetween(start.r, end.r, i, n);
    LerpBetween(start.g, end.g, i, n);
    LerpBetween(start.b, end.b, i, n);
  }

  /** A channel that rises from start to end never decreases along the list. */
  lemma GradientMonotone(start: Rgb, end: Rgb, n: nat, i: nat, j: nat)
    requires 2 <= n && i <= j < n
    ensures start.r <= end.r ==> Gradient(start, end, n)[i].r <= Gradient(start, end, n)[j].r
    ensures start.g <= end.g ==> Gradient(start, end, n)[i].g <= Gradient(start, end, n)[j].g
    ensures start.b <= end.b ==> Gradient(start, end, n)[i].b <= Gradient(start, end, n)[j].b
  {
    LerpMonotone(start.r, end.r, i, j, n);
    LerpMonotone(start.g, end.g, i, j, n);
    LerpMonotone(start.b, end.b, i, j, n);
  }

  function Grey(v: int): Rgb { Rgb(v, v, v) }

  /** With the shipped constants the eight circles run 50, 71, 93, 114, 136, 157, 179, 200. */
  lemma ShippedGradient()
    ensures Gradient(START_COLOR, END_COLOR, NUM_CIRCLES)
         == [Grey(50), Grey(71), Grey(93), Grey(114), Grey(136), Grey(157), Grey(179), Grey(200)]
  {
    var g := Gradient(START_COLOR, END_COLOR, NUM_CIRCLES);
    var want := [Grey(50), Grey(71), Grey(93), Grey(114), Grey(136), Grey(157), Grey(179), Grey(200)];
    forall k | 0 <= k < 8 ensures g[k] == want[k] {
      assert g[k] == Shade(START_COLOR, END_COLOR, k, 8);
      assert Lerp(50, 200, k, 8) == want[k].r;
    }
  }

  /**
    The initialisation loop: for each `i` in `[0, n)` compute the three
    channels and push the colour onto `colors`.
  */
  method BuildGradient(start: Rgb, end: Rgb, n: nat) returns (colors: seq<Rgb>)
    requires 2 <= n
    ensures colors == Gradient(start, end, n)
  {
    colors := [];
    for i := 0 to n
      invariant |colors| == i
      invariant forall k :: 0 <= k < i ==> colors[k] == Shade(start, end, k, n)
    {
      var r := Lerp(start.r, end.r, i, n);
      var g := Lerp(start.g, end.g, i, n);
      var b := Lerp(start.b, end.b, i, n);
      colors := colors + [Rgb(r, g, b)];
    }
  }
}
