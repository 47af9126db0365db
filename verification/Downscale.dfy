/** Reducing an avatar by averaging boxes of source pixels. */
module Downscale {
  import opened Wrappers

  /** uint32 arithmetic is modulo this. */
  const WORD: int := 0x1_0000_0000

  datatype Pixel = Pixel(r: Byte, g: Byte, b: Byte, a: Byte)

  /** A picture whose top left pixel is at (minX, minY). */
  datatype Picture = Picture(minX: int, minY: int, width: nat, rows: seq<seq<Pixel>>)

  predicate Valid(p: Picture) { forall y :: 0 <= y < |p.rows| ==> |p.rows[y]| == p.width }

  /** image.RGBA.At, which is transparent black outside the bounds. */
  function At(p: Picture, x: int, y: int): Pixel
    requires Valid(p)
  {
    if 0 <= x - p.minX < p.width && 0 <= y - p.minY < |p.rows| then p.rows[y - p.minY][x - p.minX] else Pixel(0, 0, 0, 0)
  }

  // ----- division ---------------------------------------------------------------------------------

  lemma MulMonotone(a: nat, x: nat, y: nat)
    requires x <= y
    ensures x * a <= y * a
  {
  }

  /** Rounding down is what it should be: a quotient is at least `c` exactly when the dividend is. */
  lemma DivAtLeast(a: nat, b: nat, c: nat)
    requires b > 0
    ensures c * b <= a <==> c <= a / b
  {
    var q, r := a / b, a % b;
    assert a == q * b + r;
    if q < c {
      MulMonotone(b, q + 1, c);
      assert (q + 1) * b == q * b + b;
    } else {
      MulMonotone(b, c, q);
    }
  }

  lemma DivFloor(a: nat, b: nat)
    requires b > 0
    ensures a / b * b <= a < (a / b + 1) * b
  {
    DivAtLeast(a, b, a / b);
    DivAtLeast(a, b, a / b + 1);
  }

  lemma MulStep(a: int, k: int)
    ensures a * k == a * (k - 1) + a
  {
  }

  lemma MulAssociates(a: int, b: int, c: int)
    ensures a * b * c == a * (b * c)
  {
  }

  // ----- the size of the result -------------------------------------------------------------------

  /** The size a picture that exceeds `max` is reduced to. */
  function Target(dx: nat, dy: nat, max: nat): (nat, nat)
    requires dx > max || dy > max
  {
    if dx >= dy then (max, dy * max / dx) else (dx * max / dy, max)
  }

  lemma ScaledSide(side: nat, longest: nat, max: nat)
    requires side <= longest && max < longest
    ensures side * max / longest <= max && side * max / longest <= side
  {
    DivAtLeast(side * max, longest, max + 1);
    DivAtLeast(side * max, longest, side + 1);
    assert side * max <= longest * max by { MulMonotone(max, side, longest); }
    assert (max + 1) * longest == max * longest + longest;
    assert max * side <= longest * side by { MulMonotone(side, max, longest); }
    assert (side + 1) * longest == side * longest + longest;
  }

  /** The longest side becomes exactly `max`, the other no longer than that, in the proportion of the
      picture rounded down, and neither grows. The result is empty
      exactly when the picture is more than `max` times as long as it is wide. */
  lemma TargetFits(dx: nat, dy: nat, max: nat)
    requires dx > max || dy > max
    ensures var (w, h) := Target(dx, dy, max);
            && w <= max && h <= max && (if dx >= dy then w == max else h == max)
            && w <= dx && h <= dy
            && (w > 0 && h > 0 <==> if dx >= dy then dx <= dy * max else dy <= dx * max)
            && (if dx >= dy then h * dx <= dy * max < (h + 1) * dx else w * dy <= dx * max < (w + 1) * dy)
  {
    DivFloor(dy * max, if dx > 0 then dx else 1);
    DivFloor(dx * max, if dy > 0 then dy else 1);
    if dx >= dy {
      ScaledSide(dy, dx, max);
      DivAtLeast(dy * max, dx, 1);
    } else {
      ScaledSide(dx, dy, max);
      DivAtLeast(dx * max, dy, 1);
    }
  }

  /** As in a row of three pixels reduced to two: the height rounds to zero. */
  lemma RowReducedToNothing() returns (p: Picture)
    ensures Valid(p) && p.width == 3 && |p.rows| == 1 && Target(p.width, |p.rows|, 2) == (2, 0)
  {
    var black := Pixel(0, 0, 0, 255);
    p := Picture(0, 0, 3, [[black, black, black]]);
  }

  // ----- the boxes --------------------------------------------------------------------------------

  /** Where box `i` of `n` starts along a side of `d` pixels, and where box `i - 1` ends. */
  function Edge(i: nat, n: nat, d: nat): nat
    requires n > 0
  {
    i * d / n
  }

  lemma EdgeEnds(n: nat, d: nat)
    requires n > 0
    ensures Edge(0, n, d) == 0 && Edge(n, n, d) == d
  {
    DivAtLeast(n * d, n, d);
    DivAtLeast(n * d, n, d + 1);
    assert (d + 1) * n == n * d + n;
  }

  lemma EdgeMonotone(i: nat, j: nat, n: nat, d: nat)
    requires n > 0 && i <= j
    ensures Edge(i, n, d) <= Edge(j, n, d)
  {
    DivAtLeast(i * d, n, Edge(i, n, d));
    MulMonotone(d, i, j);
    DivAtLeast(j * d, n, Edge(i, n, d));
  }

  /** No box is empty when there are no more boxes than pixels. */
  lemma EdgeStrict(i: nat, n: nat, d: nat)
    requires 0 < n <= d
    ensures Edge(i, n, d) < Edge(i + 1, n, d)
  {
    var e := Edge(i, n, d);
    DivAtLeast(i * d, n, e);
    assert (e + 1) * n == e * n + n && (i + 1) * d == i * d + d;
    DivAtLeast((i + 1) * d, n, e + 1);
  }

  /** The boxes are even: each has the rounded mean number of pixels, or one more. */
  lemma BoxesEven(i: nat, n: nat, d: nat)
    requires n > 0
    ensures d / n <= Edge(i + 1, n, d) - Edge(i, n, d) <= d / n + 1
  {
    var e, q := Edge(i, n, d), d / n;
    DivFloor(i * d, n);
    DivFloor(d, n);
    assert (i + 1) * d == i * d + d;
    assert (e + q) * n == e * n + q * n && (e + q + 2) * n == (e + 1) * n + (q + 1) * n;
    DivAtLeast((i + 1) * d, n, e + q);
    DivAtLeast((i + 1) * d, n, e + q + 2);
  }

  predicate InBox(s: nat, i: nat, n: nat, d: nat)
    requires n > 0
  {
    Edge(i, n, d) <= s < Edge(i + 1, n, d)
  }

  lemma {:induction false} FindBox(s: nat, k: nat, n: nat, d: nat) returns (i: nat)
    requires 0 < k <= n && s < Edge(k, n, d)
    ensures i < k && InBox(s, i, n, d)
  {
    if Edge(k - 1, n, d) <= s {
      i := k - 1;
    } else {
      EdgeEnds(n, d);
      i := FindBox(s, k - 1, n, d);
    }
  }

  /** The boxes partition the side: every pixel is in exactly one. */
  lemma BoxesPartition(s: nat, n: nat, d: nat) returns (i: nat)
    requires n > 0 && s < d
    ensures i < n && InBox(s, i, n, d)
    ensures forall j: nat :: j < n && InBox(s, j, n, d) ==> j == i
  {
    EdgeEnds(n, d);
    i := FindBox(s, n, n, d);
    forall j: nat | j < n && InBox(s, j, n, d) ensures j == i {
      if j < i {
        EdgeMonotone(j + 1, i, n, d);
      } else if i < j {
        EdgeMonotone(i + 1, j, n, d);
      }
    }
  }

  // ----- sums over a box --------------------------------------------------------------------------

  type Channel = Pixel -> Byte

  const RED: Channel := (p: Pixel) => p.r
  const GREEN: Channel := (p: Pixel) => p.g
  const BLUE: Channel := (p: Pixel) => p.b

  function RowSum(p: Picture, ch: Channel, y: int, x0: int, x1: int): nat
    requires Valid(p) && x0 <= x1
    decreases x1 - x0
  {
    if x0 == x1 then 0 else RowSum(p, ch, y, x0, x1 - 1) + ch(At(p, x1 - 1, y))
  }

  function BoxSum(p: Picture, ch: Channel, x0: int, x1: int, y0: int, y1: int): nat
    requires Valid(p) && x0 <= x1 && y0 <= y1
    decreases y1 - y0
  {
    if y0 == y1 then 0 else BoxSum(p, ch, x0, x1, y0, y1 - 1) + RowSum(p, ch, y1 - 1, x0, x1)
  }

  /** Every value of the channel in the box is between `lo` and `hi`. */
  ghost predicate Within(p: Picture, ch: Channel, x0: int, x1: int, y0: int, y1: int, lo: nat, hi: nat)
    requires Valid(p)
  {
    forall x, y :: x0 <= x < x1 && y0 <= y < y1 ==> lo <= ch(At(p, x, y)) <= hi
  }

  lemma {:induction false} RowSumWithin(p: Picture, ch: Channel, y: int, x0: int, x1: int, lo: nat, hi: nat)
    requires Valid(p) && x0 <= x1
    requires forall x :: x0 <= x < x1 ==> lo <= ch(At(p, x, y)) <= hi
    ensures lo * (x1 - x0) <= RowSum(p, ch, y, x0, x1) <= hi * (x1 - x0)
    decreases x1 - x0
  {
    if x0 < x1 {
      RowSumWithin(p, ch, y, x0, x1 - 1, lo, hi);
      assert lo * (x1 - x0) == lo * (x1 - 1 - x0) + lo && hi * (x1 - x0) == hi * (x1 - 1 - x0) + hi;
    }
  }

  lemma {:induction false} BoxSumWithin(p: Picture, ch: Channel, x0: int, x1: int, y0: int, y1: int, lo: nat, hi: nat)
    requires Valid(p) && x0 <= x1 && y0 <= y1 && Within(p, ch, x0, x1, y0, y1, lo, hi)
    ensures lo * (x1 - x0) * (y1 - y0) <= BoxSum(p, ch, x0, x1, y0, y1) <= hi * (x1 - x0) * (y1 - y0)
    decreases y1 - y0
  {
    if y0 < y1 {
      BoxSumWithin(p, ch, x0, x1, y0, y1 - 1, lo, hi);
      RowSumWithin(p, ch, y1 - 1, x0, x1, lo, hi);
      MulStep(lo * (x1 - x0), y1 - y0);
      MulStep(hi * (x1 - x0), y1 - y0);
    }
  }

  /** The mean of a channel, clamped to the range of the channel. */
  function Average(sum: nat, n: nat): Byte
    requires n > 0
  {
    if sum / n < 255 then sum / n else 255
  }

  lemma MeanWithin(sum: nat, n: nat, lo: nat, hi: nat)
    requires n > 0 && lo * n <= sum <= hi * n
    ensures lo <= sum / n <= hi
  {
    DivAtLeast(sum, n, lo);
    DivAtLeast(sum, n, hi + 1);
    assert (hi + 1) * n == hi * n + n;
  }

  /** The mean of a box lies between the smallest and the largest value in it, and is not clamped. */
  lemma AverageWithin(p: Picture, ch: Channel, x0: int, x1: int, y0: int, y1: int, lo: Byte, hi: Byte)
    requires Valid(p) && x0 < x1 && y0 < y1 && Within(p, ch, x0, x1, y0, y1, lo, hi)
    requires (x1 - x0) * (y1 - y0) > 0
    ensures var sum, n := BoxSum(p, ch, x0, x1, y0, y1), (x1 - x0) * (y1 - y0);
            lo <= Average(sum, n) <= hi && Average(sum, n) == sum / n
  {
    BoxSumWithin(p, ch, x0, x1, y0, y1, lo, hi);
    MulAssociates(lo, x1 - x0, y1 - y0);
    MulAssociates(hi, x1 - x0, y1 - y0);
    MeanWithin(BoxSum(p, ch, x0, x1, y0, y1), (x1 - x0) * (y1 - y0), lo, hi);
  }

  // ----- overflow ---------------------------------------------------------------------------------

  /** The largest box whose sums cannot overflow, whatever its pixels. */
  const SAFE_AREA: int := 0xFFFF_FFFF / 255

  lemma SumFits(p: Picture, ch: Channel, x0: int, x1: int, y0: int, y1: int)
    requires Valid(p) && x0 <= x1 && y0 <= y1 && (x1 - x0) * (y1 - y0) <= SAFE_AREA
    ensures BoxSum(p, ch, x0, x1, y0, y1) < WORD
  {
    BoxSumWithin(p, ch, x0, x1, y0, y1, 0, 255);
    assert 255 * (x1 - x0) * (y1 - y0) == 255 * ((x1 - x0) * (y1 - y0));
  }

  /** And it is the largest: a white picture overflows any box beyond it. */
  lemma WhiteOverflows(p: Picture, x0: int, x1: int, y0: int, y1: int)
    requires Valid(p) && x0 <= x1 && y0 <= y1 && Within(p, RED, x0, x1, y0, y1, 255, 255)
    ensures BoxSum(p, RED, x0, x1, y0, y1) >= WORD <==> (x1 - x0) * (y1 - y0) > SAFE_AREA
  {
    BoxSumWithin(p, RED, x0, x1, y0, y1, 255, 255);
    assert 255 * (x1 - x0) * (y1 - y0) == 255 * ((x1 - x0) * (y1 - y0));
  }

  // ----- the reduction ----------------------------------------------------------------------------

  /** The number of source pixels averaged into pixel (x, y) of a w by h result. */
  function BoxArea(p: Picture, x: nat, y: nat, w: nat, h: nat): int
    requires w > 0 && h > 0
  {
    (Edge(x + 1, w, p.width) - Edge(x, w, p.width)) * (Edge(y + 1, h, |p.rows|) - Edge(y, h, |p.rows|))
  }

  /** No box is empty, and none has so many pixels that counting them in 32 bits gives zero. */
  ghost predicate CountsNonZero(p: Picture, w: nat, h: nat) {
    forall x: nat, y: nat {:trigger BoxArea(p, x, y, w, h)} :: x < w && y < h ==> BoxArea(p, x, y, w, h) % WORD != 0
  }

  lemma BoxAreaBounds(p: Picture, x: nat, y: nat, w: nat, h: nat)
    requires x < w <= p.width && y < h <= |p.rows|
    ensures 0 < BoxArea(p, x, y, w, h) <= p.width * |p.rows|
  {
    EdgeStrict(x, w, p.width);
    EdgeStrict(y, h, |p.rows|);
    EdgeEnds(w, p.width);
    EdgeEnds(h, |p.rows|);
    EdgeMonotone(x + 1, w, w, p.width);
    EdgeMonotone(y + 1, h, h, |p.rows|);
    var a, b := Edge(x + 1, w, p.width) - Edge(x, w, p.width), Edge(y + 1, h, |p.rows|) - Edge(y, h, |p.rows|);
    MulMonotone(b, 1, a);
    MulMonotone(b, a, p.width);
    assert p.width * b <= p.width * |p.rows| by { MulMonotone(p.width, b, |p.rows|); }
  }

  /** A picture of fewer than 2^32 pixels never makes Average divide by zero. */
  lemma CountsFit(p: Picture, max: nat)
    requires p.width > max || |p.rows| > max
    requires p.width * |p.rows| < WORD
    ensures var (w, h) := Target(p.width, |p.rows|, max); CountsNonZero(p, w, h)
  {
    var (w, h) := Target(p.width, |p.rows|, max);
    TargetFits(p.width, |p.rows|, max);
    forall x: nat, y: nat | x < w && y < h ensures BoxArea(p, x, y, w, h) % WORD != 0 {
      BoxAreaBounds(p, x, y, w, h);
    }
  }

  datatype Box = Box(x0: int, x1: int, y0: int, y1: int)

  /** The source pixels averaged into pixel (x, y). */
  function BoxAt(p: Picture, x: nat, y: nat, w: nat, h: nat): (q: Box)
    requires x < w && y < h
    ensures q.x0 <= q.x1 && q.y0 <= q.y1 && (q.x1 - q.x0) * (q.y1 - q.y0) == BoxArea(p, x, y, w, h)
  {
    EdgeMonotone(x, x + 1, w, p.width);
    EdgeMonotone(y, y + 1, h, |p.rows|);
    Box(p.minX + Edge(x, w, p.width), p.minX + Edge(x + 1, w, p.width), p.minY + Edge(y, h, |p.rows|), p.minY + Edge(y + 1, h, |p.rows|))
  }

  /** The source pixel at (sx, sy) is one of those. */
  predicate Covers(q: Box, sx: int, sy: int) { q.x0 <= sx < q.x1 && q.y0 <= sy < q.y1 }

  /** Which pixels those are: the ones in box x of the width and in box y of the height. */
  lemma CoversIffInBox(p: Picture, x: nat, y: nat, w: nat, h: nat, sx: int, sy: int)
    requires x < w && y < h && p.minX <= sx && p.minY <= sy
    ensures Covers(BoxAt(p, x, y, w, h), sx, sy) <==>
            InBox(sx - p.minX, x, w, p.width) && InBox(sy - p.minY, y, h, |p.rows|)
  {
  }

  /** The mean of a channel over a box, in 32-bit arithmetic. */
  function Mean32(p: Picture, ch: Channel, q: Box): Byte
    requires Valid(p) && q.x0 <= q.x1 && q.y0 <= q.y1 && (q.x1 - q.x0) * (q.y1 - q.y0) % WORD != 0
  {
    Average(BoxSum(p, ch, q.x0, q.x1, q.y0, q.y1) % WORD, (q.x1 - q.x0) * (q.y1 - q.y0) % WORD)
  }

  function Reduced(p: Picture, x: nat, y: nat, w: nat, h: nat): Pixel
    requires Valid(p) && x < w && y < h && BoxArea(p, x, y, w, h) % WORD != 0
  {
    var q := BoxAt(p, x, y, w, h);
    Pixel(Mean32(p, RED, q), Mean32(p, GREEN, q), Mean32(p, BLUE, q), 255)
  }

  function Add32(a: nat, b: nat): nat { (a + b) % WORD }

  lemma Add32Wraps(total: nat, b: nat)
    ensures Add32(total % WORD, b) == (total + b) % WORD
  {
    var q := total / WORD;
    assert total == q * WORD + total % WORD;
    assert (total + b) % WORD == (total % WORD + b) % WORD;
  }

  /** RGBA widens a channel to 16 bits; the shift narrows it again. */
  function Shifted(c: Byte): (r: nat)
    ensures r == c
  {
    c as int * 0x101 / 0x100
  }

  lemma RowSumAdds(p: Picture, ch: Channel, y: int, x0: int, x: int, start: nat)
    requires Valid(p) && x0 <= x
    ensures Add32(Add32(start, RowSum(p, ch, y, x0, x)), ch(At(p, x, y))) == Add32(start, RowSum(p, ch, y, x0, x + 1))
  {
    Add32Wraps(start + RowSum(p, ch, y, x0, x), ch(At(p, x, y)));
  }

  /** The innermost loop: adds one row of a box to the running sums and count. */
  method SumRow(p: Picture, y: int, x0: int, x1: int, r0: nat, g0: nat, b0: nat, n0: nat) returns (r: nat, g: nat, b: nat, n: nat)
    requires Valid(p) && x0 <= x1 && r0 < WORD && g0 < WORD && b0 < WORD && n0 < WORD
    ensures r == Add32(r0, RowSum(p, RED, y, x0, x1))
    ensures g == Add32(g0, RowSum(p, GREEN, y, x0, x1))
    ensures b == Add32(b0, RowSum(p, BLUE, y, x0, x1))
    ensures n == Add32(n0, x1 - x0)
  {
    r, g, b, n := r0, g0, b0, n0;
    for sx := x0 to x1
      invariant r == Add32(r0, RowSum(p, RED, y, x0, sx))
      invariant g == Add32(g0, RowSum(p, GREEN, y, x0, sx))
      invariant b == Add32(b0, RowSum(p, BLUE, y, x0, sx))
      invariant n == Add32(n0, sx - x0)
    {
      var c := At(p, sx, y);
      RowSumAdds(p, RED, y, x0, sx, r0);
      RowSumAdds(p, GREEN, y, x0, sx, g0);
      RowSumAdds(p, BLUE, y, x0, sx, b0);
      Add32Wraps(n0 + sx - x0, 1);
      r, g, b, n := Add32(r, Shifted(c.r)), Add32(g, Shifted(c.g)), Add32(b, Shifted(c.b)), Add32(n, 1);
    }
  }

  /** The sums and the count of a box, in 32-bit arithmetic. */
  method SumBox(p: Picture, x0: int, x1: int, y0: int, y1: int) returns (r: nat, g: nat, b: nat, n: nat)
    requires Valid(p) && x0 <= x1 && y0 <= y1
    ensures r == BoxSum(p, RED, x0, x1, y0, y1) % WORD
    ensures g == BoxSum(p, GREEN, x0, x1, y0, y1) % WORD
    ensures b == BoxSum(p, BLUE, x0, x1, y0, y1) % WORD
    ensures n == (x1 - x0) * (y1 - y0) % WORD
  {
    r, g, b, n := 0, 0, 0, 0;
    for sy := y0 to y1
      invariant r == BoxSum(p, RED, x0, x1, y0, sy) % WORD
      invariant g == BoxSum(p, GREEN, x0, x1, y0, sy) % WORD
      invariant b == BoxSum(p, BLUE, x0, x1, y0, sy) % WORD
      invariant n == (x1 - x0) * (sy - y0) % WORD
    {
      Add32Wraps(BoxSum(p, RED, x0, x1, y0, sy), RowSum(p, RED, sy, x0, x1));
      Add32Wraps(BoxSum(p, GREEN, x0, x1, y0, sy), RowSum(p, GREEN, sy, x0, x1));
      Add32Wraps(BoxSum(p, BLUE, x0, x1, y0, sy), RowSum(p, BLUE, sy, x0, x1));
      Add32Wraps((x1 - x0) * (sy - y0), x1 - x0);
      MulStep(x1 - x0, sy + 1 - y0);
      r, g, b, n := SumRow(p, sy, x0, x1, r, g, b, n);
    }
  }

  /** downscale: null when the picture is within the bound and is returned untouched. */
  method Downscale(p: Picture, max: nat) returns (dst: array2?<Pixel>)
    requires Valid(p)
    requires p.width > max || |p.rows| > max ==> var (w, h) := Target(p.width, |p.rows|, max); CountsNonZero(p, w, h)
    ensures dst == null <==> p.width <= max && |p.rows| <= max
    ensures dst != null ==>
              && fresh(dst)
              && (dst.Length0, dst.Length1) == Target(p.width, |p.rows|, max)
              && forall x, y :: 0 <= x < dst.Length0 && 0 <= y < dst.Length1 ==> dst[x, y] == Reduced(p, x, y, dst.Length0, dst.Length1)
  {
    var width, height := p.width, |p.rows|;
    if width <= max && height <= max {
      return null;
    }
    if width >= height {
      width, height := max, height * max / width;
    } else {
      width, height := width * max / height, max;
    }
    var canvas := new Pixel[width, height]((_, _) => Pixel(0, 0, 0, 0));
    for y := 0 to height
      invariant forall i, j :: 0 <= i < width && 0 <= j < y ==> canvas[i, j] == Reduced(p, i, j, width, height)
    {
      for x := 0 to width
        invariant forall i, j :: 0 <= i < width && 0 <= j < y ==> canvas[i, j] == Reduced(p, i, j, width, height)
        invariant forall i :: 0 <= i < x ==> canvas[i, y] == Reduced(p, i, y, width, height)
      {
        canvas[x, y] := ReducePixel(p, x, y, width, height);
      }
    }
    dst := canvas;
  }

  method ReducePixel(p: Picture, x: nat, y: nat, w: nat, h: nat) returns (c: Pixel)
    requires Valid(p) && x < w && y < h && BoxArea(p, x, y, w, h) % WORD != 0
    ensures c == Reduced(p, x, y, w, h)
  {
    ghost var q := BoxAt(p, x, y, w, h);
    var y0, y1 := p.minY + y * |p.rows| / h, p.minY + (y + 1) * |p.rows| / h;
    var x0, x1 := p.minX + x * p.width / w, p.minX + (x + 1) * p.width / w;
    assert q == Box(x0, x1, y0, y1);
    var r, g, b, n := SumBox(p, x0, x1, y0, y1);
    c := Pixel(Average(r, n), Average(g, n), Average(b, n), 255);
  }

  // ----- what the reduction computes --------------------------------------------------------------

  /** Every source pixel is averaged into exactly one pixel of the result, the one whose box covers it, and each of
      those has pixels to average. */
  lemma EveryPixelCountsOnce(p: Picture, max: nat, sx: int, sy: int) returns (x: nat, y: nat)
    requires p.width > max || |p.rows| > max
    requires p.minX <= sx < p.minX + p.width && p.minY <= sy < p.minY + |p.rows|
    requires var (w, h) := Target(p.width, |p.rows|, max); w > 0 && h > 0
    ensures var (w, h) := Target(p.width, |p.rows|, max);
            && x < w && y < h && Covers(BoxAt(p, x, y, w, h), sx, sy)
            && BoxArea(p, x, y, w, h) > 0
            && (forall i: nat, j: nat :: i < w && j < h && Covers(BoxAt(p, i, j, w, h), sx, sy) ==> i == x && j == y)
  {
    var (w, h) := Target(p.width, |p.rows|, max);
    TargetFits(p.width, |p.rows|, max);
    x := BoxesPartition(sx - p.minX, w, p.width);
    y := BoxesPartition(sy - p.minY, h, |p.rows|);
    CoversIffInBox(p, x, y, w, h, sx, sy);
    BoxAreaBounds(p, x, y, w, h);
    forall i: nat, j: nat | i < w && j < h && Covers(BoxAt(p, i, j, w, h), sx, sy) ensures i == x && j == y {
      CoversIffInBox(p, i, j, w, h, sx, sy);
    }
  }

  lemma Mean32IsMean(p: Picture, ch: Channel, q: Box, lo: Byte, hi: Byte)
    requires Valid(p) && q.x0 < q.x1 && q.y0 < q.y1 && 0 < (q.x1 - q.x0) * (q.y1 - q.y0) <= SAFE_AREA
    requires Within(p, ch, q.x0, q.x1, q.y0, q.y1, lo, hi)
    ensures Mean32(p, ch, q) == BoxSum(p, ch, q.x0, q.x1, q.y0, q.y1) / ((q.x1 - q.x0) * (q.y1 - q.y0))
    ensures lo <= Mean32(p, ch, q) <= hi
  {
    SumFits(p, ch, q.x0, q.x1, q.y0, q.y1);
    AverageWithin(p, ch, q.x0, q.x1, q.y0, q.y1, lo, hi);
    SmallStays(BoxSum(p, ch, q.x0, q.x1, q.y0, q.y1));
    SmallStays((q.x1 - q.x0) * (q.y1 - q.y0));
  }

  lemma SmallStays(n: nat)
    requires n < WORD
    ensures n % WORD == n
  {
  }

  /** Each colour of the result is the mean of its box, rounded down, and lies between the extremes of the box, as long
      as the box is small enough for 32-bit sums. */
  lemma ReducedIsMean(p: Picture, x: nat, y: nat, w: nat, h: nat, ch: Channel, lo: Byte, hi: Byte)
    requires Valid(p) && x < w <= p.width && y < h <= |p.rows| && BoxArea(p, x, y, w, h) <= SAFE_AREA
    requires ch == RED || ch == GREEN || ch == BLUE
    requires var q := BoxAt(p, x, y, w, h); Within(p, ch, q.x0, q.x1, q.y0, q.y1, lo, hi)
    ensures 0 < BoxArea(p, x, y, w, h) < WORD
    ensures var q := BoxAt(p, x, y, w, h);
            ch(Reduced(p, x, y, w, h)) == BoxSum(p, ch, q.x0, q.x1, q.y0, q.y1) / BoxArea(p, x, y, w, h)
    ensures lo <= ch(Reduced(p, x, y, w, h)) <= hi && Reduced(p, x, y, w, h).a == 255
  {
    EdgeStrict(x, w, p.width);
    EdgeStrict(y, h, |p.rows|);
    BoxAreaBounds(p, x, y, w, h);
    Mean32IsMean(p, ch, BoxAt(p, x, y, w, h), lo, hi);
  }
}
