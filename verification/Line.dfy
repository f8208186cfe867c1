/**
 Line drawing on a pixel surface (kernel/src/gui/framebuffer.rs): the all-octant integer
 loop paints exactly the points obtained by rounding the ideal line.
 */
module Line {
  import opened Bytes
  import opened Arith

  datatype Point = Point(x: int, y: int)

  function Abs(a: int): nat { if a < 0 then -a else a }

  // ---------- the ideal line, rounded ----------

  /** `p / m` rounded to the nearest integer, halves upward. */
  function Rounded(p: nat, m: nat): nat
    requires m > 0
  {
    (2 * p + m) / (2 * m)
  }

  /** Rounded to the nearest: the point is within half a pixel of the ideal line. */
  lemma WithinHalf(p: nat, m: nat)
    requires m > 0
    ensures var q := Rounded(p, m) * m; 0 <= 2 * (p - q) + m < 2 * m
  {
    var b := Rounded(p, m);
    assert 2 * p + m == (2 * m) * b + (2 * p + m) % (2 * m);
    assert (2 * m) * b == 2 * (b * m);
  }

  lemma RoundedUnique(p: nat, m: nat, b: nat)
    requires m > 0 && 0 <= 2 * (p - b * m) + m < 2 * m
    ensures Rounded(p, m) == b
  {
    assert b * (2 * m) == 2 * (b * m);
    assert (b + 1) * (2 * m) == 2 * (b * m) + 2 * m;
    DivisionUnique(2 * p + m, 2 * m, b);
  }

  /** One step along the major axis moves the minor coordinate by one exactly when this test holds. */
  lemma NextRounded(k: nat, minor: nat, major: nat)
    requires major > 0 && minor <= major
    ensures var b := Rounded(k * minor, major);
            Rounded((k + 1) * minor, major) ==
              if 2 * ((k + 1) * minor) + major >= 2 * (b * major) + 2 * major then b + 1 else b
  {
    hide Rounded;
    var b := Rounded(k * minor, major);
    WithinHalf(k * minor, major);
    assert (k + 1) * minor == k * minor + minor;
    assert (b + 1) * major == b * major + major;
    if 2 * ((k + 1) * minor) + major >= 2 * (b * major) + 2 * major {
      RoundedUnique((k + 1) * minor, major, b + 1);
    } else {
      RoundedUnique((k + 1) * minor, major, b);
    }
  }

  lemma EndRounded(minor: nat, major: nat)
    requires major > 0
    ensures Rounded(major * minor, major) == minor
  {
    assert minor * major == major * minor;
    RoundedUnique(major * minor, major, minor);
  }

  // ---------- the points of a line ----------

  function Sign(a: int, b: int): int { if a < b then 1 else -1 }

  /** How many steps the longer axis takes. */
  function Length(x0: int, y0: int, x1: int, y1: int): nat { Max(Abs(x1 - x0), Abs(y1 - y0)) }

  /** Steps along x after `k` steps along the longer axis. */
  function StepsX(dx: nat, dy: nat, k: nat): nat {
    if dx >= dy then k else Rounded(k * dx, dy)
  }

  function StepsY(dx: nat, dy: nat, k: nat): nat {
    if dx < dy then k else if dx == 0 then 0 else Rounded(k * dy, dx)
  }

  /** The `k`th point: one step at a time along the longer axis, the other coordinate rounded. */
  function LinePoint(x0: int, y0: int, x1: int, y1: int, k: nat): Point {
    var dx, dy := Abs(x1 - x0), Abs(y1 - y0);
    Point(x0 + Sign(x0, x1) * StepsX(dx, dy, k), y0 + Sign(y0, y1) * StepsY(dx, dy, k))
  }

  function LinePoints(x0: int, y0: int, x1: int, y1: int): (points: seq<Point>)
    ensures |points| == Length(x0, y0, x1, y1) + 1
  {
    seq(Length(x0, y0, x1, y1) + 1, k requires 0 <= k => LinePoint(x0, y0, x1, y1, k))
  }

  /** The points run from one end to the other, each within half a pixel of the ideal line. */
  lemma LineShape(x0: int, y0: int, x1: int, y1: int, k: nat)
    requires k <= Length(x0, y0, x1, y1)
    ensures LinePoint(x0, y0, x1, y1, 0) == Point(x0, y0)
    ensures LinePoint(x0, y0, x1, y1, Length(x0, y0, x1, y1)) == Point(x1, y1)
    ensures var dx, dy := Abs(x1 - x0), Abs(y1 - y0);
            && (dx >= dy && dx > 0 ==> 0 - dx <= 2 * (k * dy - StepsY(dx, dy, k) * dx) < dx)
            && (dx < dy ==> 0 - dy <= 2 * (k * dx - StepsX(dx, dy, k) * dy) < dy)
  {
    hide Rounded;
    StepsShape(Abs(x1 - x0), Abs(y1 - y0), k);
  }

  lemma StepsShape(dx: nat, dy: nat, k: nat)
    requires k <= Max(dx, dy)
    ensures StepsX(dx, dy, 0) == 0 && StepsY(dx, dy, 0) == 0
    ensures StepsX(dx, dy, Max(dx, dy)) == dx && StepsY(dx, dy, Max(dx, dy)) == dy
    ensures dx >= dy && dx > 0 ==> 0 - dx <= 2 * (k * dy - StepsY(dx, dy, k) * dx) < dx
    ensures dx < dy ==> 0 - dy <= 2 * (k * dx - StepsX(dx, dy, k) * dy) < dy
  {
    hide Rounded;
    if dx >= dy && dx > 0 {
      WithinHalf(k * dy, dx);
      EndRounded(dy, dx);
      RoundedZero(dx, dy);
    } else if dx < dy {
      WithinHalf(k * dx, dy);
      EndRounded(dx, dy);
      RoundedZero(dy, dx);
    }
  }

  lemma RoundedZero(major: nat, minor: nat)
    requires major > 0
    ensures Rounded(0 * minor, major) == 0
  {
    RoundedUnique(0, major, 0);
  }

  // ---------- the error term ----------

  /** `err` after `a` steps along x and `b` along y, with `dx` and `-dy` as the code has them. */
  function Error(dx: nat, dy: nat, a: nat, b: nat): int { (b + 1) * dx - (a + 1) * dy }

  /** The two tests on the doubled error take exactly the steps to the next rounded point. */
  ghost predicate StepsRight(dx: nat, dy: nat, k: nat) {
    var a, b := StepsX(dx, dy, k), StepsY(dx, dy, k);
    var doubled := 2 * Error(dx, dy, a, b);
    && StepsX(dx, dy, k + 1) == (if doubled + dy >= 0 then a + 1 else a)
    && StepsY(dx, dy, k + 1) == (if doubled <= dx then b + 1 else b)
  }

  lemma StepTestsX(dx: nat, dy: nat, k: nat)
    requires k < dx && dx >= dy
    ensures StepsRight(dx, dy, k)
  {
    hide Rounded;
    var b := Rounded(k * dy, dx);
    WithinHalf(k * dy, dx);
    NextRounded(k, dy, dx);
    Spread(k, dy);
    Spread(b, dx);
    var p, q := k * dy, b * dx;
    assert Error(dx, dy, k, b) == q + dx - p - dy;
  }

  lemma StepTestsY(dx: nat, dy: nat, k: nat)
    requires k < dy && dx < dy
    ensures StepsRight(dx, dy, k)
  {
    hide Rounded;
    var a := Rounded(k * dx, dy);
    WithinHalf(k * dx, dy);
    NextRounded(k, dx, dy);
    Spread(k, dx);
    Spread(a, dy);
    var p, q := k * dx, a * dy;
    assert Error(dx, dy, a, k) == p + dx - q - dy;
  }

  lemma ErrorMoves(dx: nat, dy: nat, a: nat, b: nat)
    ensures Error(dx, dy, a + 1, b) == Error(dx, dy, a, b) - dy
    ensures Error(dx, dy, a, b + 1) == Error(dx, dy, a, b) + dx
    ensures Error(dx, dy, a + 1, b + 1) == Error(dx, dy, a, b) - dy + dx
  {
    assert (a + 2) * dy == (a + 1) * dy + dy;
    assert (b + 2) * dx == (b + 1) * dx + dx;
  }

  /** The error term after `k` steps along the longer axis. */
  function ErrorAfter(dx: nat, dy: nat, k: nat): int {
    Error(dx, dy, StepsX(dx, dy, k), StepsY(dx, dy, k))
  }

  /** The error term at the `k`th point. */
  function ErrorAt(x0: int, y0: int, x1: int, y1: int, k: nat): int {
    ErrorAfter(Abs(x1 - x0), Abs(y1 - y0), k)
  }

  /** One round of the loop, from the `k`th point to the next. */
  lemma Round(x0: int, y0: int, x1: int, y1: int, k: nat)
    requires k < Length(x0, y0, x1, y1)
    ensures var dx, dy := Abs(x1 - x0), Abs(y1 - y0);
            var here, next := LinePoint(x0, y0, x1, y1, k), LinePoint(x0, y0, x1, y1, k + 1);
            var err := ErrorAt(x0, y0, x1, y1, k);
            var alongX, alongY := 2 * err + dy >= 0, 2 * err <= dx;
            && next.x == (if alongX then here.x + Sign(x0, x1) else here.x)
            && next.y == (if alongY then here.y + Sign(y0, y1) else here.y)
            && ErrorAt(x0, y0, x1, y1, k + 1) == err - (if alongX then dy else 0) + (if alongY then dx else 0)
  {
    hide Rounded, StepsX, StepsY, Error;
    var dx, dy := Abs(x1 - x0), Abs(y1 - y0);
    if dx >= dy {
      StepTestsX(dx, dy, k);
    } else {
      StepTestsY(dx, dy, k);
    }
    ErrorMoves(dx, dy, StepsX(dx, dy, k), StepsY(dx, dy, k));
  }

  lemma NotThereYet(x0: int, y0: int, x1: int, y1: int, k: nat)
    requires k <= Length(x0, y0, x1, y1)
    ensures LinePoint(x0, y0, x1, y1, k) == Point(x1, y1) <==> k == Length(x0, y0, x1, y1)
  {
    LineShape(x0, y0, x1, y1, k);
  }

  // ---------- the surface ----------

  predicate IsI32(a: int) { -0x8000_0000 <= a < 0x8000_0000 }

  /** Every value the loop computes from the error term `err`. */
  predicate RoundFits(dx: nat, dy: nat, err: int) {
    && IsI32(err) && IsI32(2 * err)
    && (2 * err + dy >= 0 ==> IsI32(err - dy))
    && (2 * err <= dx ==> IsI32(err - (if 2 * err + dy >= 0 then dy else 0) + dx))
  }

  /** No value of any round on a line of these extents leaves 32 bits. */
  predicate ExtentsFit(dx: nat, dy: nat) {
    && IsI32(dx) && IsI32(dy) && IsI32(dx - dy)
    && forall k | 0 <= k < Max(dx, dy) :: RoundFits(dx, dy, ErrorAfter(dx, dy, k))
  }

  /** Endpoints for which no value leaves 32 bits. */
  predicate InRange(x0: int, y0: int, x1: int, y1: int) {
    IsI32(x0) && IsI32(y0) && IsI32(x1) && IsI32(y1) && ExtentsFit(Abs(x1 - x0), Abs(y1 - y0))
  }

  /** How far the doubled error strays. */
  lemma ErrorBounds(dx: nat, dy: nat, k: nat)
    requires k < Max(dx, dy)
    ensures dx >= dy ==> dx - 2 * dy < 2 * ErrorAfter(dx, dy, k) <= 3 * dx - 2 * dy
    ensures dx < dy ==> 2 * dx - 3 * dy <= 2 * ErrorAfter(dx, dy, k) < 2 * dx - dy
    ensures dy == 0 ==> ErrorAfter(dx, dy, k) == dx
    ensures dx == 0 ==> ErrorAfter(dx, dy, k) == 0 - dy
  {
    hide Rounded;
    if dx >= dy {
      var b := Rounded(k * dy, dx);
      WithinHalf(k * dy, dx);
      Spread(k, dy);
      Spread(b, dx);
      if dy == 0 {
        RoundedZero(dx, k);
      }
    } else {
      var a := Rounded(k * dx, dy);
      WithinHalf(k * dx, dy);
      Spread(k, dx);
      Spread(a, dy);
      if dx == 0 {
        RoundedZero(dy, k);
      }
    }
  }

  lemma ShortFits(dx: nat, dy: nat)
    requires Max(dx, dy) <= 715827883
    ensures ExtentsFit(dx, dy)
  {
    hide ErrorAfter;
    forall k | 0 <= k < Max(dx, dy)
      ensures RoundFits(dx, dy, ErrorAfter(dx, dy, k))
    {
      ErrorBounds(dx, dy, k);
    }
  }

  /** On a line that rises by one, the doubled error comes close to three times the length. */
  lemma LongOverflows(n: nat)
    requires n > 715827883
    ensures !ExtentsFit(n, 1)
  {
    hide Rounded;
    if IsI32(n) {
      var k := (n + 1) / 2;
      RoundedUnique(k * 1, n, 1);
      assert StepsX(n, 1, k) == k && StepsY(n, 1, k) == 1;
      assert ErrorAfter(n, 1, k) == 2 * n - (k + 1);
      assert !IsI32(2 * ErrorAfter(n, 1, k));
      assert !RoundFits(n, 1, ErrorAfter(n, 1, k));
    }
  }

  ghost predicate NeverOverflows(n: nat) {
    forall dx: nat, dy: nat :: Max(dx, dy) == n ==> ExtentsFit(dx, dy)
  }

  /** No line of a length leaves 32 bits if and only if the length is at most 715827883. */
  lemma NoOverflowExactly(n: nat)
    ensures NeverOverflows(n) <==> n <= 715827883
  {
    hide ExtentsFit;
    if n <= 715827883 {
      forall dx: nat, dy: nat
        ensures Max(dx, dy) == n ==> ExtentsFit(dx, dy)
      {
        if Max(dx, dy) == n {
          ShortFits(dx, dy);
        }
      }
    } else {
      LongOverflows(n);
      assert Max(n, 1) == n;
    }
  }

  function PaintOne(pixels: seq<u32>, width: nat, height: nat, p: Point, color: u32): (r: seq<u32>)
    requires |pixels| >= width * height
    ensures |r| == |pixels|
  {
    if 0 <= p.x < width && 0 <= p.y < height then
      PixelInside(p.x, p.y, width, height);
      pixels[p.y * width + p.x := color]
    else pixels
  }

  lemma PixelInside(x: nat, y: nat, width: nat, height: nat)
    requires x < width && y < height
    ensures y * width + x < width * height
  {
    assert (y + 1) * width <= height * width;
    assert (y + 1) * width == y * width + width;
  }

  function Paint(pixels: seq<u32>, width: nat, height: nat, points: seq<Point>, color: u32): (r: seq<u32>)
    requires |pixels| >= width * height
    ensures |r| == |pixels|
  {
    if points == [] then pixels
    else PaintOne(Paint(pixels, width, height, points[..|points| - 1], color), width, height, points[|points| - 1], color)
  }

  /** The pixel at a place on the surface. */
  function At(pixels: seq<u32>, width: nat, height: nat, x: nat, y: nat): u32
    requires |pixels| >= width * height && x < width && y < height
  {
    PixelInside(x, y, width, height);
    pixels[y * width + x]
  }

  /** Exactly the pixels at these points have the colour; all else is as it was. */
  ghost predicate Painted(pixels: seq<u32>, pixels': seq<u32>, width: nat, height: nat, points: seq<Point>, color: u32)
    requires |pixels| >= width * height
  {
    && |pixels'| == |pixels|
    && (forall x: nat, y: nat | x < width && y < height ::
          At(pixels', width, height, x, y) == if Point(x, y) in points then color else At(pixels, width, height, x, y))
    && forall i | width * height <= i < |pixels| :: pixels'[i] == pixels[i]
  }

  /** Two places on the surface are two pixels. */
  lemma PlacesDiffer(width: nat, x: nat, y: nat, x': nat, y': nat)
    requires x < width && x' < width && y * width + x == y' * width + x'
    ensures x == x' && y == y'
  {
    DivisionUnique(y * width + x, width, y);
    DivisionUnique(y * width + x, width, y');
  }

  lemma PaintOneExact(pixels: seq<u32>, width: nat, height: nat, p: Point, color: u32)
    requires |pixels| >= width * height
    ensures Painted(pixels, PaintOne(pixels, width, height, p, color), width, height, [p], color)
  {
    hide At, PaintOne;
    var pixels' := PaintOne(pixels, width, height, p, color);
    PaintOneBeyond(pixels, width, height, p, color);
    forall x: nat, y: nat | x < width && y < height
      ensures At(pixels', width, height, x, y) == if Point(x, y) in [p] then color else At(pixels, width, height, x, y)
    {
      PaintOneAt(pixels, width, height, p, color, x, y);
    }
  }

  lemma PaintOneBeyond(pixels: seq<u32>, width: nat, height: nat, p: Point, color: u32)
    requires |pixels| >= width * height
    ensures forall i | width * height <= i < |pixels| :: PaintOne(pixels, width, height, p, color)[i] == pixels[i]
  {
    if 0 <= p.x < width && 0 <= p.y < height {
      PixelInside(p.x, p.y, width, height);
    }
  }

  lemma PaintOneAt(pixels: seq<u32>, width: nat, height: nat, p: Point, color: u32, x: nat, y: nat)
    requires |pixels| >= width * height && x < width && y < height
    ensures At(PaintOne(pixels, width, height, p, color), width, height, x, y) ==
              if Point(x, y) == p then color else At(pixels, width, height, x, y)
  {
    PixelInside(x, y, width, height);
    if 0 <= p.x < width && 0 <= p.y < height {
      PixelInside(p.x, p.y, width, height);
      var i, j := y * width + x, p.y * width + p.x;
      if i == j {
        PlacesDiffer(width, p.x, p.y, x, y);
      }
    }
  }

  lemma PaintedMore(a: seq<u32>, b: seq<u32>, c: seq<u32>, width: nat, height: nat, points: seq<Point>, p: Point, color: u32)
    requires |a| >= width * height && Painted(a, b, width, height, points, color) && Painted(b, c, width, height, [p], color)
    ensures Painted(a, c, width, height, points + [p], color)
  {
    hide At;
    forall x: nat, y: nat | x < width && y < height
      ensures At(c, width, height, x, y) == if Point(x, y) in points + [p] then color else At(a, width, height, x, y)
    {
      assert At(c, width, height, x, y) == if Point(x, y) in [p] then color else At(b, width, height, x, y);
    }
  }

  /** Painting points one after the other paints exactly them, in whatever order and however often. */
  lemma {:induction false} PaintExact(pixels: seq<u32>, width: nat, height: nat, points: seq<Point>, color: u32)
    requires |pixels| >= width * height
    ensures Painted(pixels, Paint(pixels, width, height, points, color), width, height, points, color)
    decreases |points|
  {
    hide Painted, PaintOne;
    if points == [] {
      PaintedNone(pixels, width, height, color);
    } else {
      var front, p := points[..|points| - 1], points[|points| - 1];
      var before := Paint(pixels, width, height, front, color);
      PaintExact(pixels, width, height, front, color);
      PaintOneExact(before, width, height, p, color);
      PaintedMore(pixels, before, PaintOne(before, width, height, p, color), width, height, front, p, color);
      assert points == front + [p];
    }
  }

  lemma PaintedNone(pixels: seq<u32>, width: nat, height: nat, color: u32)
    requires |pixels| >= width * height
    ensures Painted(pixels, pixels, width, height, [], color)
  {
  }

  lemma PaintNext(pixels: seq<u32>, width: nat, height: nat, points: seq<Point>, k: nat, color: u32)
    requires |pixels| >= width * height && k < |points|
    ensures Paint(pixels, width, height, points[..k + 1], color)
         == PaintOne(Paint(pixels, width, height, points[..k], color), width, height, points[k], color)
  {
    assert points[..k + 1][..k] == points[..k];
  }

  lemma ErrorStart(x0: int, y0: int, x1: int, y1: int)
    ensures ErrorAt(x0, y0, x1, y1, 0) == Abs(x1 - x0) - Abs(y1 - y0)
  {
    LineShape(x0, y0, x1, y1, 0);
  }

  class Surface {
    const pixels: array<u32>
    const width: nat
    const height: nat

    ghost predicate Valid() { pixels.Length >= width * height }

    constructor (pixels: array<u32>, width: nat, height: nat)
      requires pixels.Length >= width * height
      ensures Valid() && this.pixels == pixels && this.width == width && this.height == height
    {
      this.pixels, this.width, this.height := pixels, width, height;
    }

    method SetPixel(x: nat, y: nat, color: u32)
      requires Valid()
      modifies pixels
      ensures pixels[..] == PaintOne(old(pixels[..]), width, height, Point(x, y), color)
    {
      if x >= width || y >= height {
        return;
      }
      PixelInside(x, y, width, height);
      pixels[y * width + x] := color;
    }

    method Plot(x: int, y: int, color: u32)
      requires Valid()
      modifies pixels
      ensures pixels[..] == PaintOne(old(pixels[..]), width, height, Point(x, y), color)
    {
      if x >= 0 && y >= 0 {
        SetPixel(x, y, color);
      }
    }

    /**
     The loop ends for every pair of endpoints, after visiting exactly the points of the
     rounded line, from one end to the other, in order.
     */
    method DrawLine(x0: int, y0: int, x1: int, y1: int, color: u32)
      requires Valid() && InRange(x0, y0, x1, y1)
      modifies pixels
      ensures Painted(old(pixels[..]), pixels[..], width, height, LinePoints(x0, y0, x1, y1), color)
    {
      hide Painted, Paint, ErrorAfter, ExtentsFit, LinePoint, IsTrace;
      PaintExact(pixels[..], width, height, LinePoints(x0, y0, x1, y1), color);
      var dx := Abs(x1 - x0);
      var sx := if x0 < x1 then 1 else -1;
      var dy: int := 0 - Abs(y1 - y0);
      var sy := if y0 < y1 then 1 else -1;
      ghost var errors := seq(Length(x0, y0, x1, y1) + 1, k requires 0 <= k => ErrorAt(x0, y0, x1, y1, k));
      LineIsTrace(x0, y0, x1, y1, errors);
      Trace(x0, y0, x1, y1, dx, dy, sx, sy, color, LinePoints(x0, y0, x1, y1), errors);
    }

    /** The loop of `draw_line`, whose rounds follow the given points and error terms. */
    method Trace(startX: int, startY: int, x1: int, y1: int, dx: int, dy: int, sx: int, sy: int, color: u32,
                 ghost points: seq<Point>, ghost errors: seq<int>)
      requires Valid() && IsTrace(points, errors, dx, dy, sx, sy)
      requires points[0] == Point(startX, startY) && points[|points| - 1] == Point(x1, y1)
      requires errors[0] == dx + dy
      modifies pixels
      ensures pixels[..] == Paint(old(pixels[..]), width, height, points, color)
    {
      var x0, y0 := startX, startY;
      var err := dx + dy;
      ghost var k := 0;
      assert points[..0] == [];
      while true
        invariant k < |points|
        invariant Point(x0, y0) == points[k] && err == errors[k]
        invariant pixels[..] == Paint(old(pixels[..]), width, height, points[..k], color)
        decreases |points| - k
      {
        Plot(x0, y0, color);
        PaintNext(old(pixels[..]), width, height, points, k, color);
        assert k == |points| - 1 || Follows(points, errors, dx, dy, sx, sy, k);
        if x0 == x1 && y0 == y1 {
          break;
        }
        var doubled := err * 2;
        assert IsI32(doubled);
        if doubled >= dy {
          err := err + dy;
          assert IsI32(err);
          x0 := x0 + sx;
        }
        if doubled <= dx {
          err := err + dx;
          assert IsI32(err);
          y0 := y0 + sy;
        }
        k := k + 1;
      }
      assert points[..k + 1] == points;
    }
  }

  /** The point and error after the `k`th are what one round of the loop makes of the `k`th. */
  predicate Follows(points: seq<Point>, errors: seq<int>, dx: int, dy: int, sx: int, sy: int, k: nat)
    requires k < |points| - 1 && |errors| == |points|
  {
    var alongX, alongY := errors[k] * 2 >= dy, errors[k] * 2 <= dx;
    && points[k + 1].x == (if alongX then points[k].x + sx else points[k].x)
    && points[k + 1].y == (if alongY then points[k].y + sy else points[k].y)
    && errors[k + 1] == errors[k] + (if alongX then dy else 0) + (if alongY then dx else 0)
    && points[k] != points[|points| - 1]
    && dx >= 0 >= dy && RoundFits(dx, 0 - dy, errors[k])
  }

  predicate IsTrace(points: seq<Point>, errors: seq<int>, dx: int, dy: int, sx: int, sy: int) {
    && |errors| == |points| > 0
    && forall k | 0 <= k < |points| - 1 :: Follows(points, errors, dx, dy, sx, sy, k)
  }

  lemma LineIsTrace(x0: int, y0: int, x1: int, y1: int, errors: seq<int>)
    requires InRange(x0, y0, x1, y1)
    requires |errors| == Length(x0, y0, x1, y1) + 1
    requires forall k | 0 <= k < |errors| :: errors[k] == ErrorAt(x0, y0, x1, y1, k)
    ensures var points := LinePoints(x0, y0, x1, y1);
            && IsTrace(points, errors, Abs(x1 - x0), 0 - Abs(y1 - y0), Sign(x0, x1), Sign(y0, y1))
            && points[0] == Point(x0, y0) && points[|points| - 1] == Point(x1, y1)
    ensures errors[0] == Abs(x1 - x0) - Abs(y1 - y0)
  {
    var points := LinePoints(x0, y0, x1, y1);
    var dx, dy: int, sx, sy := Abs(x1 - x0), 0 - Abs(y1 - y0), Sign(x0, x1), Sign(y0, y1);
    forall k | 0 <= k < |points| - 1
      ensures Follows(points, errors, dx, dy, sx, sy, k)
    {
      Round(x0, y0, x1, y1, k);
      NotThereYet(x0, y0, x1, y1, k);
      NotThereYet(x0, y0, x1, y1, |points| - 1);
      assert RoundFits(dx, 0 - dy, errors[k]);
    }
    LineShape(x0, y0, x1, y1, 0);
    ErrorStart(x0, y0, x1, y1);
  }
}
