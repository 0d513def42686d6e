/** The disk-mask mean brightness of one well (`CircleIntensity`).

    The well is the closed disk of integer radius `r` around an integer centre;
    the function scans the square box `[cx-r-2, cx+r+2) x [cy-r-2, cy+r+2)`,
    skips coordinates outside the image, keeps the pixels whose distance to the
    centre is at most `r`, and returns the mean of `pixel / 255` over the kept
    pixels, or 0 when none is kept. The image is indexed `image[x, y]` with `x`
    checked against the first dimension. */
module Intensity {

  /** An 8-bit grey level of a single-channel image. */
  type Byte = b: int | 0 <= b < 256

  datatype Point = Point(x: int, y: int)

  /** A circle with integer centre and radius, as both call sites pass it. */
  datatype Disk = Disk(cx: int, cy: int, r: int)

  /** The half-open coordinate ranges `range(xLo, xHi)` and `range(yLo, yHi)`. */
  datatype Box = Box(xLo: int, xHi: int, yLo: int, yHi: int)
  {
    predicate Contains(x: int, y: int) { xLo <= x < xHi && yLo <= y < yHi }
  }

  /** The bounds check of the scan, for an image with `h` rows (first index) and `w` columns. */
  predicate InImage(h: int, w: int, x: int, y: int)
  {
    x <= h - 1 && y <= w - 1 && x >= 0 && y >= 0
  }

  /** Euclidean distance from (x, y) to the centre is at most the radius.
      For integers, sqrt(d2) <= r holds exactly when r >= 0 and d2 <= r * r
      (lemma SqrtTestIsIntegerTest). */
  predicate InDisk(d: Disk, x: int, y: int)
  {
    0 <= d.r && (d.cx - x) * (d.cx - x) + (d.cy - y) * (d.cy - y) <= d.r * d.r
  }

  /** A pixel that contributes to the mean. */
  predicate Counted(h: int, w: int, d: Disk, x: int, y: int)
  {
    InImage(h, w, x, y) && InDisk(d, x, y)
  }

  /** The scan box the source builds around a circle: a 2-pixel pad on each side,
      upper bounds exclusive as in `range`. */
  function ScanBox(d: Disk): Box
  {
    Box(d.cx - d.r - 2, d.cx + d.r + 2, d.cy - d.r - 2, d.cy + d.r + 2)
  }

  /** Counted pixels of column `x` for `y` in `[yLo, yHi)`, in scan order. */
  function RowPoints(h: int, w: int, d: Disk, x: int, yLo: int, yHi: int): seq<Point>
    decreases yHi - yLo
  {
    if yHi <= yLo then []
    else RowPoints(h, w, d, x, yLo, yHi - 1)
         + (if Counted(h, w, d, x, yHi - 1) then [Point(x, yHi - 1)] else [])
  }

  /** Counted pixels of a box in scan order: `x` outer, `y` inner. */
  function ScanPoints(h: int, w: int, d: Disk, b: Box): seq<Point>
    decreases b.xHi - b.xLo
  {
    if b.xHi <= b.xLo then []
    else ScanPoints(h, w, d, b.(xHi := b.xHi - 1)) + RowPoints(h, w, d, b.xHi - 1, b.yLo, b.yHi)
  }

  /** The pixels `CircleIntensity` averages over. */
  function MaskPoints(h: int, w: int, d: Disk): seq<Point>
  {
    ScanPoints(h, w, d, ScanBox(d))
  }

  predicate AllInImage(img: array2<Byte>, pts: seq<Point>)
  {
    forall p <- pts :: InImage(img.Length0, img.Length1, p.x, p.y)
  }

  /** The accumulated `pixel / 255` over a sequence of pixels. */
  function Brightness(img: array2<Byte>, pts: seq<Point>): real
    requires AllInImage(img, pts)
    reads img
  {
    if pts == [] then 0.0
    else
      var p := pts[|pts| - 1];
      Brightness(img, pts[..|pts| - 1]) + img[p.x, p.y] as real / 255.0
  }

  /** `brightness / npixels`, with the pixel count forced to 1 when it is 0. */
  function MeanIntensity(img: array2<Byte>, pts: seq<Point>): real
    requires AllInImage(img, pts)
    reads img
  {
    if |pts| == 0 then Brightness(img, pts) / 1.0 else Brightness(img, pts) / |pts| as real
  }

  // ---------------------------------------------------------------------------
  // Structure of the scan

  lemma {:induction false} RowPointsMembership(h: int, w: int, d: Disk, x: int, yLo: int, yHi: int, p: Point)
    ensures p in RowPoints(h, w, d, x, yLo, yHi) <==> p.x == x && yLo <= p.y < yHi && Counted(h, w, d, p.x, p.y)
    decreases yHi - yLo
  {
    if yLo < yHi {
      RowPointsMembership(h, w, d, x, yLo, yHi - 1, p);
    }
  }

  /** A pixel is scanned and kept exactly when it lies in the box, in the image and in the disk. */
  lemma {:induction false} ScanPointsMembership(h: int, w: int, d: Disk, b: Box, p: Point)
    ensures p in ScanPoints(h, w, d, b) <==> b.Contains(p.x, p.y) && Counted(h, w, d, p.x, p.y)
    decreases b.xHi - b.xLo
  {
    if b.xLo < b.xHi {
      ScanPointsMembership(h, w, d, b.(xHi := b.xHi - 1), p);
      RowPointsMembership(h, w, d, b.xHi - 1, b.yLo, b.yHi, p);
    }
  }

  predicate LexLess(p: Point, q: Point)
  {
    p.x < q.x || (p.x == q.x && p.y < q.y)
  }

  predicate StrictlyOrdered(s: seq<Point>)
  {
    forall i, j :: 0 <= i < j < |s| ==> LexLess(s[i], s[j])
  }

  lemma ConcatOrdered(a: seq<Point>, b: seq<Point>)
    requires StrictlyOrdered(a) && StrictlyOrdered(b)
    requires forall p, q :: p in a && q in b ==> LexLess(p, q)
    ensures StrictlyOrdered(a + b)
  {
    var c := a + b;
    forall i, j | 0 <= i < j < |c| ensures LexLess(c[i], c[j]) {
      if j < |a| {
        assert c[i] == a[i] && c[j] == a[j];
      } else if i >= |a| {
        assert c[i] == b[i - |a|] && c[j] == b[j - |a|];
      } else {
        assert c[i] == a[i] && c[j] == b[j - |a|];
      }
    }
  }

  lemma {:induction false} RowPointsOrdered(h: int, w: int, d: Disk, x: int, yLo: int, yHi: int)
    ensures StrictlyOrdered(RowPoints(h, w, d, x, yLo, yHi))
    decreases yHi - yLo
  {
    if yLo < yHi {
      var front := RowPoints(h, w, d, x, yLo, yHi - 1);
      RowPointsOrdered(h, w, d, x, yLo, yHi - 1);
      forall p | p in front ensures LexLess(p, Point(x, yHi - 1)) {
        RowPointsMembership(h, w, d, x, yLo, yHi - 1, p);
      }
      ConcatOrdered(front, if Counted(h, w, d, x, yHi - 1) then [Point(x, yHi - 1)] else []);
    }
  }

  lemma {:induction false} ScanPointsOrdered(h: int, w: int, d: Disk, b: Box)
    ensures StrictlyOrdered(ScanPoints(h, w, d, b))
    decreases b.xHi - b.xLo
  {
    if b.xLo < b.xHi {
      var front := ScanPoints(h, w, d, b.(xHi := b.xHi - 1));
      var row := RowPoints(h, w, d, b.xHi - 1, b.yLo, b.yHi);
      ScanPointsOrdered(h, w, d, b.(xHi := b.xHi - 1));
      RowPointsOrdered(h, w, d, b.xHi - 1, b.yLo, b.yHi);
      forall p, q | p in front && q in row ensures LexLess(p, q) {
        ScanPointsMembership(h, w, d, b.(xHi := b.xHi - 1), p);
        RowPointsMembership(h, w, d, b.xHi - 1, b.yLo, b.yHi, q);
      }
      ConcatOrdered(front, row);
    }
  }

  lemma SquareLess(a: int, b: int)
    requires 0 <= a < b
    ensures a * a < b * b
  {
    calc {
      a * a;
    <= a * b;
    <  b * b;
    }
  }

  lemma SquareNonNegative(a: int)
    ensures 0 <= a * a
  {
    if a < 0 { assert a * a == (-a) * (-a); }
  }

  lemma SquareBound(a: int, r: int)
    requires 0 <= r && a * a <= r * r
    ensures -r <= a <= r
  {
    if a > r {
      SquareLess(r, a);
    } else if -a > r {
      SquareLess(r, -a);
    }
  }

  /** Every pixel of the closed disk lies inside the padded scan box. */
  lemma DiskInsideScanBox(d: Disk, x: int, y: int)
    requires InDisk(d, x, y)
    ensures ScanBox(d).Contains(x, y)
  {
    var dx, dy := d.cx - x, d.cy - y;
    SquareNonNegative(dx);
    SquareNonNegative(dy);
    SquareBound(dx, d.r);
    SquareBound(dy, d.r);
  }

  /** The pixels averaged are exactly the in-image pixels of the closed disk, each
      taken once: the result is the mean over the whole disk mask, not over a
      truncated or padded one. */
  lemma MaskIsClippedDisk(h: int, w: int, d: Disk)
    ensures forall p :: p in MaskPoints(h, w, d) <==> Counted(h, w, d, p.x, p.y)
    ensures forall i, j :: 0 <= i < j < |MaskPoints(h, w, d)| ==> MaskPoints(h, w, d)[i] != MaskPoints(h, w, d)[j]
  {
    forall p ensures p in MaskPoints(h, w, d) <==> Counted(h, w, d, p.x, p.y) {
      ScanPointsMembership(h, w, d, ScanBox(d), p);
      if Counted(h, w, d, p.x, p.y) { DiskInsideScanBox(d, p.x, p.y); }
    }
    ScanPointsOrdered(h, w, d, ScanBox(d));
  }

  /** The membership test is inclusive: every in-image pixel at distance exactly `r`
      from the centre is averaged. */
  lemma BoundaryPixelCounted(h: int, w: int, d: Disk, x: int, y: int)
    requires 0 <= d.r
    requires InImage(h, w, x, y)
    requires (d.cx - x) * (d.cx - x) + (d.cy - y) * (d.cy - y) == d.r * d.r
    ensures Point(x, y) in MaskPoints(h, w, d)
  {
    MaskIsClippedDisk(h, w, d);
  }

  /** The square-root test of the source and the integer test agree: for a
      non-negative `s` with `s * s == d2`, `s <= r` exactly when `r >= 0` and `d2 <= r * r`. */
  lemma SqrtTestIsIntegerTest(d2: int, s: real, r: int)
    requires 0.0 <= s && s * s == d2 as real
    ensures s <= r as real <==> 0 <= r && d2 <= r * r
  {
    var rr := r as real;
    assert (r * r) as real == rr * rr;
    if s <= rr {
      assert s * s <= rr * s by { assert 0.0 <= s; }
      assert rr * s <= rr * rr by { assert 0.0 <= rr; }
    } else if 0 <= r {
      calc {
        (r * r) as real;
      ==
        rr * rr;
      <= { assert 0.0 <= rr; }
        rr * s;
      < { assert 0.0 < s; }
        s * s;
      ==
        d2 as real;
      }
    }
  }

  // ---------------------------------------------------------------------------
  // Properties of the mean

  lemma {:induction false} BrightnessBounds(img: array2<Byte>, pts: seq<Point>)
    requires AllInImage(img, pts)
    ensures 0.0 <= Brightness(img, pts) <= |pts| as real
  {
    if pts != [] {
      BrightnessBounds(img, pts[..|pts| - 1]);
    }
  }

  /** Every well intensity lies in [0, 1]. */
  lemma MeanInUnitInterval(img: array2<Byte>, pts: seq<Point>)
    requires AllInImage(img, pts)
    ensures 0.0 <= MeanIntensity(img, pts) <= 1.0
  {
    BrightnessBounds(img, pts);
    if |pts| > 0 {
      var n := |pts| as real;
      var s := Brightness(img, pts);
      assert s / n <= 1.0 by {
        assert s <= n;
      }
    }
  }

  /** Over pixels that all have grey level `v`, the accumulated brightness is
      `count * v / 255`. */
  lemma {:induction false} UniformBrightness(img: array2<Byte>, pts: seq<Point>, v: Byte)
    requires AllInImage(img, pts)
    requires forall p <- pts :: img[p.x, p.y] == v
    ensures Brightness(img, pts) == |pts| as real * (v as real / 255.0)
  {
    if pts != [] {
      UniformBrightness(img, pts[..|pts| - 1], v);
    }
  }

  lemma UniformMean(img: array2<Byte>, pts: seq<Point>, v: Byte)
    requires AllInImage(img, pts) && |pts| > 0
    requires forall p <- pts :: img[p.x, p.y] == v
    ensures MeanIntensity(img, pts) == v as real / 255.0
  {
    UniformBrightness(img, pts, v);
    var n, c := |pts| as real, v as real / 255.0;
    assert n * c / n == c;
  }

  /** On an image of constant grey level `v` the intensity is `v / 255` whenever at
      least one pixel is averaged, wherever the circle lies. */
  lemma UniformImageMean(img: array2<Byte>, d: Disk, v: Byte)
    requires forall x, y :: 0 <= x < img.Length0 && 0 <= y < img.Length1 ==> img[x, y] == v
    requires |MaskPoints(img.Length0, img.Length1, d)| > 0
    ensures AllInImage(img, MaskPoints(img.Length0, img.Length1, d))
    ensures MeanIntensity(img, MaskPoints(img.Length0, img.Length1, d)) == v as real / 255.0
  {
    var pts := MaskPoints(img.Length0, img.Length1, d);
    MaskIsClippedDisk(img.Length0, img.Length1, d);
    forall p | p in pts ensures img[p.x, p.y] == v {
      assert Counted(img.Length0, img.Length1, d, p.x, p.y);
    }
    UniformMean(img, pts, v);
  }

  /** A circle with no in-image pixel in its disk (for instance one wholly outside
      the image) has intensity exactly 0; there is no division by zero. */
  lemma NoPixelGivesZero(img: array2<Byte>, d: Disk)
    requires forall x, y :: InImage(img.Length0, img.Length1, x, y) ==> !InDisk(d, x, y)
    ensures AllInImage(img, MaskPoints(img.Length0, img.Length1, d))
    ensures MeanIntensity(img, MaskPoints(img.Length0, img.Length1, d)) == 0.0
  {
    var pts := MaskPoints(img.Length0, img.Length1, d);
    MaskIsClippedDisk(img.Length0, img.Length1, d);
  }

  // ---------------------------------------------------------------------------
  // The operation

  lemma RowStep(h: int, w: int, d: Disk, x: int, yLo: int, y: int)
    requires yLo <= y
    ensures RowPoints(h, w, d, x, yLo, y + 1)
         == RowPoints(h, w, d, x, yLo, y) + (if Counted(h, w, d, x, y) then [Point(x, y)] else [])
  {
  }

  lemma ScanStep(h: int, w: int, d: Disk, b: Box, x: int)
    requires b.xLo <= x
    ensures ScanPoints(h, w, d, b.(xHi := x + 1)) == ScanPoints(h, w, d, b.(xHi := x)) + RowPoints(h, w, d, x, b.yLo, b.yHi)
  {
    assert b.(xHi := x + 1).(xHi := x) == b.(xHi := x);
  }

  lemma BrightnessStep(img: array2<Byte>, pts: seq<Point>, p: Point)
    requires AllInImage(img, pts) && InImage(img.Length0, img.Length1, p.x, p.y)
    ensures AllInImage(img, pts + [p])
    ensures Brightness(img, pts + [p]) == Brightness(img, pts) + img[p.x, p.y] as real / 255.0
  {
    assert (pts + [p])[..|pts|] == pts;
  }

  /** Mean normalised brightness of the pixels of `image` inside the closed disk of
      `radius` around (`centerx`, `centery`). */
  method CircleIntensity(centerx: int, centery: int, radius: int, image: array2<Byte>) returns (intensity: real)
    ensures AllInImage(image, MaskPoints(image.Length0, image.Length1, Disk(centerx, centery, radius)))
    ensures intensity == MeanIntensity(image, MaskPoints(image.Length0, image.Length1, Disk(centerx, centery, radius)))
    ensures 0.0 <= intensity <= 1.0
  {
    var circle := Disk(centerx, centery, radius);
    ghost var h, w := image.Length0, image.Length1;
    ghost var box := ScanBox(circle);
    ghost var kept: seq<Point> := [];
    var npixels := 0;
    var brightness := 0.0;
    var x := centerx - radius - 2;
    while x < centerx + radius + 2
      invariant box.xLo <= x && (x <= box.xHi || x == box.xLo)
      invariant kept == ScanPoints(h, w, circle, box.(xHi := x))
      invariant AllInImage(image, kept)
      invariant brightness == Brightness(image, kept)
      invariant npixels == |kept|
      decreases centerx + radius + 2 - x
    {
      var y := centery - radius - 2;
      while y < centery + radius + 2
        invariant box.yLo <= y && (y <= box.yHi || y == box.yLo)
        invariant kept == ScanPoints(h, w, circle, box.(xHi := x)) + RowPoints(h, w, circle, x, box.yLo, y)
        invariant AllInImage(image, kept)
        invariant brightness == Brightness(image, kept)
        invariant npixels == |kept|
        decreases centery + radius + 2 - y
      {
        ghost var done := ScanPoints(h, w, circle, box.(xHi := x));
        ghost var row := RowPoints(h, w, circle, x, box.yLo, y);
        RowStep(h, w, circle, x, box.yLo, y);
        if InImage(image.Length0, image.Length1, x, y) {
          if InDisk(circle, x, y) {
            brightness := brightness + image[x, y] as real / 255.0;
            npixels := npixels + 1;
            BrightnessStep(image, kept, Point(x, y));
            kept := kept + [Point(x, y)];
            assert kept == done + (row + [Point(x, y)]);
          }
        }
        y := y + 1;
      }
      assert RowPoints(h, w, circle, x, box.yLo, y) == RowPoints(h, w, circle, x, box.yLo, box.yHi);
      ScanStep(h, w, circle, box, x);
      x := x + 1;
    }
    assert kept == MaskPoints(h, w, circle);
    if npixels == 0 {
      npixels := 1;
    }
    intensity := brightness / npixels as real;
    MeanInUnitInterval(image, kept);
  }
}
