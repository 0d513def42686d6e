/** `CircleIntensity` applied to the detected circles.

    Before they are measured, the detected circles are rounded and converted to
    NumPy `uint16` (`np.uint16(np.around(circles))`), so the centre and radius
    reach `CircleIntensity` as unsigned 16-bit scalars. In the scan bounds,
    `centerx - radius` and `centerx + radius` are then uint16 operations, which
    wrap modulo 65536, and only the following `- 2` / `+ 2` with a Python int
    promotes the value to a signed integer (NumPy 1 scalar promotion; the
    script is Python 2). For a circle whose centre lies closer to the image's
    low edge than its radius, the lower bound wraps to about 65530 and the scan
    range is empty. */
module DetectedScan {
  import opened Intensity

  /** A NumPy `uint16` value. */
  type UInt16 = v: int | 0 <= v < 65536

  /** Unsigned 16-bit wrap-around of an integer result. */
  function WrapU16(v: int): (r: UInt16)
    ensures 0 <= v < 65536 ==> r == v
    ensures -65536 <= v < 0 ==> r == v + 65536
  {
    v % 65536
  }

  /** A detected circle after rounding and conversion to `uint16`. */
  datatype RoundedCircle = RoundedCircle(x: UInt16, y: UInt16, radius: UInt16)

  function AsDisk(c: RoundedCircle): Disk
  {
    Disk(c.x, c.y, c.radius)
  }

  /** The scan ranges as the source computes them from uint16 arguments: the ordinary
      padded ranges unless `centre - radius` wraps, in which case that range is empty. */
  function ScanBoxU16(c: RoundedCircle): (b: Box)
    ensures c.radius <= c.x && c.x + c.radius < 65536 ==> b.xLo == c.x - c.radius - 2 && b.xHi == c.x + c.radius + 2
    ensures c.radius <= c.y && c.y + c.radius < 65536 ==> b.yLo == c.y - c.radius - 2 && b.yHi == c.y + c.radius + 2
    ensures c.x < c.radius <= 32766 ==> b.xHi <= b.xLo
    ensures c.y < c.radius <= 32766 ==> b.yHi <= b.yLo
  {
    Box(WrapU16(c.x - c.radius) - 2, WrapU16(c.x + c.radius) + 2,
        WrapU16(c.y - c.radius) - 2, WrapU16(c.y + c.radius) + 2)
  }

  lemma ScanPointsInImage(h: int, w: int, d: Disk, b: Box)
    ensures forall p <- ScanPoints(h, w, d, b) :: InImage(h, w, p.x, p.y)
  {
    forall p | p in ScanPoints(h, w, d, b) ensures InImage(h, w, p.x, p.y) {
      ScanPointsMembership(h, w, d, b, p);
    }
  }

  /** As written: the intensity reported for a detected circle, with the wrapped scan ranges. */
  function DetectedIntensityAsWritten(img: array2<Byte>, c: RoundedCircle): (v: real)
    reads img
    ensures 0.0 <= v <= 1.0
  {
    ScanPointsInImage(img.Length0, img.Length1, AsDisk(c), ScanBoxU16(c));
    MeanInUnitInterval(img, ScanPoints(img.Length0, img.Length1, AsDisk(c), ScanBoxU16(c)));
    MeanIntensity(img, ScanPoints(img.Length0, img.Length1, AsDisk(c), ScanBoxU16(c)))
  }

  /** Every pixel of the image is at full brightness. */
  predicate AllWhite(img: array2<Byte>)
    reads img
  {
    forall x, y :: 0 <= x < img.Length0 && 0 <= y < img.Length1 ==> img[x, y] == 255
  }

  /** On an all-white image, a circle whose centre is in the image measures 1.0. */
  lemma WhiteImageCentredDisk(img: array2<Byte>, c: RoundedCircle)
    ensures AllInImage(img, MaskPoints(img.Length0, img.Length1, AsDisk(c)))
    ensures c.x < img.Length0 && c.y < img.Length1 && AllWhite(img) ==>
            MeanIntensity(img, MaskPoints(img.Length0, img.Length1, AsDisk(c))) == 1.0
  {
    MaskIsClippedDisk(img.Length0, img.Length1, AsDisk(c));
    if c.x < img.Length0 && c.y < img.Length1 && AllWhite(img) {
      assert Point(c.x, c.y) in MaskPoints(img.Length0, img.Length1, AsDisk(c));
      UniformImageMean(img, AsDisk(c), 255);
    }
  }

  /** Corrected: the same circle measured with ordinary integer arithmetic, i.e. the
      mean over its clipped disk (what `CircleIntensity` computes for Python ints). */
  function DetectedIntensity(img: array2<Byte>, c: RoundedCircle): (v: real)
    reads img
    ensures 0.0 <= v <= 1.0
    ensures c.x < img.Length0 && c.y < img.Length1 && AllWhite(img) ==> v == 1.0
  {
    ScanPointsInImage(img.Length0, img.Length1, AsDisk(c), ScanBox(AsDisk(c)));
    MeanInUnitInterval(img, MaskPoints(img.Length0, img.Length1, AsDisk(c)));
    WhiteImageCentredDisk(img, c);
    MeanIntensity(img, MaskPoints(img.Length0, img.Length1, AsDisk(c)))
  }

  lemma {:induction false} EmptyRowsScanNothing(h: int, w: int, d: Disk, b: Box)
    requires b.yHi <= b.yLo
    ensures ScanPoints(h, w, d, b) == []
    decreases b.xHi - b.xLo
  {
    if b.xLo < b.xHi {
      EmptyRowsScanNothing(h, w, d, b.(xHi := b.xHi - 1));
    }
  }

  /** As written, a detected circle whose centre is closer to the low x or low y
      edge than its radius reads no pixel at all and is reported with intensity 0. */
  lemma EdgeCircleReadsNothing(img: array2<Byte>, c: RoundedCircle)
    requires c.x < c.radius || c.y < c.radius
    requires c.radius <= 32766
    ensures ScanPoints(img.Length0, img.Length1, AsDisk(c), ScanBoxU16(c)) == []
    ensures DetectedIntensityAsWritten(img, c) == 0.0
  {
    var b := ScanBoxU16(c);
    if c.y < c.radius {
      EmptyRowsScanNothing(img.Length0, img.Length1, AsDisk(c), b);
    }
  }

  /** The discrepancy on a concrete input: on an all-white image, the detected circle
      (3, 20, 5) is reported as 0.0 although its in-image disk is white (1.0). */
  lemma EdgeCircleCounterexample(img: array2<Byte>)
    requires img.Length0 >= 10 && img.Length1 >= 30
    requires forall x, y :: 0 <= x < img.Length0 && 0 <= y < img.Length1 ==> img[x, y] == 255
    ensures DetectedIntensityAsWritten(img, RoundedCircle(3, 20, 5)) == 0.0
    ensures DetectedIntensity(img, RoundedCircle(3, 20, 5)) == 1.0
  {
    var c := RoundedCircle(3, 20, 5);
    EdgeCircleReadsNothing(img, c);
    MaskIsClippedDisk(img.Length0, img.Length1, AsDisk(c));
    assert Point(3, 20) in MaskPoints(img.Length0, img.Length1, AsDisk(c));
    UniformImageMean(img, AsDisk(c), 255);
  }

  /** Away from the low edges (and below the uint16 ceiling) the wrapped ranges are
      the ordinary ones, so the as-written and corrected intensities agree. */
  lemma AsWrittenAgreesAwayFromEdges(img: array2<Byte>, c: RoundedCircle)
    requires c.radius <= c.x && c.radius <= c.y
    requires c.x + c.radius < 65536 && c.y + c.radius < 65536
    ensures DetectedIntensityAsWritten(img, c) == DetectedIntensity(img, c)
  {
    assert ScanBoxU16(c) == ScanBox(AsDisk(c));
  }
}
