/** The grid fitter: an idealised square lattice of wells anchored at the smallest
    detected x and the smallest detected y, with fixed spacing and a fixed radius. */
module GridFit {
  import opened Outcome

  /** A circle as the detector reports it; its float coordinates are taken as reals. */
  datatype Circle = Circle(x: real, y: real, radius: real)

  /** A fitted well `[int(x), int(y), 6]`. */
  datatype FittedCircle = FittedCircle(x: int, y: int, radius: int)

  /** Wells per side of a panel. */
  const ArraySize: nat := 30
  /** Horizontal and vertical well spacing in pixels. */
  const XDist: real := 24.5
  const YDist: real := 24.5
  /** Radius given to every fitted well. */
  const FittedRadius: int := 6

  /** Python's `int()` on a float: truncation toward zero. */
  function Trunc(v: real): (t: int)
    ensures 0.0 <= v ==> t as real <= v < t as real + 1.0
    ensures v < 0.0 ==> t as real - 1.0 < v <= t as real
  {
    if v >= 0.0 then v.Floor else -((-v).Floor)
  }

  lemma TruncMonotone(a: real, b: real)
    requires a <= b
    ensures Trunc(a) <= Trunc(b)
  {
  }

  /** Python's `min` of a non-empty list. */
  function Min(s: seq<real>): (m: real)
    requires |s| > 0
    ensures m in s
    ensures forall v <- s :: m <= v
  {
    if |s| == 1 then s[0]
    else
      var rest := Min(s[1..]);
      assert forall v <- s :: v == s[0] || v in s[1..];
      if s[0] <= rest then s[0] else rest
  }

  function Xs(cs: seq<Circle>): (xs: seq<real>)
  {
    seq(|cs|, i requires 0 <= i < |cs| => cs[i].x)
  }

  function Ys(cs: seq<Circle>): (ys: seq<real>)
  {
    seq(|cs|, i requires 0 <= i < |cs| => cs[i].y)
  }

  /** Origin and spacing of a fitted lattice. */
  datatype Lattice = Lattice(xmin: real, ymin: real, xdist: real, ydist: real)

  /** The lattice anchored at the bottom-left extremity of the detected circles. */
  function AnchorLattice(detected: seq<Circle>, xdist: real, ydist: real): Lattice
    requires |detected| > 0
  {
    Lattice(Min(Xs(detected)), Min(Ys(detected)), xdist, ydist)
  }

  /** The well in column `xcount` and row `ycount`. */
  function Entry(l: Lattice, xcount: nat, ycount: nat): FittedCircle
  {
    FittedCircle(Trunc(l.xmin + l.xdist * xcount as real), Trunc(l.ymin + l.ydist * ycount as real), FittedRadius)
  }

  /** The first `rows` wells of column `xcount`, in the order they are appended. */
  function Column(l: Lattice, xcount: nat, rows: nat): seq<FittedCircle>
  {
    if rows == 0 then [] else Column(l, xcount, rows - 1) + [Entry(l, xcount, rows - 1)]
  }

  /** The first `cols` columns of `size` wells each: column-major order. */
  function Grid(l: Lattice, size: nat, cols: nat): seq<FittedCircle>
  {
    if cols == 0 then [] else Grid(l, size, cols - 1) + Column(l, cols - 1, size)
  }

  // ---------------------------------------------------------------------------
  // Shape of the lattice

  lemma {:induction false} ColumnAt(l: Lattice, xcount: nat, rows: nat, j: nat)
    requires j < rows
    ensures |Column(l, xcount, rows)| == rows
    ensures Column(l, xcount, rows)[j] == Entry(l, xcount, j)
  {
    if j < rows - 1 {
      ColumnAt(l, xcount, rows - 1, j);
    } else if rows > 1 {
      ColumnAt(l, xcount, rows - 1, 0);
    }
  }

  lemma {:induction false} GridLength(l: Lattice, size: nat, cols: nat)
    ensures |Grid(l, size, cols)| == cols * size
  {
    if cols > 0 {
      GridLength(l, size, cols - 1);
      if size > 0 { ColumnAt(l, cols - 1, size, 0); }
    }
  }

  lemma MulMonotone(a: nat, b: nat, c: nat)
    requires a <= b
    ensures a * c <= b * c
  {
  }

  /** The well of column `i` and row `j` sits at index `i * size + j`. */
  lemma {:induction false} GridAt(l: Lattice, size: nat, cols: nat, i: nat, j: nat)
    requires i < cols && j < size
    ensures |Grid(l, size, cols)| == cols * size
    ensures Grid(l, size, cols)[i * size + j] == Entry(l, i, j)
  {
    GridLength(l, size, cols);
    GridLength(l, size, cols - 1);
    var front := Grid(l, size, cols - 1);
    if i < cols - 1 {
      GridAt(l, size, cols - 1, i, j);
      MulMonotone(i + 1, cols - 1, size);
      assert i * size + size == (i + 1) * size;
    } else {
      ColumnAt(l, cols - 1, size, j);
      assert i * size == (cols - 1) * size;
    }
  }

  /** Every index of an `n x n` lattice holds the entry its column and row give:
      exactly `n * n` wells, each of radius 6. */
  lemma GridIndexFormula(l: Lattice, n: nat, k: nat)
    requires k < n * n
    ensures 0 <= k / n < n && 0 <= k % n < n
    ensures |Grid(l, n, n)| == n * n
    ensures Grid(l, n, n)[k] == Entry(l, k / n, k % n)
    ensures Grid(l, n, n)[k].radius == FittedRadius
  {
    var i, j := k / n, k % n;
    assert k == i * n + j;
    assert i < n;
    GridAt(l, n, n, i, j);
  }

  lemma EntryNotBelowAnchor(l: Lattice, i: nat, j: nat)
    requires 0.0 <= l.xdist && 0.0 <= l.ydist
    ensures Trunc(l.xmin) <= Entry(l, i, j).x && Trunc(l.ymin) <= Entry(l, i, j).y
  {
    var dx, dy := l.xdist * i as real, l.ydist * j as real;
    assert 0.0 <= dx && 0.0 <= dy;
    TruncMonotone(l.xmin, l.xmin + dx);
    TruncMonotone(l.ymin, l.ymin + dy);
  }

  /** The first fitted well is anchored at `(int(xmin), int(ymin))`, and with
      non-negative spacing no fitted well lies left of or below it. */
  lemma GridAnchor(l: Lattice, n: nat)
    requires n > 0
    requires 0.0 <= l.xdist && 0.0 <= l.ydist
    ensures Grid(l, n, n)[0] == FittedCircle(Trunc(l.xmin), Trunc(l.ymin), FittedRadius)
    ensures forall c <- Grid(l, n, n) :: Trunc(l.xmin) <= c.x && Trunc(l.ymin) <= c.y
  {
    GridAt(l, n, n, 0, 0);
    forall c | c in Grid(l, n, n) ensures Trunc(l.xmin) <= c.x && Trunc(l.ymin) <= c.y {
      var k :| 0 <= k < |Grid(l, n, n)| && Grid(l, n, n)[k] == c;
      GridIndexFormula(l, n, k);
      var i: nat, j: nat := k / n, k % n;
      assert c == Entry(l, i, j);
      EntryNotBelowAnchor(l, i, j);
    }
  }

  /** With the script's spacing of 24.5 pixels, the last of the 900 wells of a panel
      lies 29 * 24.5 = 710.5 pixels right of and above the anchor, before truncation. */
  lemma DefaultGridExtent(xmin: real, ymin: real)
    ensures |Grid(Lattice(xmin, ymin, XDist, YDist), ArraySize, ArraySize)| == 900
    ensures Grid(Lattice(xmin, ymin, XDist, YDist), ArraySize, ArraySize)[899]
         == FittedCircle(Trunc(xmin + 710.5), Trunc(ymin + 710.5), FittedRadius)
  {
    var l := Lattice(xmin, ymin, XDist, YDist);
    GridAt(l, ArraySize, ArraySize, 29, 29);
    assert 29 * ArraySize + 29 == 899;
  }

  /** The four corners (10,10), (10,40), (40,10), (40,40) anchor the lattice at (10, 10). */
  lemma FourCornersAnchor(detected: seq<Circle>)
    requires detected == [Circle(10.0, 10.0, 5.0), Circle(10.0, 40.0, 5.0),
                          Circle(40.0, 10.0, 5.0), Circle(40.0, 40.0, 5.0)]
    ensures AnchorLattice(detected, 30.0, 30.0) == Lattice(10.0, 10.0, 30.0, 30.0)
  {
    assert Xs(detected) == [10.0, 10.0, 40.0, 40.0];
    assert Ys(detected) == [10.0, 40.0, 10.0, 40.0];
  }

  /** Four detected corner wells of a 2 x 2 array with spacing 30 are fitted back
      onto themselves, column by column. */
  lemma FourCornersRefit()
    ensures var detected := [Circle(10.0, 10.0, 5.0), Circle(10.0, 40.0, 5.0),
                             Circle(40.0, 10.0, 5.0), Circle(40.0, 40.0, 5.0)];
            Grid(AnchorLattice(detected, 30.0, 30.0), 2, 2)
              == [FittedCircle(10, 10, 6), FittedCircle(10, 40, 6), FittedCircle(40, 10, 6), FittedCircle(40, 40, 6)]
  {
    var detected := [Circle(10.0, 10.0, 5.0), Circle(10.0, 40.0, 5.0),
                     Circle(40.0, 10.0, 5.0), Circle(40.0, 40.0, 5.0)];
    FourCornersAnchor(detected);
    var l := Lattice(10.0, 10.0, 30.0, 30.0);
    assert Entry(l, 0, 0) == FittedCircle(10, 10, 6);
    assert Entry(l, 0, 1) == FittedCircle(10, 40, 6);
    assert Entry(l, 1, 0) == FittedCircle(40, 10, 6);
    assert Entry(l, 1, 1) == FittedCircle(40, 40, 6);
    assert Column(l, 0, 2) == [FittedCircle(10, 10, 6), FittedCircle(10, 40, 6)];
    assert Column(l, 1, 2) == [FittedCircle(40, 10, 6), FittedCircle(40, 40, 6)];
    assert Grid(l, 2, 1) == Column(l, 0, 2);
  }

  // ---------------------------------------------------------------------------
  // The operation

  /** Collects the detected x and y values, anchors the lattice at their minima and
      appends `arraySize * arraySize` wells, column by column. An empty detection
      has no minimum and fails. */
  method FitGrid(detected: seq<Circle>, arraySize: nat, xdist: real, ydist: real)
    returns (result: Result<seq<FittedCircle>>)
    ensures detected == [] <==> result == Err(NoCirclesDetected)
    ensures detected != [] ==> result == Ok(Grid(AnchorLattice(detected, xdist, ydist), arraySize, arraySize))
  {
    var xlist: seq<real> := [];
    var ylist: seq<real> := [];
    var circlesfitted: seq<FittedCircle> := [];
    for j := 0 to |detected|
      invariant |xlist| == |ylist| == j
      invariant forall k :: 0 <= k < j ==> xlist[k] == detected[k].x && ylist[k] == detected[k].y
    {
      xlist := xlist + [detected[j].x];
      ylist := ylist + [detected[j].y];
    }
    if |xlist| == 0 {
      return Err(NoCirclesDetected);
    }
    assert xlist == Xs(detected) && ylist == Ys(detected);
    var xmin := Min(xlist);
    var ymin := Min(ylist);
    var lattice := Lattice(xmin, ymin, xdist, ydist);
    for xcount := 0 to arraySize
      invariant circlesfitted == Grid(lattice, arraySize, xcount)
    {
      for ycount := 0 to arraySize
        invariant circlesfitted == Grid(lattice, arraySize, xcount) + Column(lattice, xcount, ycount)
      {
        circlesfitted := circlesfitted + [Entry(lattice, xcount, ycount)];
      }
    }
    return Ok(circlesfitted);
  }
}
