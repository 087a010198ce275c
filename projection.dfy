/** The colour-aligned lookup: the branch compiled when MAP_TO_COLOR is
    defined. A grid of points holding each colour pixel's own position is laid
    down, a calibrated projection (outside this model) overwrites every point
    with a position in the depth image, and each colour pixel then takes the
    filtered depth sample found there, or the sentinel. */
module Projection {
  import opened Grid
  import opened DepthFilter

  /** A pixel position. The source keeps it as a pair of floats; here both
      coordinates are already whole numbers. */
  datatype Point = Point(x: int, y: int)

  /** Pixel k of a row-major grid `width` pixels wide, as (column, row). */
  function GridPoint(k: nat, width: nat): (p: Point)
    requires width > 0
    ensures 0 <= p.x < width && 0 <= p.y
    ensures p.y * width + p.x == k
  {
    Point(k % width, k / width)
  }

  /** In the initial grid, the point at index i * width + j is (j, i). */
  lemma GridPointRowMajor(i: nat, j: nat, width: nat, height: nat)
    requires i < height && j < width
    ensures i * width + j < width * height
    ensures GridPoint(i * width + j, width) == Point(j, i)
  {
    RowMajorInside(i, j, width, height);
    RowMajorSplit(i, j, width);
  }

  /** The grid handed to the projection: one point per colour pixel, each
      holding its own column and row. */
  method InitGrid(width: nat, height: nat) returns (posd: array<Point>)
    ensures fresh(posd)
    ensures posd.Length == width * height
    ensures forall k :: 0 <= k < posd.Length ==> width > 0 && posd[k] == GridPoint(k, width)
  {
    var n := width * height;
    posd := new Point[n](_ => Point(0, 0));
    var i, idx := 0, 0;
    while i < height
      invariant 0 <= i <= height
      invariant idx == i * width && idx <= n
      invariant idx > 0 ==> width > 0
      invariant forall k :: 0 <= k < idx ==> posd[k] == GridPoint(k, width)
    {
      var j := 0;
      while j < width
        invariant 0 <= j <= width
        invariant idx == i * width + j && idx <= n
        invariant idx > 0 ==> width > 0
        invariant forall k :: 0 <= k < idx ==> posd[k] == GridPoint(k, width)
      {
        GridPointRowMajor(i, j, width, height);
        posd[idx] := Point(j, i);
        assert posd[idx] == GridPoint(idx, width);
        j, idx := j + 1, idx + 1;
      }
      NextRow(i, width);
      i := i + 1;
      RowsInside(i, width, height);
    }
  }

  /** The bounds test the source applies to a mapped point before reading the
      depth buffer: columns against the colour width, rows against the colour
      height less one. */
  predicate ColorGuard(p: Point, colorW: int, colorH: int) {
    !(p.x < 0 || p.y < 0 || p.x >= colorW || p.y >= colorH - 1)
  }

  /** Where a mapped point is read in the row-major depth buffer. */
  function DepthIndex(p: Point, depthW: nat): int {
    p.y * depthW + p.x
  }

  /** Every point that passes the colour bounds test reads one of the first
      n depth samples. */
  predicate ReadsInside(posd: seq<Point>, n: nat, colorW: int, colorH: int, depthW: nat) {
    forall k :: 0 <= k < |posd| && ColorGuard(posd[k], colorW, colorH) ==> DepthIndex(posd[k], depthW) < n
  }

  /** The cell one mapped point yields, as the source computes it. */
  function LookedUp(p: Point, src: seq<int16>, colorW: int, colorH: int, depthW: nat): (r: int)
    requires ColorGuard(p, colorW, colorH) ==> DepthIndex(p, depthW) < |src|
    ensures IsCell(r)
    ensures !ColorGuard(p, colorW, colorH) ==> r == Sentinel
    ensures ColorGuard(p, colorW, colorH) && InRange(src[DepthIndex(p, depthW)] as int) ==>
              r == src[DepthIndex(p, depthW)] as int
    ensures ColorGuard(p, colorW, colorH) && !InRange(src[DepthIndex(p, depthW)] as int) ==>
              r == Sentinel
  {
    RangeFilter(if ColorGuard(p, colorW, colorH) then src[DepthIndex(p, depthW)] as int else Sentinel)
  }

  /** The body of the as-written lookup loop for one colour pixel: the
      colour bounds test, the read, then the range test. */
  method LookUpPixel(p: Point, src: seq<int16>, colorW: nat, colorH: nat, depthW: nat)
      returns (depth: int)
    requires ColorGuard(p, colorW, colorH) ==> DepthIndex(p, depthW) < |src|
    ensures depth == LookedUp(p, src, colorW, colorH, depthW)
  {
    var x, y := p.x, p.y;
    if x < 0 || y < 0 || x >= colorW || y >= colorH - 1 {
      depth := Sentinel;
    } else {
      var didx := y * depthW + x;
      depth := src[didx] as int;
    }
    if depth < MinDistance || depth > MaxDistance {
      depth := Sentinel;
    }
  }

  /** The lookup loop as written: one cell per colour pixel, in row-major
      order. Its bounds test uses the colour dimensions while it indexes the
      depth buffer, so it is safe only when every point that passes the test
      lands inside the depth buffer; that is its precondition here. */
  method ProjectDepth(posd: array<Point>, src: seq<int16>, colorW: nat, colorH: nat, depthW: nat)
      returns (img: array<int>)
    requires posd.Length == colorW * colorH
    requires ReadsInside(posd[..], |src|, colorW, colorH, depthW)
    ensures fresh(img)
    ensures img.Length == posd.Length
    ensures forall k :: 0 <= k < img.Length ==> img[k] == LookedUp(posd[k], src, colorW, colorH, depthW)
    ensures forall k :: 0 <= k < img.Length ==> IsCell(img[k])
  {
    var n := colorW * colorH;
    img := new int[n](_ => Sentinel);
    ghost var points := posd[..];
    var i, idx := 0, 0;
    while i < colorH
      invariant 0 <= i <= colorH
      invariant idx == i * colorW && idx <= n
      invariant forall k :: 0 <= k < idx ==> img[k] == LookedUp(points[k], src, colorW, colorH, depthW)
      invariant forall k :: idx <= k < n ==> img[k] == Sentinel
    {
      var j := 0;
      while j < colorW
        invariant 0 <= j <= colorW
        invariant idx == i * colorW + j && idx <= n
        invariant forall k :: 0 <= k < idx ==> img[k] == LookedUp(points[k], src, colorW, colorH, depthW)
        invariant forall k :: idx <= k < n ==> img[k] == Sentinel
      {
        RowMajorInside(i, j, colorW, colorH);
        assert points[idx] == posd[idx];
        var depth := LookUpPixel(posd[idx], src, colorW, colorH, depthW);
        img[idx] := depth;
        j, idx := j + 1, idx + 1;
      }
      NextRow(i, colorW);
      i := i + 1;
      RowsInside(i, colorW, colorH);
    }
  }

  /** The as-written test lets through reads outside the depth buffer
      whenever the colour image is wider and taller than the depth image:
      the last colour column on the last depth row passes the test and reads
      past the end of the depth samples. */
  lemma ColorGuardOverrunsDepthBuffer(colorW: nat, colorH: nat, depthW: nat, depthH: nat)
    requires depthW < colorW && 0 < depthH < colorH
    ensures ColorGuard(Point(colorW - 1, depthH - 1), colorW, colorH)
    ensures DepthIndex(Point(colorW - 1, depthH - 1), depthW) >= depthW * depthH
  {
    assert DepthIndex(Point(colorW - 1, depthH - 1), depthW) == (depthH - 1) * depthW + (colorW - 1);
    assert (depthH - 1) * depthW + depthW == depthH * depthW;
  }

  /** The evidently intended bounds test: against the dimensions of the depth
      buffer that is read, still excluding its last row. */
  predicate DepthGuard(p: Point, depthW: int, depthH: int) {
    !(p.x < 0 || p.y < 0 || p.x >= depthW || p.y >= depthH - 1)
  }

  /** Every point that passes the depth bounds test reads inside the depth
      buffer, whatever the projection produced. */
  lemma DepthGuardReadsInside(p: Point, depthW: nat, depthH: nat)
    requires DepthGuard(p, depthW, depthH)
    ensures 0 <= DepthIndex(p, depthW) < depthW * depthH
  {
    RowMajorInside(p.y, p.x, depthW, depthH);
  }

  /** The cell one mapped point yields under the corrected bounds test. */
  function LookedUpChecked(p: Point, src: seq<int16>, depthW: nat, depthH: nat): (r: int)
    requires depthW * depthH <= |src|
    ensures IsCell(r)
    ensures !DepthGuard(p, depthW, depthH) ==> r == Sentinel
    ensures DepthGuard(p, depthW, depthH) ==>
              0 <= DepthIndex(p, depthW) < depthW * depthH &&
              r == RangeFilter(src[DepthIndex(p, depthW)] as int)
  {
    if DepthGuard(p, depthW, depthH) then
      DepthGuardReadsInside(p, depthW, depthH);
      RangeFilter(src[DepthIndex(p, depthW)] as int)
    else
      RangeFilter(Sentinel)
  }

  /** On matching colour and depth grids the corrected lookup is the
      as-written one. */
  lemma LookedUpCheckedAgrees(p: Point, src: seq<int16>, width: nat, height: nat)
    requires width * height <= |src|
    ensures ColorGuard(p, width, height) ==> DepthIndex(p, width) < |src|
    ensures LookedUpChecked(p, src, width, height) == LookedUp(p, src, width, height, width)
  {
    if ColorGuard(p, width, height) {
      DepthGuardReadsInside(p, width, height);
    }
  }

  /** The body of the corrected lookup loop for one colour pixel. */
  method LookUpPixelChecked(p: Point, src: seq<int16>, depthW: nat, depthH: nat)
      returns (depth: int)
    requires depthW * depthH <= |src|
    ensures depth == LookedUpChecked(p, src, depthW, depthH)
  {
    var x, y := p.x, p.y;
    if x < 0 || y < 0 || x >= depthW || y >= depthH - 1 {
      depth := Sentinel;
    } else {
      DepthGuardReadsInside(p, depthW, depthH);
      var didx := y * depthW + x;
      depth := src[didx] as int;
    }
    if depth < MinDistance || depth > MaxDistance {
      depth := Sentinel;
    }
  }

  /** The lookup loop with the corrected bounds test: one cell per colour
      pixel, in row-major order, and no read outside the depth buffer for any
      mapped points. */
  method ProjectDepthChecked(posd: array<Point>, src: seq<int16>, colorW: nat, colorH: nat,
                             depthW: nat, depthH: nat)
      returns (img: array<int>)
    requires posd.Length == colorW * colorH
    requires depthW * depthH <= |src|
    ensures fresh(img)
    ensures img.Length == posd.Length
    ensures forall k :: 0 <= k < img.Length ==> img[k] == LookedUpChecked(posd[k], src, depthW, depthH)
    ensures forall k :: 0 <= k < img.Length ==> IsCell(img[k])
  {
    var n := colorW * colorH;
    img := new int[n](_ => Sentinel);
    ghost var points := posd[..];
    var i, idx := 0, 0;
    while i < colorH
      invariant 0 <= i <= colorH
      invariant idx == i * colorW && idx <= n
      invariant forall k :: 0 <= k < idx ==> img[k] == LookedUpChecked(points[k], src, depthW, depthH)
      invariant forall k :: idx <= k < n ==> img[k] == Sentinel
    {
      var j := 0;
      while j < colorW
        invariant 0 <= j <= colorW
        invariant idx == i * colorW + j && idx <= n
        invariant forall k :: 0 <= k < idx ==> img[k] == LookedUpChecked(points[k], src, depthW, depthH)
        invariant forall k :: idx <= k < n ==> img[k] == Sentinel
      {
        RowMajorInside(i, j, colorW, colorH);
        assert points[idx] == posd[idx];
        var depth := LookUpPixelChecked(posd[idx], src, depthW, depthH);
        img[idx] := depth;
        j, idx := j + 1, idx + 1;
      }
      NextRow(i, colorW);
      i := i + 1;
      RowsInside(i, colorW, colorH);
    }
  }
}
