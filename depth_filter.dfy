/** The range filter over native depth samples: the branch that is compiled
    when MAP_TO_COLOR is undefined. Every sample outside the usable distance
    range is replaced by the sentinel; every other sample is written through
    unchanged, at the same index. */
module DepthFilter {
  import opened Grid

  /** A raw depth sample; the sensor delivers 16-bit signed integers. */
  newtype int16 = x: int | -0x8000 <= x < 0x8000

  /** Marks a cell that holds no usable depth. */
  const Sentinel: int := -1

  /** Inclusive bounds of the usable distance range, in sensor units. */
  const MinDistance: int := 150
  const MaxDistance: int := 2000

  predicate InRange(d: int) {
    MinDistance <= d <= MaxDistance
  }

  /** The only values an output cell may ever hold. */
  predicate IsCell(v: int) {
    v == Sentinel || InRange(v)
  }

  /** One sample through the filter. */
  function RangeFilter(d: int): (r: int)
    ensures IsCell(r)
    ensures InRange(d) ==> r == d
    ensures !InRange(d) ==> r == Sentinel
  {
    if d < MinDistance || d > MaxDistance then Sentinel else d
  }

  /** The filtered frame: one cell per sample, in the same order. */
  function FilteredFrame(s: seq<int16>): (r: seq<int>)
    ensures |r| == |s|
    ensures forall k :: 0 <= k < |s| ==> r[k] == RangeFilter(s[k] as int)
  {
    if s == [] then [] else [RangeFilter(s[0] as int)] + FilteredFrame(s[1..])
  }

  /** A filtered frame holds nothing but sentinels and in-range depths, and a
      cell is the sentinel exactly when its sample is out of range. */
  lemma FilteredFrameCells(s: seq<int16>, k: nat)
    requires k < |s|
    ensures IsCell(FilteredFrame(s)[k])
    ensures FilteredFrame(s)[k] == Sentinel <==> !InRange(s[k] as int)
    ensures FilteredFrame(s)[k] != Sentinel ==> FilteredFrame(s)[k] == s[k] as int
  {
  }

  /** A buffer whose every cell is the filtered sample at its index is the
      filtered frame. */
  lemma FilteredFrameOf(a: seq<int>, s: seq<int16>)
    requires |a| == |s|
    requires forall k :: 0 <= k < |a| ==> a[k] == RangeFilter(s[k] as int)
    ensures a == FilteredFrame(s)
  {
  }

  /** Filtering an already filtered value changes nothing, so a cell that
      was set to the sentinel stays the sentinel. */
  lemma RangeFilterIdempotent(d: int)
    ensures RangeFilter(RangeFilter(d)) == RangeFilter(d)
    ensures RangeFilter(Sentinel) == Sentinel
  {
  }

  /** The loop body for one sample: the sample widened to the output type,
      then replaced by the sentinel when it is out of range. */
  method FilterSample(sample: int16) returns (depth: int)
    ensures depth == RangeFilter(sample as int)
  {
    depth := sample as int;
    if depth < MinDistance || depth > MaxDistance {
      depth := Sentinel;
    }
  }

  /** One row of the native-resolution loop: the cells of row i, which
      still hold the sentinel, get the filtered samples read from position p
      on, and the read position ends one row further on. */
  method FilterRow(src: seq<int16>, img: array<int>, i: nat, width: nat, height: nat, p: nat)
      returns (p': nat)
    modifies img
    requires img.Length == width * height && width * height <= |src|
    requires i < height && p == i * width
    requires forall k :: 0 <= k < p ==> img[k] == RangeFilter(src[k] as int)
    requires forall k :: p <= k < img.Length ==> img[k] == Sentinel
    ensures p' == p + width && p' <= img.Length
    ensures forall k :: 0 <= k < p' ==> img[k] == RangeFilter(src[k] as int)
    ensures forall k :: p' <= k < img.Length ==> img[k] == Sentinel
  {
    var j, idx := 0, p;
    p' := p;
    while j < width
      invariant 0 <= j <= width
      invariant idx == i * width + j && p' == idx && idx <= img.Length
      invariant forall k :: 0 <= k < idx ==> img[k] == RangeFilter(src[k] as int)
      invariant forall k :: idx <= k < img.Length ==> img[k] == Sentinel
    {
      RowMajorInside(i, j, width, height);
      var depth := FilterSample(src[p']);
      img[idx] := depth;
      p' := p' + 1;
      j, idx := j + 1, idx + 1;
    }
  }

  /** The native-resolution loop: a buffer of width * height cells, all
      initialised to the sentinel, filled in row-major order while a read
      position into the samples advances once per sample. The samples are
      the acquired depth plane, which is only read. Every cell the loop has
      not reached yet still holds the sentinel. */
  method FilterDepth(src: seq<int16>, width: nat, height: nat) returns (img: array<int>)
    requires width * height <= |src|
    ensures fresh(img)
    ensures img.Length == width * height
    ensures img[..] == FilteredFrame(src[..width * height])
    ensures forall k :: 0 <= k < img.Length ==> IsCell(img[k])
  {
    var n := width * height;
    img := new int[n](_ => Sentinel);
    var i, p := 0, 0;
    while i < height
      invariant 0 <= i <= height
      invariant p == i * width && p <= n
      invariant forall k :: 0 <= k < p ==> img[k] == RangeFilter(src[k] as int)
      invariant forall k :: p <= k < n ==> img[k] == Sentinel
    {
      p := FilterRow(src, img, i, width, height, p);
      NextRow(i, width);
      i := i + 1;
    }
    FilteredFrameOf(img[..], src[..n]);
  }
}
