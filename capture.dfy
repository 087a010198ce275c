/** The capture cadence of the acquisition loop: frame i is saved only when i
    is a multiple of 150, under file names carrying the decimal text of
    i / 150, as a colour dump (three elements per pixel) and a filtered depth
    dump (one element per pixel). */
module Capture {
  import opened Wrappers
  import opened DepthFilter
  import opened FrameDump

  /** One element of the colour plane. */
  newtype byte = x: int | 0 <= x < 0x100

  const CaptureInterval: nat := 150
  const ColorChannels: nat := 3
  const DepthChannels: nat := 1

  predicate ShouldCapture(i: nat) {
    i % CaptureInterval == 0
  }

  /** The number written into the names of frame i's files. */
  function FileIndex(i: nat): nat {
    i / CaptureInterval
  }

  predicate IsDigit(c: char) {
    '0' <= c <= '9'
  }

  predicate AllDigits(s: string) {
    forall k :: 0 <= k < |s| ==> IsDigit(s[k])
  }

  function Digit(d: nat): (c: char)
    requires d < 10
    ensures IsDigit(c) && c as int - '0' as int == d
  {
    ('0' as int + d) as char
  }

  /** The decimal text of n, as a string stream writes a non-negative int:
      digits only, and no leading zero unless n is zero. */
  function Decimal(n: nat): (s: string)
    ensures |s| >= 1 && AllDigits(s)
    ensures s[0] == '0' ==> s == "0" && n == 0
    decreases n
  {
    if n < 10 then [Digit(n)] else Decimal(n / 10) + [Digit(n % 10)]
  }

  /** The value of a string of decimal digits. */
  function ParseDecimal(s: string): nat
    requires AllDigits(s)
    decreases |s|
  {
    if s == [] then 0 else 10 * ParseDecimal(s[..|s| - 1]) + (s[|s| - 1] as int - '0' as int)
  }

  /** The decimal text of n reads back as n. */
  lemma {:induction false} ParseDecimalInverts(n: nat)
    ensures ParseDecimal(Decimal(n)) == n
  {
    if n >= 10 {
      var s := Decimal(n);
      assert s[..|s| - 1] == Decimal(n / 10);
      ParseDecimalInverts(n / 10);
    }
  }

  /** Distinct numbers have distinct decimal texts. */
  lemma DecimalInjective(m: nat, n: nat)
    requires Decimal(m) == Decimal(n)
    ensures m == n
  {
    ParseDecimalInverts(m);
    ParseDecimalInverts(n);
  }

  /** The index text of frame i: what `ss << (i / 150) << endl; ss >> idxstr`
      leaves in idxstr (the extraction stops at the line break). */
  function IndexString(i: nat): string {
    Decimal(FileIndex(i))
  }

  function ColorFileName(i: nat): string {
    "color_" + IndexString(i) + ".bin"
  }

  function DepthFileName(i: nat): string {
    "depth_" + IndexString(i) + ".bin"
  }

  /** A name of the form prefix + text + ".bin" determines its text. */
  lemma NameDeterminesIndex(prefix: string, a: string, b: string)
    requires prefix + a + ".bin" == prefix + b + ".bin"
    ensures a == b
  {
    var s := prefix + a + ".bin";
    assert |a| == |b|;
    assert a == s[|prefix|..|prefix| + |a|];
    assert b == (prefix + b + ".bin")[|prefix|..|prefix| + |b|];
  }

  /** No two saved frames share a file name, and a colour file is never a
      depth file, so no capture overwrites another. */
  lemma CaptureNamesDistinct(i1: nat, i2: nat)
    requires ShouldCapture(i1) && ShouldCapture(i2) && i1 != i2
    ensures ColorFileName(i1) != ColorFileName(i2)
    ensures DepthFileName(i1) != DepthFileName(i2)
    ensures ColorFileName(i1) != DepthFileName(i2)
  {
    if ColorFileName(i1) == ColorFileName(i2) {
      NameDeterminesIndex("color_", IndexString(i1), IndexString(i2));
      DecimalInjective(FileIndex(i1), FileIndex(i2));
    }
    if DepthFileName(i1) == DepthFileName(i2) {
      NameDeterminesIndex("depth_", IndexString(i1), IndexString(i2));
      DecimalInjective(FileIndex(i1), FileIndex(i2));
    }
    assert ColorFileName(i1)[0] != DepthFileName(i2)[0];
  }

  /** How many of the frames 0 .. n - 1 are saved. */
  function CapturesBefore(n: nat): nat {
    if n == 0 then 0 else CapturesBefore(n - 1) + (if ShouldCapture(n - 1) then 1 else 0)
  }

  /** Among the first n frames, exactly the ceiling of n / 150 are saved. */
  lemma {:induction false} CapturesBeforeCount(n: nat)
    ensures CapturesBefore(n) == (n + CaptureInterval - 1) / CaptureInterval
  {
    if n > 0 {
      CapturesBeforeCount(n - 1);
    }
  }

  /** The index in a saved frame's file names counts the frames saved before
      it: the saved files are numbered 0, 1, 2, ... without gaps. */
  lemma FileIndexCountsCaptures(i: nat)
    requires ShouldCapture(i)
    ensures FileIndex(i) == CapturesBefore(i)
    ensures i == CaptureInterval * FileIndex(i)
  {
    CapturesBeforeCount(i);
  }

  /** One acquired frame: the colour plane and its size, the native depth
      plane and its size. */
  datatype Frame = Frame(rgb: seq<byte>, rgbW: nat, rgbH: nat, depth: seq<int16>, depthW: nat, depthH: nat)

  /** The planes are at least as large as their sizes announce. */
  predicate ValidFrame(f: Frame) {
    f.rgbW * f.rgbH * ColorChannels <= |f.rgb| && f.depthW * f.depthH <= |f.depth|
  }

  /** The two files saved for one frame, by name and logical content. */
  datatype Saved = Saved(colorName: string, colorDump: seq<Field<byte>>, depthName: string, depthDump: seq<Field<int>>)

  /** What frame i is saved as: the colour plane dumped with three elements
      per pixel, and the range-filtered depth plane with one. */
  function SavedAs(i: nat, f: Frame): (s: Saved)
    requires ValidFrame(f)
    ensures s.colorName == ColorFileName(i) && s.depthName == DepthFileName(i)
  {
    Saved(ColorFileName(i), Dump(f.rgb, f.rgbW, f.rgbH, ColorChannels),
          DepthFileName(i), Dump(FilteredFrame(f.depth[..f.depthW * f.depthH]), f.depthW, f.depthH, DepthChannels))
  }

  /** The colour file of a saved frame reads back as the first
      width * height * 3 bytes of its colour plane, and the depth file as its
      range-filtered depth plane, each with its dimensions. */
  lemma SavedAsReadsBack(i: nat, f: Frame)
    requires ValidFrame(f)
    ensures Undump(SavedAs(i, f).colorDump, ColorChannels) ==
            Some(Image(f.rgbW, f.rgbH, f.rgb[..f.rgbW * f.rgbH * ColorChannels]))
    ensures Undump(SavedAs(i, f).depthDump, DepthChannels) ==
            Some(Image(f.depthW, f.depthH, FilteredFrame(f.depth[..f.depthW * f.depthH])))
  {
    var depthimg := FilteredFrame(f.depth[..f.depthW * f.depthH]);
    UndumpDump(f.rgb, f.rgbW, f.rgbH, ColorChannels);
    UndumpDump(depthimg, f.depthW, f.depthH, DepthChannels);
    assert depthimg[..f.depthW * f.depthH * DepthChannels] == depthimg;
  }

  /** The body of the acquisition loop for frame i: nothing unless i is a
      multiple of 150, otherwise the colour copy, the range filter and the
      two dumps. */
  method CaptureFrame(i: nat, f: Frame) returns (s: Option<Saved>)
    requires ValidFrame(f)
    ensures s.Some? <==> ShouldCapture(i)
    ensures s.Some? ==> s.value == SavedAs(i, f)
  {
    if i % CaptureInterval == 0 {
      var idxstr := Decimal(i / CaptureInterval);
      var rgbimg := f.rgb[..f.rgbW * f.rgbH * ColorChannels];
      var colorDump := Dump(rgbimg, f.rgbW, f.rgbH, ColorChannels);
      var depthimg := FilterDepth(f.depth, f.depthW, f.depthH);
      var depthDump := Dump(depthimg[..], f.depthW, f.depthH, DepthChannels);
      s := Some(Saved("color_" + idxstr + ".bin", colorDump, "depth_" + idxstr + ".bin", depthDump));
    } else {
      s := None;
    }
  }

  /** The acquisition loop over the frames acquired before it stops: the
      k-th saved pair comes from frame 150 * k, and no two saved files share
      a name. */
  method CaptureSession(frames: seq<Frame>) returns (saved: seq<Saved>)
    requires forall k :: 0 <= k < |frames| ==> ValidFrame(frames[k])
    ensures |saved| == CapturesBefore(|frames|)
    ensures forall k :: 0 <= k < |saved| ==>
              CaptureInterval * k < |frames| &&
              saved[k] == SavedAs(CaptureInterval * k, frames[CaptureInterval * k])
    ensures forall k1, k2 :: 0 <= k1 < k2 < |saved| ==>
              saved[k1].colorName != saved[k2].colorName &&
              saved[k1].depthName != saved[k2].depthName
  {
    saved := [];
    var i := 0;
    while i < |frames|
      invariant 0 <= i <= |frames|
      invariant |saved| == CapturesBefore(i)
      invariant forall k :: 0 <= k < |saved| ==>
                  CaptureInterval * k < i &&
                  saved[k] == SavedAs(CaptureInterval * k, frames[CaptureInterval * k])
    {
      var s := CaptureFrame(i, frames[i]);
      if s.Some? {
        FileIndexCountsCaptures(i);
        assert CaptureInterval * |saved| == i;
        saved := saved + [s.value];
      }
      i := i + 1;
    }
    SavedNamesDistinct(saved);
  }

  /** Saved pairs named after frames 0, 150, 300, ... never share a name. */
  lemma SavedNamesDistinct(saved: seq<Saved>)
    requires forall k :: 0 <= k < |saved| ==>
               saved[k].colorName == ColorFileName(CaptureInterval * k) &&
               saved[k].depthName == DepthFileName(CaptureInterval * k)
    ensures forall k1, k2 :: 0 <= k1 < k2 < |saved| ==>
              saved[k1].colorName != saved[k2].colorName &&
              saved[k1].depthName != saved[k2].depthName
  {
    forall k1, k2 | 0 <= k1 < k2 < |saved|
      ensures saved[k1].colorName != saved[k2].colorName
      ensures saved[k1].depthName != saved[k2].depthName
    {
      CaptureNamesDistinct(CaptureInterval * k1, CaptureInterval * k2);
    }
  }
}
