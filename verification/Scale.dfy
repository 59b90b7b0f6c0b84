/** RGBA to RGB with nearest-neighbour resampling in crates/desktop-core/src/lib.rs.
    The output size is a parameter. */
module Scale {
  import opened TileHash
  import opened XYArithmetic

  /** The source coordinate that target coordinate i reads. */
  function Nearest(i: nat, orig: nat, target: nat): (s: nat)
    requires i < target
    ensures orig > 0 ==> s < orig
    ensures orig == target ==> s == i
  {
    NearestInside(i, orig, target);
    i * orig / target
  }

  lemma {:induction false} NearestInside(i: nat, orig: nat, target: nat)
    requires i < target
    ensures 0 <= i * orig / target
    ensures orig > 0 ==> i * orig / target < orig
    ensures orig == target ==> i * orig / target == i
  {
    if orig > 0 {
      Shrinks(i, target, orig);
      DivBelow(i * orig, target, orig);
    }
    if orig == target {
      DivUnique(i, target, 0);
    }
  }

  lemma {:induction false} Shrinks(i: nat, target: nat, orig: nat)
    requires i < target && orig > 0
    ensures i * orig < orig * target
  {
    ProductGrows(i + 1, target, orig);
    Product(i, 1, orig);
  }

  /** The output of a frame without pixels has none either. */
  predicate Sizes(origW: nat, origH: nat, w: nat, h: nat)
  {
    w > 0 && h > 0 ==> origW > 0 && origH > 0
  }

  /** Where byte k of the output is read from. */
  function Source(k: nat, origW: nat, origH: nat, w: nat, h: nat): (p: nat)
    requires k < w * h * 3 && Sizes(origW, origH, w, h)
    ensures p < origW * origH * 4
    ensures origW == w && origH == h ==> p == k / 3 * 4 + k % 3
  {
    SourceInside(k / 3, origW, origH, w, h);
    (Nearest(k / 3 / w, origH, h) * origW + Nearest(k / 3 % w, origW, w)) * 4 + k % 3
  }

  lemma {:induction false} SourceInside(i: nat, origW: nat, origH: nat, w: nat, h: nat)
    requires i < w * h && Sizes(origW, origH, w, h)
    ensures w > 0 && h > 0 && origW > 0 && origH > 0 && 0 <= i % w < w && 0 <= i / w < h
    ensures 0 <= Nearest(i / w, origH, h) * origW + Nearest(i % w, origW, w) < origW * origH
    ensures origW == w && origH == h ==> Nearest(i / w, origH, h) * origW + Nearest(i % w, origW, w) == i
  {
    hide Nearest;
    CellOf(w, h, i);
    assert h > 0;
    CellNumber(origW, origH, Nearest(i % w, origW, w), Nearest(i / w, origH, h));
  }

  /** A picture holds four bytes for each pixel. */
  predicate IsFrame(raw: Raw, w: nat, h: nat) { |raw| == w * h * 4 }

  /** Every target pixel is the RGB part of the source pixel nearest to it. */
  function Sampled(raw: Raw, origW: nat, origH: nat, w: nat, h: nat): Raw
    requires IsFrame(raw, origW, origH) && Sizes(origW, origH, w, h)
  {
    seq(w * h * 3, k requires 0 <= k < w * h * 3 => raw[Source(k, origW, origH, w, h)])
  }

  /** The loop over pixels when no scaling is needed, and the loop over rows and columns
      otherwise, give the same picture of the frame. */
  method RgbaToRgbScaled(raw: Raw, origW: nat, origH: nat, w: nat, h: nat) returns (rgb: Raw)
    requires IsFrame(raw, origW, origH) && Sizes(origW, origH, w, h)
    ensures rgb == Sampled(raw, origW, origH, w, h)
  {
    if w == origW && h == origH {
      rgb := DropAlpha(raw, w, h);
    } else if w > 0 && h > 0 {
      rgb := SampleRows(raw, origW, origH, w, h);
    } else {
      rgb := [];
    }
  }

  method DropAlpha(raw: Raw, w: nat, h: nat) returns (rgb: Raw)
    requires IsFrame(raw, w, h)
    ensures rgb == Sampled(raw, w, h, w, h)
  {
    hide Source;
    rgb := [];
    var i := 0;
    while i < |raw| / 4
      invariant 0 <= i <= w * h && |rgb| == i * 3
      invariant rgb == Sampled(raw, w, h, w, h)[..i * 3]
    {
      var chunk := raw[i * 4..i * 4 + 4];
      rgb := rgb + chunk[..3];
      i := i + 1;
    }
  }

  method SampleRows(raw: Raw, origW: nat, origH: nat, w: nat, h: nat) returns (rgb: Raw)
    requires IsFrame(raw, origW, origH) && Sizes(origW, origH, w, h) && w > 0 && h > 0
    ensures rgb == Sampled(raw, origW, origH, w, h)
  {
    hide Sampled, Nearest, IsFrame, SampledUpTo, RowOffset, Cell;
    rgb := [];
    NoneSampled(raw, origW, origH, w, h);
    var y := 0;
    while y < h
      invariant 0 <= y <= h && SampledUpTo(rgb, raw, origW, origH, w, h, Cell(w, 0, y))
    {
      var rowOffset := RowOffset(Nearest(y, origH, h), origW);
      var x := 0;
      while x < w
        invariant 0 <= x <= w && SampledUpTo(rgb, raw, origW, origH, w, h, Cell(w, x, y))
      {
        var offset := rowOffset + Nearest(x, origW, w) * 4;
        NextPixel(rgb, raw, origW, origH, w, h, x, y);
        rgb := rgb + raw[offset..offset + 3];
        x := x + 1;
      }
      NextRow(w, y);
      y := y + 1;
    }
    AllSampled(rgb, raw, origW, origH, w, h);
  }

  /** The number of target pixel (x, y), and where a source row starts. */
  function Cell(w: nat, x: nat, y: nat): nat { y * w + x }

  function RowOffset(row: nat, origW: nat): nat { row * (origW * 4) }

  lemma {:induction false} NextRow(w: nat, y: nat)
    ensures Cell(w, w, y) == Cell(w, 0, y + 1)
  {
    Product(y, 1, w);
  }

  ghost predicate SampledUpTo(rgb: Raw, raw: Raw, origW: nat, origH: nat, w: nat, h: nat, n: nat)
    requires IsFrame(raw, origW, origH) && Sizes(origW, origH, w, h)
  {
    && n <= w * h && |rgb| == n * 3
    && rgb == Sampled(raw, origW, origH, w, h)[..n * 3]
  }

  lemma {:induction false} NoneSampled(raw: Raw, origW: nat, origH: nat, w: nat, h: nat)
    requires IsFrame(raw, origW, origH) && Sizes(origW, origH, w, h)
    ensures SampledUpTo([], raw, origW, origH, w, h, Cell(w, 0, 0))
  {
  }

  lemma {:induction false} AllSampled(rgb: Raw, raw: Raw, origW: nat, origH: nat, w: nat, h: nat)
    requires IsFrame(raw, origW, origH) && Sizes(origW, origH, w, h)
    requires SampledUpTo(rgb, raw, origW, origH, w, h, Cell(w, 0, h))
    ensures rgb == Sampled(raw, origW, origH, w, h)
  {
    assert h * w == w * h;
  }

  lemma {:induction false} NextPixel(rgb: Raw, raw: Raw, origW: nat, origH: nat, w: nat, h: nat, x: nat, y: nat)
    requires IsFrame(raw, origW, origH) && Sizes(origW, origH, w, h) && x < w && y < h
    requires SampledUpTo(rgb, raw, origW, origH, w, h, Cell(w, x, y))
    ensures var p := RowOffset(Nearest(y, origH, h), origW) + Nearest(x, origW, w) * 4;
            && p + 3 <= |raw|
            && SampledUpTo(rgb + raw[p..p + 3], raw, origW, origH, w, h, Cell(w, x + 1, y))
  {
    hide Nearest, Source, Sampled;
    CellNumber(w, h, x, y);
    PixelSource(x, y, origW, origH, w, h);
    var p := Nearest(y, origH, h) * (origW * 4) + Nearest(x, origW, w) * 4;
    var n := y * w + x;
    SampledAt(raw, origW, origH, w, h, n * 3);
    SampledAt(raw, origW, origH, w, h, n * 3 + 1);
    SampledAt(raw, origW, origH, w, h, n * 3 + 2);
    ThreeMore(Sampled(raw, origW, origH, w, h), rgb, n * 3, raw, p);
  }

  lemma {:induction false} SampledAt(raw: Raw, origW: nat, origH: nat, w: nat, h: nat, k: nat)
    requires IsFrame(raw, origW, origH) && Sizes(origW, origH, w, h) && k < w * h * 3
    ensures |Sampled(raw, origW, origH, w, h)| == w * h * 3
    ensures Sampled(raw, origW, origH, w, h)[k] == raw[Source(k, origW, origH, w, h)]
  {
    hide Source;
  }

  lemma {:induction false} ThreeMore(s: Raw, front: Raw, n: nat, raw: Raw, p: nat)
    requires n + 3 <= |s| && p + 3 <= |raw| && front == s[..n]
    requires s[n] == raw[p] && s[n + 1] == raw[p + 1] && s[n + 2] == raw[p + 2]
    ensures front + raw[p..p + 3] == s[..n + 3]
  {
  }

  lemma {:induction false} PixelSource(x: nat, y: nat, origW: nat, origH: nat, w: nat, h: nat)
    requires x < w && y < h && origW > 0 && origH > 0
    ensures y * w + x < w * h
    ensures var k := (y * w + x) * 3;
            var p := Nearest(y, origH, h) * (origW * 4) + Nearest(x, origW, w) * 4;
            && p + 3 <= origW * origH * 4
            && Source(k, origW, origH, w, h) == p
            && Source(k + 1, origW, origH, w, h) == p + 1
            && Source(k + 2, origW, origH, w, h) == p + 2
  {
    hide Nearest;
    CellNumber(w, h, x, y);
    var n := y * w + x;
    assert n * 3 / 3 == n && (n * 3 + 1) / 3 == n && (n * 3 + 2) / 3 == n;
    CellNumber(origW, origH, Nearest(x, origW, w), Nearest(y, origH, h));
    assert Nearest(y, origH, h) * (origW * 4) == Nearest(y, origH, h) * origW * 4;
  }

  lemma {:induction false} NearestIs(i: nat, orig: nat, target: nat, s: nat)
    requires i < target && s * target <= i * orig < (s + 1) * target
    ensures Nearest(i, orig, target) == s
  {
    Product(s, 1, target);
    DivUnique(s, target, i * orig - s * target);
  }

  lemma {:induction false} CellSource(x: nat, y: nat, origW: nat, origH: nat, w: nat, h: nat)
    requires x < w && y < h && origW > 0 && origH > 0
    ensures var n, m := Cell(w, x, y), Cell(origW, Nearest(x, origW, w), Nearest(y, origH, h));
            && n * 3 + 3 <= w * h * 3 && m * 4 + 4 <= origW * origH * 4
            && Source(n * 3, origW, origH, w, h) == m * 4
            && Source(n * 3 + 1, origW, origH, w, h) == m * 4 + 1
            && Source(n * 3 + 2, origW, origH, w, h) == m * 4 + 2
  {
    hide Nearest, Source;
    PixelSource(x, y, origW, origH, w, h);
    CellNumber(w, h, x, y);
    CellNumber(origW, origH, Nearest(x, origW, w), Nearest(y, origH, h));
    assert Nearest(y, origH, h) * (origW * 4) == Nearest(y, origH, h) * origW * 4;
  }

  /** Target pixel (x, y) has the red, green and blue of source pixel (sx, sy), the one that
      stands as far from the left and the top in proportion, rounded down. */
  lemma {:induction false} PixelColour(raw: Raw, origW: nat, origH: nat, w: nat, h: nat, x: nat, y: nat,
                                       sx: nat, sy: nat)
    requires IsFrame(raw, origW, origH) && Sizes(origW, origH, w, h) && x < w && y < h
    requires sx * w <= x * origW < (sx + 1) * w && sy * h <= y * origH < (sy + 1) * h
    ensures var k, p := Cell(w, x, y) * 3, Cell(origW, sx, sy) * 4;
            && k + 3 <= |Sampled(raw, origW, origH, w, h)| && p + 3 <= |raw|
            && Sampled(raw, origW, origH, w, h)[k..k + 3] == raw[p..p + 3]
  {
    hide *;
    PositiveSizes(origW, origH, w, h);
    NearestIs(x, origW, w, sx);
    NearestIs(y, origH, h, sy);
    PixelAt(raw, origW, origH, w, h, x, y);
  }

  lemma {:induction false} PixelAt(raw: Raw, origW: nat, origH: nat, w: nat, h: nat, x: nat, y: nat)
    requires IsFrame(raw, origW, origH) && Sizes(origW, origH, w, h) && x < w && y < h && origW > 0 && origH > 0
    ensures var k, p := Cell(w, x, y) * 3, Cell(origW, Nearest(x, origW, w), Nearest(y, origH, h)) * 4;
            && k + 3 <= |Sampled(raw, origW, origH, w, h)| && p + 3 <= |raw|
            && Sampled(raw, origW, origH, w, h)[k..k + 3] == raw[p..p + 3]
  {
    hide Nearest, Source, Sampled, Cell;
    CellSource(x, y, origW, origH, w, h);
    var n := Cell(w, x, y);
    SampledAt(raw, origW, origH, w, h, n * 3);
    SampledAt(raw, origW, origH, w, h, n * 3 + 1);
    SampledAt(raw, origW, origH, w, h, n * 3 + 2);
  }

  lemma PositiveSizes(origW: nat, origH: nat, w: nat, h: nat)
    requires Sizes(origW, origH, w, h) && w > 0 && h > 0
    ensures origW > 0 && origH > 0
  {
  }
}
