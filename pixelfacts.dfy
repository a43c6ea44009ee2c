/**
 * The shape of the pixel matrix PNG._parse builds from the decompressed data: `height` rows
 * of `width` slices, one scanline of 1 + 3 * width bytes per row, whose first byte (the filter
 * type) is never read.
 */
module PixelFacts {
  import opened Bytes
  import opened Png

  /** range(start, start + step * n, step) has n elements, the k-th being start + step * k. */
  lemma {:induction false} RangeShape(start: nat, n: nat, step: nat)
    requires step > 0
    ensures |Range(start, start + step * n, step)| == n
    ensures forall k :: 0 <= k < n ==> Range(start, start + step * n, step)[k] == start + step * k
    decreases n
  {
    if n > 0 {
      assert start + step * n == (start + step) + step * (n - 1);
      RangeShape(start + step, n - 1, step);
      var r := Range(start, start + step * n, step);
      assert r == [start] + Range(start + step, (start + step) + step * (n - 1), step);
      forall k | 0 < k < n
        ensures r[k] == start + step * k
      {
        assert r[k] == (start + step) + step * (k - 1);
      }
    }
  }

  /** The offsets of the pixels in a scanline: range(1, 1 + 3 * width, 3). */
  lemma PixelOffsets(width: nat)
    ensures |Range(1, LineLength(width), 3)| == width
    ensures forall x :: 0 <= x < width ==> Range(1, LineLength(width), 3)[x] == 1 + 3 * x
  {
    RangeShape(1, width, 3);
  }

  /** First index of pixel x in row y. */
  function PixelStart(width: nat, y: nat, x: nat): nat {
    y * LineLength(width) + 1 + 3 * x
  }

  /**
   * The pixel matrix has `height` rows of `width` pixels, and pixel (y, x) is the (clipped)
   * slice of three bytes at offset 1 + 3x of scanline y.
   */
  lemma PixelRowsShape(d: seq<byte>, width: nat, height: nat)
    ensures |PixelRows(d, width, height)| == height
    ensures forall y :: 0 <= y < height ==> |PixelRows(d, width, height)[y]| == width
    ensures forall y, x :: 0 <= y < height && 0 <= x < width ==>
      PixelRows(d, width, height)[y][x] == Slice(d, PixelStart(width, y, x), PixelStart(width, y, x) + 3)
  {
    PixelOffsets(width);
  }

  /** Pixel x of row y lies strictly inside scanline y, after its filter byte. */
  lemma PixelInsideLine(width: nat, y: nat, x: nat)
    requires x < width
    ensures y * LineLength(width) < PixelStart(width, y, x)
    ensures PixelStart(width, y, x) + 3 <= (y + 1) * LineLength(width)
  {
    assert (y + 1) * LineLength(width) == y * LineLength(width) + LineLength(width);
  }

  /** When the data covers every scanline, each pixel is a full RGB triple taken straight from it. */
  lemma FullPixels(d: seq<byte>, width: nat, height: nat, y: nat, x: nat)
    requires |d| >= height * LineLength(width) && y < height && x < width
    ensures var rows, p := PixelRows(d, width, height), PixelStart(width, y, x);
      |rows| == height && |rows[y]| == width && p + 3 <= |d| && rows[y][x] == d[p..p + 3]
  {
    PixelRowsShape(d, width, height);
    PixelInsideLine(width, y, x);
    assert (y + 1) * LineLength(width) <= height * LineLength(width) by {
      MulMonotone(y + 1, height, LineLength(width));
    }
  }

  lemma MulMonotone(a: nat, b: nat, c: nat)
    requires a <= b
    ensures a * c <= b * c
  {
  }

  /** No pixel slice contains the first byte of any scanline. */
  lemma FilterByteOutside(width: nat, y: nat, x: nat, m: nat)
    requires x < width
    ensures !(PixelStart(width, y, x) <= m * LineLength(width) < PixelStart(width, y, x) + 3)
  {
    PixelInsideLine(width, y, x);
    if m <= y {
      MulMonotone(m, y, LineLength(width));
    } else {
      MulMonotone(y + 1, m, LineLength(width));
    }
  }

  /** A clipped slice does not see a change at an index outside it. */
  lemma SliceUnchanged(d: seq<byte>, i: nat, v: byte, start: nat, stop: nat)
    requires i < |d| && (i < start || stop <= i)
    ensures Slice(d[i := v], start, stop) == Slice(d, start, stop)
  {
  }

  /** Changing the first byte of scanline m leaves scanline y as it was. */
  lemma ScanlineIgnoresFilter(d: seq<byte>, width: nat, y: nat, m: nat, v: byte)
    requires m * LineLength(width) < |d|
    ensures Scanline(d[m * LineLength(width) := v], width, y) == Scanline(d, width, y)
  {
    var i := m * LineLength(width);
    var xs := Range(1, LineLength(width), 3);
    var base := y * LineLength(width);
    PixelOffsets(width);
    forall k | 0 <= k < |xs|
      ensures Slice(d[i := v], base + xs[k], base + xs[k] + 3) == Slice(d, base + xs[k], base + xs[k] + 3)
    {
      assert base + xs[k] == PixelStart(width, y, k);
      FilterByteOutside(width, y, k, m);
      SliceUnchanged(d, i, v, base + xs[k], base + xs[k] + 3);
    }
  }

  /**
   * The filter-type byte at the head of each scanline is ignored: changing the first byte of
   * scanline m leaves the pixel matrix as it was.
   */
  lemma FilterByteIgnored(d: seq<byte>, width: nat, height: nat, m: nat, v: byte)
    requires m * LineLength(width) < |d|
    ensures PixelRows(d[m * LineLength(width) := v], width, height) == PixelRows(d, width, height)
  {
    var d' := d[m * LineLength(width) := v];
    forall y | 0 <= y < height
      ensures PixelRows(d', width, height)[y] == PixelRows(d, width, height)[y]
    {
      ScanlineIgnoresFilter(d, width, y, m, v);
    }
  }
}
