/** The Height Field Extractor: RGBA bytes to normalised grey levels (`generateHeightmap`, first half). */
module Extractor {
  import opened Grid

  /** The grey level of one pixel: the mean of its red, green and blue bytes, scaled to `[0, 1]`. */
  function Gray(r: Byte, g: Byte, b: Byte): (h: real)
    ensures 0.0 <= h <= 1.0
    ensures h == 0.0 <==> r == 0 && g == 0 && b == 0
    ensures h == 1.0 <==> r == 255 && g == 255 && b == 255
  {
    ((r as int + g as int + b as int) as real / 3.0) / 255.0
  }

  /** The grey level of pixel `k` of an RGBA buffer; the alpha byte `p[4k+3]` is not consulted. */
  function GrayAt(p: seq<Byte>, k: int): real
    requires 0 <= k && 4 * k + 2 < |p|
  {
    Gray(p[4 * k], p[4 * k + 1], p[4 * k + 2])
  }

  /** The height field of an `n`-pixel RGBA buffer. */
  function GrayField(p: seq<Byte>, n: nat): (hs: seq<real>)
    requires |p| == 4 * n
  {
    seq(n, k requires 0 <= k < n => GrayAt(p, k))
  }

  /** Two buffers that differ only in their alpha bytes have the same height field. */
  lemma AlphaIgnored(p: seq<Byte>, q: seq<Byte>, n: nat)
    requires |p| == |q| == 4 * n
    requires forall j :: 0 <= j < |p| && j % 4 != 3 ==> p[j] == q[j]
    ensures GrayField(p, n) == GrayField(q, n)
  {
    forall k | 0 <= k < n
      ensures GrayAt(p, k) == GrayAt(q, k)
    {
      assert (4 * k) % 4 == 0 && (4 * k + 1) % 4 == 1 && (4 * k + 2) % 4 == 2;
    }
  }

  /** Every value of a height field lies in `[0, 1]`. */
  lemma GrayFieldInUnitRange(p: seq<Byte>, n: nat)
    requires |p| == 4 * n
    ensures |GrayField(p, n)| == n
    ensures forall k :: 0 <= k < n ==> 0.0 <= GrayField(p, n)[k] <= 1.0
  {
  }

  /** The inner loop of the extraction: fills the `width` cells of row `y`, left to right. */
  method GrayRow(pixels: array<Byte>, heightmap: array<real>, width: nat, height: nat, y: nat)
    requires pixels.Length == 4 * (width * height) && heightmap.Length == width * height && y < height
    requires forall k :: 0 <= k < Cell(width, 0, y) ==> heightmap[k] == GrayAt(pixels[..], k)
    modifies heightmap
    ensures Cell(width, 0, y + 1) <= width * height
    ensures forall k :: 0 <= k < Cell(width, 0, y + 1) ==> heightmap[k] == GrayAt(pixels[..], k)
    ensures forall k :: Cell(width, 0, y + 1) <= k < heightmap.Length ==> heightmap[k] == old(heightmap[k])
  {
    NextRow(width, 0, y);
    MulMonotone(y + 1, height, width);
    var x := 0;
    while x < width
      invariant 0 <= x <= width
      invariant Cell(width, x, y) <= width * height
      invariant forall k :: 0 <= k < Cell(width, x, y) ==> heightmap[k] == GrayAt(pixels[..], k)
      invariant forall k :: Cell(width, x, y) <= k < heightmap.Length ==> heightmap[k] == old(heightmap[k])
    {
      CellInGrid(width, height, x, y);
      var i := (y * width + x) * 4;
      var brightness := (pixels[i] as int + pixels[i + 1] as int + pixels[i + 2] as int) as real / 3.0;
      heightmap[y * width + x] := brightness / 255.0;
      x := x + 1;
    }
  }

  /**
   * Fills a fresh `width*height` buffer row by row with the grey level of each pixel
   * of an RGBA image `width` pixels wide and `height` pixels high.
   */
  method Grayscale(pixels: array<Byte>, width: nat, height: nat) returns (heightmap: array<real>)
    requires pixels.Length == 4 * (width * height)
    ensures fresh(heightmap) && heightmap.Length == width * height
    ensures forall k :: 0 <= k < width * height ==>
      heightmap[k] == Gray(pixels[4 * k], pixels[4 * k + 1], pixels[4 * k + 2])
    ensures heightmap[..] == GrayField(pixels[..], width * height)
  {
    heightmap := new real[width * height](_ => 0.0);
    var y := 0;
    while y < height
      invariant 0 <= y <= height
      invariant Cell(width, 0, y) <= width * height
      invariant forall k :: 0 <= k < Cell(width, 0, y) ==> heightmap[k] == GrayAt(pixels[..], k)
    {
      GrayRow(pixels, heightmap, width, height, y);
      y := y + 1;
    }
    assert Cell(width, 0, height) == width * height;
    assert heightmap[..] == GrayField(pixels[..], width * height);
  }
}
