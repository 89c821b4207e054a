/** `showBlurredHeightmap`: heights back to opaque grey RGBA bytes for a preview canvas. */
module Preview {
  import opened Grid
  import opened Extractor

  /** Byte `c` (0 = red, 1 = green, 2 = blue, 3 = alpha) of pixel `i` in an RGBA buffer. */
  function Channel(i: int, c: int): int
  {
    4 * i + c
  }

  /**
   * What a Uint8ClampedArray stores when assigned `v`: 0 at or below 0, 255 at or above 255,
   * otherwise the nearest integer, ties going to the even one.
   */
  function ClampToByte(v: real): (b: Byte)
    ensures v <= 0.0 ==> b == 0
    ensures v >= 255.0 ==> b == 255
    ensures 0.0 <= v <= 255.0 ==> -0.5 <= b as real - v <= 0.5
  {
    if v <= 0.0 then 0
    else if v >= 255.0 then 255
    else
      var f := v.Floor;
      if f as real + 0.5 < v then f + 1
      else if v < f as real + 0.5 then f
      else if f % 2 == 0 then f
      else f + 1
  }

  /** The grey byte shown for cell `i`: a missing height is NaN, which the clamped buffer stores as 0. */
  function PreviewLevel(hm: seq<real>, i: int): Byte
  {
    if 0 <= i < |hm| then ClampToByte(hm[i] * 255.0) else 0
  }

  /** A whole number of the byte range is stored as itself. */
  lemma ClampKeepsBytes(n: Byte)
    ensures ClampToByte(n as real) == n
  {
  }

  /** Clamping to a byte never reverses the order of two values. */
  lemma ClampMonotone(u: real, v: real)
    requires u <= v
    ensures ClampToByte(u) <= ClampToByte(v)
  {
  }

  /**
   * For a grey pixel (red = green = blue) the preview of its unblurred height is the
   * pixel's own byte again: extraction and preview are inverse on grey images.
   */
  lemma PreviewOfGrayPixel(p: seq<Byte>, n: nat, i: int)
    requires |p| == 4 * n && 0 <= i < n
    requires p[4 * i] == p[4 * i + 1] == p[4 * i + 2]
    ensures PreviewLevel(GrayField(p, n), i) == p[4 * i]
  {
    var v := p[4 * i];
    assert GrayField(p, n)[i] * 255.0 == v as real;
    ClampKeepsBytes(v);
  }

  /** The byte the preview holds at flat position `j`: opaque alpha, grey level elsewhere. */
  function ShownByte(hm: seq<real>, j: int): Byte
  {
    if j % 4 == 3 then 255 else PreviewLevel(hm, j / 4)
  }

  /** Cells `lo` to `hi - 1` of `d` are painted as opaque grey pixels of their preview levels. */
  ghost predicate Painted(d: seq<Byte>, hm: seq<real>, lo: int, hi: int)
    requires 0 <= lo && Channel(hi, 0) <= |d|
  {
    forall k :: lo <= k < hi ==>
      && d[Channel(k, 0)] == PreviewLevel(hm, k)
      && d[Channel(k, 1)] == PreviewLevel(hm, k)
      && d[Channel(k, 2)] == PreviewLevel(hm, k)
      && d[Channel(k, 3)] == 255
  }

  /** A buffer painting every cell as an opaque grey pixel holds `ShownByte` at every position. */
  lemma ShownPixels(d: seq<Byte>, hm: seq<real>, n: nat)
    requires |d| == 4 * n && Painted(d, hm, 0, n)
    ensures forall j :: 0 <= j < |d| ==> d[j] == ShownByte(hm, j)
  {
    forall j | 0 <= j < |d|
      ensures d[j] == ShownByte(hm, j)
    {
      var i, c := j / 4, j % 4;
      assert j == Channel(i, c);
      assert 0 <= i < n;
    }
  }

  /** Writing the four bytes of cell `i` extends a painted prefix of cells by that one cell. */
  lemma PaintOne(before: seq<Byte>, after: seq<Byte>, hm: seq<real>, i: nat, level: Byte)
    requires Channel(i + 1, 0) <= |before| && Painted(before, hm, 0, i) && level == PreviewLevel(hm, i)
    requires after == before[Channel(i, 0) := level][Channel(i, 1) := level][Channel(i, 2) := level][Channel(i, 3) := 255]
    ensures Painted(after, hm, 0, i + 1)
  {
  }

  /** The inner loop of the preview: paints the `width` cells of row `y`, left to right. */
  method PaintRow(heightmap: array<real>, data: array<Byte>, width: nat, height: nat, y: nat)
    requires data.Length == 4 * (width * height) && y < height
    requires Painted(data[..], heightmap[..], 0, Cell(width, 0, y))
    modifies data
    ensures Cell(width, 0, y + 1) <= width * height
    ensures Painted(data[..], heightmap[..], 0, Cell(width, 0, y + 1))
    ensures forall j :: Channel(Cell(width, 0, y + 1), 0) <= j < data.Length ==> data[j] == old(data[j])
  {
    ghost var hs := heightmap[..];
    NextRow(width, 0, y);
    MulMonotone(y + 1, height, width);
    var x := 0;
    while x < width
      invariant 0 <= x <= width
      invariant Cell(width, x, y) <= width * height
      invariant Painted(data[..], hs, 0, Cell(width, x, y))
      invariant forall j :: Channel(Cell(width, x, y), 0) <= j < data.Length ==> data[j] == old(data[j])
    {
      CellInGrid(width, height, x, y);
      var i := y * width + x;
      var brightness: Byte := if i < heightmap.Length then ClampToByte(heightmap[i] * 255.0) else 0;
      assert brightness == PreviewLevel(hs, i);
      var pixelIndex := i * 4;
      ghost var before := data[..];
      data[pixelIndex] := brightness;
      ghost var step := before[pixelIndex := brightness];
      assert data[..] == step;
      data[pixelIndex + 1] := brightness;
      step := step[pixelIndex + 1 := brightness];
      assert data[..] == step;
      data[pixelIndex + 2] := brightness;
      step := step[pixelIndex + 2 := brightness];
      assert data[..] == step;
      data[pixelIndex + 3] := 255;
      step := step[pixelIndex + 3 := 255];
      assert data[..] == step;
      PaintOne(before, step, hs, i, brightness);
      x := x + 1;
    }
  }

  /** Paints a fresh `width` by `height` RGBA buffer row by row with the grey level of each height. */
  method ShowBlurredHeightmap(heightmap: array<real>, width: nat, height: nat) returns (data: array<Byte>)
    ensures fresh(data) && data.Length == 4 * (width * height)
    ensures Painted(data[..], heightmap[..], 0, width * height)
    ensures forall j :: 0 <= j < data.Length ==> data[j] == ShownByte(heightmap[..], j)
  {
    data := new Byte[4 * (width * height)](_ => 0);
    var y := 0;
    while y < height
      invariant 0 <= y <= height
      invariant Cell(width, 0, y) <= width * height
      invariant Painted(data[..], heightmap[..], 0, Cell(width, 0, y))
    {
      PaintRow(heightmap, data, width, height, y);
      y := y + 1;
    }
    assert Cell(width, 0, height) == width * height;
    ShownPixels(data[..], heightmap[..], width * height);
  }
}
