/** `generateHeightmap`: grey levels of a decoded image, then the box blur at the configured radius. */
module Heightmap {
  import opened Grid
  import opened Extractor
  import opened BoxBlur

  method GenerateHeightmap(pixels: array<Byte>, width: nat, height: nat, blurRadius: int)
    returns (heightmap: array<real>)
    requires pixels.Length == 4 * (width * height)
    ensures fresh(heightmap) && heightmap.Length == width * height
    ensures blurRadius < 1 ==> heightmap[..] == GrayField(pixels[..], width * height)
    ensures blurRadius >= 1 ==> forall x, y :: 0 <= x < width && 0 <= y < height ==>
      0 <= Cell(width, x, y) < heightmap.Length &&
      heightmap[Cell(width, x, y)] == BlurAt(GrayField(pixels[..], width * height), width, height, blurRadius, x, y)
    ensures forall k :: 0 <= k < heightmap.Length ==> 0.0 <= heightmap[k] <= 1.0
  {
    var gray := Grayscale(pixels, width, height);
    heightmap := ApplyBlur(gray, width, height, blurRadius);
    GrayFieldInUnitRange(pixels[..], width * height);
    if blurRadius >= 1 {
      forall k | 0 <= k < heightmap.Length
        ensures 0.0 <= heightmap[k] <= 1.0
      {
        CellOf(width, height, k);
        BlurInUnitRange(gray[..], width, height, blurRadius, k % width, k / width);
      }
    }
  }
}
