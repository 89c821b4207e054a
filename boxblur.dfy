/**
 * The Box Blur Filter (`applyGaussianBlur`). In spite of its name the kernel is a
 * `(2r+1)` by `(2r+1)` square of ones, so each interior cell becomes the plain mean of
 * its window; cells closer than `r` to an edge are never written and stay zero.
 */
module BoxBlur {
  import opened Grid

  /** Column `x`, row `y` is far enough from every edge for its window to fit the grid. */
  predicate Interior(w: int, h: int, r: int, x: int, y: int)
  {
    r <= x < w - r && r <= y < h - r
  }

  /** The number of cells in the window of radius `r`. */
  function KernelCells(r: nat): (n: int)
    ensures n >= 2 * r + 1
  {
    MulMonotone(1, 2 * r + 1, 2 * r + 1);
    (2 * r + 1) * (2 * r + 1)
  }

  /** The kernel the source builds: `(2r+1)^2` weights, every one of them 1. */
  function Kernel(r: nat): (k: seq<real>)
  {
    seq(KernelCells(r), _ => 1.0)
  }

  /** The `n` rows of `span` cells, the first starting at index `top` and each next one `w` further on, lie inside `s`. */
  predicate RowsFit(s: seq<real>, w: int, top: int, span: nat, n: nat)
    decreases n
  {
    n == 0 || (0 <= top && top + span <= |s| && RowsFit(s, w, top + w, span, n - 1))
  }

  /** The sum of the cells of those `n` rows. */
  function RowsSum(s: seq<real>, w: int, top: int, span: nat, n: nat): real
    requires RowsFit(s, w, top, span, n)
    decreases n
  {
    if n == 0 then 0.0 else SumRange(s, top, top + span) + RowsSum(s, w, top + w, span, n - 1)
  }

  /** A block of `n` rows and `span` columns with top-left corner `(x0, y0)` inside the grid fits. */
  lemma {:induction false} BlockFits(s: seq<real>, w: nat, h: nat, x0: int, y0: int, span: nat, n: nat)
    requires |s| == w * h && 0 <= x0 && x0 + span <= w && 0 < span && 0 <= y0 && y0 + n <= h
    ensures RowsFit(s, w, Cell(w, x0, y0), span, n)
    decreases n
  {
    if n > 0 {
      CellInGrid(w, h, x0, y0);
      CellInGrid(w, h, x0 + span - 1, y0);
      NextRow(w, x0, y0);
      BlockFits(s, w, h, x0, y0 + 1, span, n - 1);
    }
  }

  /** The sum of the `(2r+1)^2` cells of the window centred on `(x, y)`. */
  function WindowSum(s: seq<real>, w: nat, h: nat, x: int, y: int, r: nat): real
    requires |s| == w * h && Interior(w, h, r, x, y)
  {
    BlockFits(s, w, h, x - r, y - r, 2 * r + 1, 2 * r + 1);
    RowsSum(s, w, Cell(w, x - r, y - r), 2 * r + 1, 2 * r + 1)
  }

  /** What the filter of radius `r >= 1` leaves in column `x`, row `y`. */
  function BlurAt(s: seq<real>, w: nat, h: nat, r: nat, x: int, y: int): real
    requires |s| == w * h
  {
    if Interior(w, h, r, x, y) then WindowSum(s, w, h, x, y, r) / KernelCells(r) as real else 0.0
  }

  /** The kernel's weights add up to the number of cells in the window. */
  lemma KernelSumIsCellCount(r: nat)
    ensures |Kernel(r)| == KernelCells(r)
    ensures SumRange(Kernel(r), 0, |Kernel(r)|) == KernelCells(r) as real
  {
    SumOfOnes(Kernel(r));
  }

  /**
   * The innermost loop of the filter: adds row `y + ky` of the window centred on `(x, y)`
   * to `sum`, weighting each cell by the next kernel entry from `index` on.
   */
  method RowTotal(heightmap: array<real>, w: nat, h: nat, x: int, y: int, r: nat, ky: int,
                  kernel: seq<real>, sum0: real, index0: nat)
    returns (sum: real, index: nat)
    requires heightmap.Length == w * h && Interior(w, h, r, x, y) && -(r as int) <= ky <= r
    requires index0 + 2 * r + 1 <= |kernel| && forall i :: 0 <= i < |kernel| ==> kernel[i] == 1.0
    ensures 0 <= Cell(w, x - r, y + ky) && Cell(w, x - r, y + ky) + 2 * r + 1 <= heightmap.Length
    ensures sum == sum0 + SumRange(heightmap[..], Cell(w, x - r, y + ky), Cell(w, x - r, y + ky) + 2 * r + 1)
    ensures index == index0 + 2 * r + 1
  {
    ghost var s := heightmap[..];
    ghost var rowStart := Cell(w, x - r, y + ky);
    CellInGrid(w, h, x - r, y + ky);
    CellInGrid(w, h, x + r, y + ky);
    sum, index := sum0, index0;
    var kx: int := -(r as int);
    while kx <= r
      invariant 0 <= kx + r <= 2 * r + 1
      invariant index == index0 + kx + r
      invariant sum + SumRange(s, rowStart + kx + r, rowStart + 2 * r + 1)
                  == sum0 + SumRange(s, rowStart, rowStart + 2 * r + 1)
    {
      var pixel := heightmap[(y + ky) * w + (x + kx)];
      SumRangeFront(s, rowStart + kx + r, rowStart + 2 * r + 1);
      sum := sum + pixel * kernel[index];
      index := index + 1;
      kx := kx + 1;
    }
  }

  /**
   * Sums the window centred on `(x, y)` the way the two inner loops of the source do,
   * weighting each cell by the next kernel entry.
   */
  method WindowTotal(heightmap: array<real>, w: nat, h: nat, x: int, y: int, r: nat, kernel: seq<real>)
    returns (sum: real)
    requires heightmap.Length == w * h && Interior(w, h, r, x, y)
    requires |kernel| == KernelCells(r) && forall i :: 0 <= i < |kernel| ==> kernel[i] == 1.0
    ensures sum == WindowSum(heightmap[..], w, h, x, y, r)
  {
    ghost var s := heightmap[..];
    var size := 2 * r + 1;
    BlockFits(s, w, h, x - r, y - r, size, size);
    ghost var total := WindowSum(s, w, h, x, y, r);
    ghost var rowStart := Cell(w, x - r, y - r);
    sum := 0.0;
    var index := 0;
    var ky: int := -(r as int);
    while ky <= r
      invariant 0 <= ky + r <= 2 * r + 1
      invariant index == Cell(size, 0, ky + r)
      invariant rowStart == Cell(w, x - r, y + ky)
      invariant RowsFit(s, w, rowStart, size, r + 1 - ky)
      invariant sum + RowsSum(s, w, rowStart, size, r + 1 - ky) == total
    {
      MulMonotone(ky + r + 1, size, size);
      NextRow(size, 0, ky + r);
      sum, index := RowTotal(heightmap, w, h, x, y, r, ky, kernel, sum, index);
      NextRow(w, x - r, y + ky);
      rowStart := rowStart + w;
      ky := ky + 1;
    }
  }

  /**
   * `applyGaussianBlur(heightmap, width, height, radius)`: below radius 1 the input
   * itself comes back; otherwise a fresh zero-filled grid whose interior cells hold
   * their window means.
   */
  method ApplyBlur(heightmap: array<real>, width: nat, height: nat, radius: int) returns (blurred: array<real>)
    requires heightmap.Length == width * height
    ensures radius < 1 ==> blurred == heightmap
    ensures radius >= 1 ==> fresh(blurred)
    ensures blurred.Length == width * height
    ensures radius >= 1 ==> forall x, y :: 0 <= x < width && 0 <= y < height ==>
      0 <= Cell(width, x, y) < blurred.Length &&
      blurred[Cell(width, x, y)] == BlurAt(heightmap[..], width, height, radius, x, y)
    ensures radius >= 1 && (width <= 2 * radius || height <= 2 * radius) ==>
      forall k :: 0 <= k < blurred.Length ==> blurred[k] == 0.0
  {
    if radius < 1 {
      return heightmap;
    }
    ghost var s := heightmap[..];
    blurred := new real[width * height](_ => 0.0);
    forall xx, yy | 0 <= xx < width && 0 <= yy < height
      ensures 0 <= Cell(width, xx, yy) < width * height
    {
      CellInGrid(width, height, xx, yy);
    }
    var kernelSize := 2 * radius + 1;
    var kernel := Kernel(radius);
    var kernelSum := SumRange(kernel, 0, |kernel|);
    KernelSumIsCellCount(radius);

    var y := radius;
    while y < height - radius
      invariant radius <= y && (y <= height - radius || y == radius)
      invariant forall xx, yy :: 0 <= xx < width && 0 <= yy < height ==>
        blurred[Cell(width, xx, yy)] == if yy < y then BlurAt(s, width, height, radius, xx, yy) else 0.0
    {
      var x := radius;
      while x < width - radius
        invariant radius <= x && (x <= width - radius || x == radius)
        invariant forall xx, yy :: 0 <= xx < width && 0 <= yy < height ==>
          blurred[Cell(width, xx, yy)] ==
            if yy < y || (yy == y && xx < x) then BlurAt(s, width, height, radius, xx, yy) else 0.0
      {
        var sum := WindowTotal(heightmap, width, height, x, y, radius, kernel);
        CellInGrid(width, height, x, y);
        forall xx, yy | 0 <= xx < width && 0 <= yy < height && (xx != x || yy != y)
          ensures Cell(width, xx, yy) != Cell(width, x, y)
        {
          CellDistinct(width, xx, yy, x, y);
        }
        blurred[y * width + x] := sum / kernelSum;
        x := x + 1;
      }
      y := y + 1;
    }
    if width <= 2 * radius || height <= 2 * radius {
      forall k | 0 <= k < blurred.Length
        ensures blurred[k] == 0.0
      {
        CellOf(width, height, k);
      }
    }
  }

  lemma MeanBounds(total: real, k: real, a: real, b: real)
    requires k > 0.0 && k * a <= total <= k * b
    ensures a <= total / k <= b
  {
    assert total / k * k == total;
  }

  /** A sum of `n` rows of `span` values, each in `[a, b]`, lies between `n*span` copies of `a` and of `b`. */
  lemma {:induction false} RowsSumBounds(s: seq<real>, w: int, top: int, span: nat, n: nat, a: real, b: real)
    requires RowsFit(s, w, top, span, n)
    requires forall i :: 0 <= i < |s| ==> a <= s[i] <= b
    ensures Repeat(n, Repeat(span, a)) <= RowsSum(s, w, top, span, n) <= Repeat(n, Repeat(span, b))
    decreases n
  {
    if n > 0 {
      RowsSumBounds(s, w, top + w, span, n - 1, a, b);
      SumRangeBounds(s, top, top + span, a, b);
    }
  }

  /** `2r+1` rows of `2r+1` copies of `v` add up to the kernel's cell count times `v`. */
  lemma KernelRepeat(r: nat, v: real)
    ensures Repeat(2 * r + 1, Repeat(2 * r + 1, v)) == KernelCells(r) as real * v
  {
    var k := 2 * r + 1;
    RepeatIsProduct(k, v);
    RepeatIsProduct(k, k as real * v);
    assert (k * k) as real == k as real * k as real;
  }

  /** The window of `(2r+1)^2` values, each in `[a, b]`, sums to between `(2r+1)^2` times `a` and times `b`. */
  lemma WindowSumBounds(s: seq<real>, w: nat, h: nat, r: nat, x: int, y: int, a: real, b: real)
    requires |s| == w * h && Interior(w, h, r, x, y)
    requires forall i :: 0 <= i < |s| ==> a <= s[i] <= b
    ensures KernelCells(r) as real * a <= WindowSum(s, w, h, x, y, r) <= KernelCells(r) as real * b
  {
    BlockFits(s, w, h, x - r, y - r, 2 * r + 1, 2 * r + 1);
    RowsSumBounds(s, w, Cell(w, x - r, y - r), 2 * r + 1, 2 * r + 1, a, b);
    KernelRepeat(r, a);
    KernelRepeat(r, b);
  }

  /** A window mean of values in `[a, b]` lies in `[a, b]`. */
  lemma WindowMeanBounds(s: seq<real>, w: nat, h: nat, r: nat, x: int, y: int, a: real, b: real)
    requires |s| == w * h && Interior(w, h, r, x, y)
    requires forall i :: 0 <= i < |s| ==> a <= s[i] <= b
    ensures a <= BlurAt(s, w, h, r, x, y) <= b
  {
    WindowSumBounds(s, w, h, r, x, y, a, b);
    MeanBounds(WindowSum(s, w, h, x, y, r), KernelCells(r) as real, a, b);
  }

  /** A height field with values in `[0, 1]` blurs to one with values in `[0, 1]`, border band included. */
  lemma BlurInUnitRange(s: seq<real>, w: nat, h: nat, r: nat, x: int, y: int)
    requires |s| == w * h
    requires forall i :: 0 <= i < |s| ==> 0.0 <= s[i] <= 1.0
    ensures 0.0 <= BlurAt(s, w, h, r, x, y) <= 1.0
  {
    if Interior(w, h, r, x, y) {
      WindowMeanBounds(s, w, h, r, x, y, 0.0, 1.0);
    }
  }

  /** Blurring a constant field gives back that constant in every interior cell. */
  lemma BlurOfConstant(s: seq<real>, w: nat, h: nat, r: nat, x: int, y: int, c: real)
    requires |s| == w * h && Interior(w, h, r, x, y)
    requires forall i :: 0 <= i < |s| ==> s[i] == c
    ensures BlurAt(s, w, h, r, x, y) == c
  {
    WindowMeanBounds(s, w, h, r, x, y, c, c);
  }
}
