/** Row-major grid indexing and running sums shared by the height-field stages. */
module Grid {

  /** One 8-bit channel of an RGBA pixel, as held by a Uint8ClampedArray. */
  type Byte = b: int | 0 <= b <= 255

  /** The flat index of column `x`, row `y` in a row-major grid `w` cells wide. */
  function Cell(w: int, x: int, y: int): int
  {
    y * w + x
  }

  lemma MulMonotone(a: int, b: int, c: int)
    requires a <= b && 0 <= c
    ensures a * c <= b * c
  {
    assert b * c - a * c == (b - a) * c;
  }

  /** Stepping one row down adds the row width. */
  lemma NextRow(w: int, x: int, y: int)
    ensures Cell(w, x, y + 1) == Cell(w, x, y) + w
    ensures Cell(w, w, y) == Cell(w, 0, y + 1)
  {
    assert (y + 1) * w == y * w + w;
  }

  /** Every cell of a `w` by `h` grid has its index in `[0, w*h)`. */
  lemma CellInGrid(w: int, h: int, x: int, y: int)
    requires 0 <= x < w && 0 <= y < h
    ensures 0 <= Cell(w, x, y) < w * h
  {
    MulMonotone(0, y, w);
    MulMonotone(y + 1, h, w);
    NextRow(w, x, y);
  }

  /** Distinct cells of a row-major grid have distinct indices. */
  lemma CellDistinct(w: int, x1: int, y1: int, x2: int, y2: int)
    requires 0 <= x1 < w && 0 <= x2 < w
    requires x1 != x2 || y1 != y2
    ensures Cell(w, x1, y1) != Cell(w, x2, y2)
  {
    if y1 < y2 {
      MulMonotone(y1 + 1, y2, w);
      NextRow(w, x1, y1);
    } else if y2 < y1 {
      MulMonotone(y2 + 1, y1, w);
      NextRow(w, x2, y2);
    }
  }

  /** Every index of a `w` by `h` grid is the cell of exactly the column `k % w` and row `k / w`. */
  lemma CellOf(w: int, h: int, k: int)
    requires 0 < w && 0 <= k < w * h
    ensures 0 <= k % w < w && 0 <= k / w < h
    ensures Cell(w, k % w, k / w) == k
  {
    if k / w >= h {
      MulMonotone(h, k / w, w);
    }
  }

  /** The running total `s[lo] + ... + s[hi-1]`, accumulated left to right. */
  function SumRange(s: seq<real>, lo: int, hi: int): real
    requires 0 <= lo <= hi <= |s|
    decreases hi - lo
  {
    if lo == hi then 0.0 else SumRange(s, lo, hi - 1) + s[hi - 1]
  }

  /** The running total can also be split off at its first term. */
  lemma {:induction false} SumRangeFront(s: seq<real>, lo: int, hi: int)
    requires 0 <= lo < hi <= |s|
    ensures SumRange(s, lo, hi) == s[lo] + SumRange(s, lo + 1, hi)
    decreases hi - lo
  {
    if lo + 1 < hi {
      SumRangeFront(s, lo, hi - 1);
    }
  }

  /** `n` copies of `v` added up, one at a time. */
  function Repeat(n: nat, v: real): real
  {
    if n == 0 then 0.0 else Repeat(n - 1, v) + v
  }

  /** Repeated addition is multiplication. */
  lemma {:induction false} RepeatIsProduct(n: nat, v: real)
    ensures Repeat(n, v) == n as real * v
  {
    if n > 0 {
      RepeatIsProduct(n - 1, v);
      assert n as real * v == (n - 1) as real * v + v;
    }
  }

  /** A sum of `n` terms each in `[a, b]` lies between `n` copies of `a` and `n` copies of `b`. */
  lemma {:induction false} SumRangeBounds(s: seq<real>, lo: int, hi: int, a: real, b: real)
    requires 0 <= lo <= hi <= |s|
    requires forall i :: lo <= i < hi ==> a <= s[i] <= b
    ensures Repeat(hi - lo, a) <= SumRange(s, lo, hi) <= Repeat(hi - lo, b)
    decreases hi - lo
  {
    if lo < hi {
      SumRangeBounds(s, lo, hi - 1, a, b);
    }
  }

  /** Summing a sequence of ones counts its elements. */
  lemma SumOfOnes(s: seq<real>)
    requires forall i :: 0 <= i < |s| ==> s[i] == 1.0
    ensures SumRange(s, 0, |s|) == |s| as real
  {
    SumRangeBounds(s, 0, |s|, 1.0, 1.0);
    RepeatIsProduct(|s|, 1.0);
  }
}
