/**
 * The displacement loop of `generateHeightmapMesh`: the z coordinate of every vertex of
 * the 256 by 256 plane becomes its height times the depth scale.
 */
module Displacement {

  /** Vertices per row and per column of the plane (255 segments each way). */
  const GridSize: nat := 256

  /** Number of vertices of the plane. */
  const GridVertices: nat := GridSize * GridSize

  /** Slot `axis` (0 = x, 1 = y, 2 = z) of vertex `k` in a flat xyz position buffer. */
  function Slot(k: int, axis: int): int
  {
    3 * k + axis
  }

  /** `heightmap[k] || 0`: a missing height reads as zero. */
  function HeightAt(hm: seq<real>, k: int): real
  {
    if 0 <= k < |hm| then hm[k] else 0.0
  }

  /** The height-map index the loop looks up for vertex `k`: column `k % 256`, row `k / 256`. */
  function LookupIndex(k: int): int
  {
    (k / GridSize) * GridSize + k % GridSize
  }

  /** The position buffer `v` after displacement by `hm` at depth scale `scale`. */
  function Displaced(v: seq<real>, hm: seq<real>, scale: real): seq<real>
  {
    seq(|v|, i requires 0 <= i < |v| => if i % 3 == 2 then HeightAt(hm, LookupIndex(i / 3)) * scale else v[i])
  }

  /** The column/row lookup lands on the vertex's own index. */
  lemma LookupIsIdentity(k: int)
    ensures LookupIndex(k) == k
  {
  }

  /** Slot `axis` of vertex `k` is recognised by the loop's `i / 3` and `i % 3`. */
  lemma SlotDivMod(k: int, axis: int)
    requires 0 <= axis < 3
    ensures Slot(k, axis) / 3 == k && Slot(k, axis) % 3 == axis
  {
  }

  /** Displacement writes z and only z: x and y of every vertex keep their values. */
  lemma DisplacedSlots(v: seq<real>, hm: seq<real>, scale: real, k: int)
    requires 0 <= k && Slot(k, 2) < |v|
    ensures |Displaced(v, hm, scale)| == |v|
    ensures Displaced(v, hm, scale)[Slot(k, 0)] == v[Slot(k, 0)]
    ensures Displaced(v, hm, scale)[Slot(k, 1)] == v[Slot(k, 1)]
    ensures Displaced(v, hm, scale)[Slot(k, 2)] == HeightAt(hm, k) * scale
  {
    SlotDivMod(k, 0);
    SlotDivMod(k, 1);
    SlotDivMod(k, 2);
    LookupIsIdentity(k);
  }

  /** An all-zero height map leaves a flat plane, whatever the depth scale. */
  lemma FlatWhenHeightsZero(v: seq<real>, hm: seq<real>, scale: real)
    requires forall i :: 0 <= i < |hm| ==> hm[i] == 0.0
    ensures forall k :: 0 <= k && Slot(k, 2) < |v| ==> Displaced(v, hm, scale)[Slot(k, 2)] == 0.0
  {
    forall k | 0 <= k && Slot(k, 2) < |v|
      ensures Displaced(v, hm, scale)[Slot(k, 2)] == 0.0
    {
      DisplacedSlots(v, hm, scale, k);
    }
  }

  /** A height map that is 1 at cell `c` and 0 elsewhere raises exactly vertex `c`, by the depth scale. */
  lemma SingleRaisedVertex(v: seq<real>, hm: seq<real>, scale: real, c: int)
    requires 0 <= c < |hm| && hm[c] == 1.0
    requires forall i :: 0 <= i < |hm| && i != c ==> hm[i] == 0.0
    ensures forall k :: 0 <= k && Slot(k, 2) < |v| ==>
      Displaced(v, hm, scale)[Slot(k, 2)] == if k == c then scale else 0.0
  {
    forall k | 0 <= k && Slot(k, 2) < |v|
      ensures Displaced(v, hm, scale)[Slot(k, 2)] == if k == c then scale else 0.0
    {
      DisplacedSlots(v, hm, scale, k);
    }
  }

  /** Rewrites every third slot of the plane's position buffer in place, as the source's stride-3 loop does. */
  method DisplaceVertices(vertices: array<real>, heightmap: array<real>, depthScale: real)
    requires vertices.Length == 3 * GridVertices
    requires vertices != heightmap
    modifies vertices
    ensures vertices[..] == Displaced(old(vertices[..]), heightmap[..], depthScale)
  {
    ghost var v := vertices[..];
    var i := 0;
    while i < vertices.Length
      invariant 0 <= i <= vertices.Length && i % 3 == 0
      invariant forall j :: 0 <= j < i ==> vertices[j] == Displaced(v, heightmap[..], depthScale)[j]
      invariant forall j :: i <= j < vertices.Length ==> vertices[j] == v[j]
    {
      var x := (i / 3) % GridSize;
      var y := (i / 3) / GridSize;
      var index := y * GridSize + x;
      var heightValue := if index < heightmap.Length then heightmap[index] else 0.0;
      vertices[i + 2] := heightValue * depthScale;
      i := i + 3;
    }
  }
}
