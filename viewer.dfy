/**
 * The page's session state and the operations that touch the scene: building the relief
 * mesh from a height map (`generateHeightmapMesh`), the regenerate button, and the tail of
 * an upload run that turns the decoded depth image into the stored height map and a mesh.
 */
module Viewer {
  import opened Grid
  import opened BoxBlur
  import opened Extractor
  import opened Heightmap
  import opened Displacement
  import opened SceneGraph

  /** The name that marks the one generated relief mesh in the scene. */
  const MeshName: string := "heightmapMesh"

  /**
   * The second half of `generateHeightmapMesh`: a copy of the flat plane's positions `plane`
   * is displaced by `hm` and wrapped in a new mesh named "heightmapMesh".
   */
  method ReliefMesh(hm: array<real>, plane: seq<real>, depthScale: real) returns (mesh: Object3D)
    requires |plane| == 3 * GridVertices
    ensures fresh(mesh) && fresh(mesh.positions)
    ensures mesh.name == MeshName && !mesh.geometryDisposed && !mesh.materialDisposed
    ensures mesh.positions[..] == Displaced(plane, hm[..], depthScale)
  {
    var vertices := new real[|plane|](k requires 0 <= k < |plane| => plane[k]);
    assert vertices[..] == plane;
    DisplaceVertices(vertices, hm, depthScale);
    mesh := new Object3D(MeshName, vertices);
  }

  class App {
    /** The scene the relief is attached to. */
    const scene: Scene
    /** Relief height per unit of normalised height (`settings.depthScale`). */
    var depthScale: real
    /** Box-blur radius (`settings.blurRadius`). */
    var blurRadius: int
    /** The last height map computed (`globalHeightmap`), null before the first one. */
    var heightmap: array?<real>

    /** The scene holds at most one generated relief mesh. */
    predicate OneLiveMesh()
      reads this, scene
    {
      CountNamed(scene.children, MeshName) <= 1
    }

    constructor ()
      ensures fresh(scene) && scene.children == [] && OneLiveMesh()
      ensures depthScale == 3.0 && blurRadius == 3 && heightmap == null
    {
      scene := new Scene();
      depthScale := 3.0;
      blurRadius := 3;
      heightmap := null;
    }

    /**
     * The first half of `generateHeightmapMesh`: the first child named "heightmapMesh", if
     * any, is detached and its geometry and material are disposed; nothing else changes.
     */
    method RemoveOldMesh()
      modifies scene, scene.children
      ensures var i := FirstNamed(old(scene.children), MeshName);
        && scene.children == (if i < 0 then old(scene.children) else Without(old(scene.children), i))
        && (0 <= i ==> old(scene.children)[i].geometryDisposed && old(scene.children)[i].materialDisposed)
      ensures forall c :: c in old(scene.children) && c != old(scene.GetObjectByName(MeshName)) ==>
        c.geometryDisposed == old(c.geometryDisposed) && c.materialDisposed == old(c.materialDisposed)
    {
      var oldMesh := scene.GetObjectByName(MeshName);
      if oldMesh != null {
        scene.Remove(oldMesh);
        oldMesh.DisposeGeometry();
        oldMesh.DisposeMaterial();
      }
    }

    /**
     * `generateHeightmapMesh(hm)`: with no height map nothing happens. Otherwise the old
     * relief mesh is removed and disposed, and a fresh relief mesh is attached as the new
     * last child under the name "heightmapMesh".
     */
    method GenerateHeightmapMesh(hm: array?<real>, plane: seq<real>)
      requires |plane| == 3 * GridVertices
      modifies scene, scene.children
      ensures hm == null ==> scene.children == old(scene.children)
      ensures hm != null ==>
        var i := FirstNamed(old(scene.children), MeshName);
        var kept := if i < 0 then old(scene.children) else Without(old(scene.children), i);
        && |scene.children| == |kept| + 1
        && scene.children[..|kept|] == kept
        && (0 <= i ==> old(scene.children)[i].geometryDisposed && old(scene.children)[i].materialDisposed)
        && var mesh := scene.children[|kept|];
           && fresh(mesh) && fresh(mesh.positions)
           && mesh.name == MeshName && !mesh.geometryDisposed && !mesh.materialDisposed
           && mesh.positions[..] == Displaced(plane, hm[..], depthScale)
      ensures forall c :: c in old(scene.children) && (hm == null || c != old(scene.GetObjectByName(MeshName))) ==>
        c.geometryDisposed == old(c.geometryDisposed) && c.materialDisposed == old(c.materialDisposed)
      ensures hm != null ==> (CountNamed(scene.children, MeshName) ==
        if CountNamed(old(scene.children), MeshName) == 0 then 1 else CountNamed(old(scene.children), MeshName))
      ensures old(OneLiveMesh()) ==> OneLiveMesh()
    {
      if hm == null {
        return;
      }
      ghost var before := scene.children;
      RemoveOldMesh();
      ghost var kept := scene.children;
      var mesh := ReliefMesh(hm, plane, depthScale);
      assert IndexOf(kept, mesh) == -1;
      scene.Add(mesh);
      assert scene.children == kept + [mesh];
      ReplacementCount(before, mesh, MeshName);
    }

    /** The regenerate button: rebuilds the mesh from the stored height map, and does nothing without one. */
    method Regenerate(plane: seq<real>)
      requires |plane| == 3 * GridVertices
      modifies scene, scene.children
      ensures heightmap == null ==> scene.children == old(scene.children)
      ensures heightmap != null ==>
        var i := FirstNamed(old(scene.children), MeshName);
        var kept := if i < 0 then old(scene.children) else Without(old(scene.children), i);
        && |scene.children| == |kept| + 1
        && scene.children[..|kept|] == kept
        && (0 <= i ==> old(scene.children)[i].geometryDisposed && old(scene.children)[i].materialDisposed)
        && var mesh := scene.children[|kept|];
           && fresh(mesh) && fresh(mesh.positions)
           && mesh.name == MeshName && !mesh.geometryDisposed && !mesh.materialDisposed
           && mesh.positions[..] == Displaced(plane, heightmap[..], depthScale)
      ensures forall c :: c in old(scene.children) && (heightmap == null || c != old(scene.GetObjectByName(MeshName))) ==>
        c.geometryDisposed == old(c.geometryDisposed) && c.materialDisposed == old(c.materialDisposed)
      ensures heightmap != null ==> (CountNamed(scene.children, MeshName) ==
        if CountNamed(old(scene.children), MeshName) == 0 then 1 else CountNamed(old(scene.children), MeshName))
      ensures old(OneLiveMesh()) ==> OneLiveMesh()
    {
      if heightmap == null {
        return;
      }
      GenerateHeightmapMesh(heightmap, plane);
    }

    /** `globalHeightmap = generateHeightmap(imageData)`: the decoded image's height map becomes the stored one. */
    method StoreHeightmap(pixels: array<Byte>)
      requires pixels.Length == 4 * GridVertices
      modifies this
      ensures depthScale == old(depthScale) && blurRadius == old(blurRadius)
      ensures heightmap != null && fresh(heightmap) && heightmap.Length == GridVertices
      ensures blurRadius < 1 ==> heightmap[..] == GrayField(pixels[..], GridVertices)
      ensures blurRadius >= 1 ==> forall x, y :: 0 <= x < GridSize && 0 <= y < GridSize ==>
        0 <= Cell(GridSize, x, y) < heightmap.Length &&
        heightmap[Cell(GridSize, x, y)] == BlurAt(GrayField(pixels[..], GridVertices), GridSize, GridSize, blurRadius, x, y)
    {
      heightmap := GenerateHeightmap(pixels, GridSize, GridSize, blurRadius);
    }

    /**
     * The end of an upload run, once the depth image is decoded to 256 by 256 RGBA `pixels`:
     * the blurred height map becomes the stored one and the mesh is rebuilt from it.
     */
    method UseDepthImage(pixels: array<Byte>, plane: seq<real>)
      requires pixels.Length == 4 * GridVertices && |plane| == 3 * GridVertices
      modifies this, scene, scene.children
      ensures depthScale == old(depthScale) && blurRadius == old(blurRadius)
      ensures heightmap != null && fresh(heightmap) && heightmap.Length == GridVertices
      ensures blurRadius < 1 ==> heightmap[..] == GrayField(pixels[..], GridVertices)
      ensures blurRadius >= 1 ==> forall x, y :: 0 <= x < GridSize && 0 <= y < GridSize ==>
        0 <= Cell(GridSize, x, y) < heightmap.Length &&
        heightmap[Cell(GridSize, x, y)] == BlurAt(GrayField(pixels[..], GridVertices), GridSize, GridSize, blurRadius, x, y)
      ensures var i := FirstNamed(old(scene.children), MeshName);
        var kept := if i < 0 then old(scene.children) else Without(old(scene.children), i);
        && |scene.children| == |kept| + 1
        && scene.children[..|kept|] == kept
        && (0 <= i ==> old(scene.children)[i].geometryDisposed && old(scene.children)[i].materialDisposed)
        && var mesh := scene.children[|kept|];
           && fresh(mesh) && fresh(mesh.positions)
           && mesh.name == MeshName && !mesh.geometryDisposed && !mesh.materialDisposed
           && mesh.positions[..] == Displaced(plane, heightmap[..], depthScale)
      ensures forall c :: c in old(scene.children) && c != old(scene.GetObjectByName(MeshName)) ==>
        c.geometryDisposed == old(c.geometryDisposed) && c.materialDisposed == old(c.materialDisposed)
      ensures CountNamed(scene.children, MeshName) ==
        if CountNamed(old(scene.children), MeshName) == 0 then 1 else CountNamed(old(scene.children), MeshName)
      ensures old(OneLiveMesh()) ==> OneLiveMesh()
    {
      StoreHeightmap(pixels);
      GenerateHeightmapMesh(heightmap, plane);
    }
  }
}
