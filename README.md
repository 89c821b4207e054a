# Rushmore relief viewer — verified model of the height-field pipeline

Rushmore turns a photo into a 3D relief. A depth-estimation server returns a depth image.
The page then runs four stages on it, all in `src/main.js`:

- **Height Field Extractor** (`generateHeightmap`): reads the decoded 256×256 RGBA bytes and
  computes, for each pixel, the mean of red, green and blue divided by 255. Alpha is never read.
- **Box Blur Filter** (`applyGaussianBlur`): in spite of its name, a uniform `(2r+1)²` mean filter.
  - At radius below 1 it returns its input array itself.
  - Otherwise it fills a fresh zero buffer. Only cells at least `r` away from every edge are
    written, so the border band stays 0.
- **Relief Mesh Generator** (`generateHeightmapMesh`):
  - writes `height × depthScale` into the z slot of each vertex of a 256×256 plane, reading a
    missing height as 0;
  - replaces the scene's previous mesh named `"heightmapMesh"`, first removing it and disposing
    its geometry and material.
- **Preview** (`showBlurredHeightmap`): maps heights back to opaque grey RGBA bytes.

The page also keeps the last height map. Its "regenerate" button rebuilds the mesh from that
height map and does nothing when there is none.

The Dafny modules follow these stages:

- `Grid`: row-major cell indices, running sums, and the `Byte` type (0..255).
- `Extractor`: grey levels.
- `BoxBlur`: the filter, its window-mean specification, and the bounds lemmas.
- `Heightmap`: extraction followed by the blur.
- `Displacement`: the stride-3 vertex loop.
- `Preview`: the preview bytes, including the Uint8ClampedArray store conversion.
- `SceneGraph`: `Object3D` and `Scene` as classes with mutable fields.
- `Viewer`: the `App` class, holding the session state (`depthScale`, `blurRadius`,
  `globalHeightmap`), mesh replacement, the regenerate guard, and the tail of an upload run.

Heights are exact `real`s. Loops that fill or rewrite buffers are methods over `array`s with
loop invariants. Each method is proved against a specification function: `GrayField`, `BlurAt`,
`Displaced` or `ShownByte`. Lemmas then state what those functions promise.

`showBlurredHeightmap` is only called from a commented-out block of the page (src/main.js:148).
It is modelled as written.

## Model

| member | source | states |
|---|---|---|
| Grid.SumRangeBounds | src/main.js:277-282 | a running sum of `n` values each in `[a, b]` lies between `n` copies of `a` and `n` copies of `b` |
| Grid.RepeatIsProduct | src/main.js:284 | adding `n` copies of `v` gives `n·v`, which turns the repeated-sum bounds into products |
| Grid.SumOfOnes | src/main.js:269-270 | summing a sequence of ones (the `kernel.reduce` over a kernel filled with 1) yields its length |
| Extractor.Gray | src/main.js:254-255 | a pixel's grey level lies in `[0, 1]`; it is 0 exactly when red, green and blue are all 0, and 1 exactly when all three are 255 |
| Extractor.AlphaIgnored | src/main.js:252-254 | two RGBA buffers that differ only in alpha bytes give the same height field |
| Extractor.GrayFieldInUnitRange | src/main.js:248-256 | the height field of an `n`-pixel buffer has `n` cells, each in `[0, 1]` |
| Extractor.GrayRow | src/main.js:252-256 | the inner x loop: after row `y`, every cell before the next row's start holds its pixel's grey level, and every later cell keeps its old value |
| Extractor.Grayscale | src/main.js:244-256 | a fresh buffer of exactly `width·height` cells whose cell `k` is `(p[4k]+p[4k+1]+p[4k+2])/3/255`, i.e. the whole buffer equals `GrayField` |
| BoxBlur.KernelCells | src/main.js:268-269 | the window of radius `r` has at least `2r+1` cells, so dividing by it is defined |
| BoxBlur.KernelSumIsCellCount | src/main.js:269-270 | the kernel has `(2r+1)²` weights and `kernelSum` equals that cell count |
| BoxBlur.BlockFits | src/main.js:277-279 | every row of a window whose corners lie inside the grid reads only indices inside the height map |
| BoxBlur.RowTotal | src/main.js:278-281 | the kx loop adds exactly the `2r+1` cells of window row `y+ky` to `sum` and advances `index` by `2r+1` |
| BoxBlur.WindowTotal | src/main.js:274-282 | the ky/kx loops leave in `sum` exactly the sum of the `(2r+1)²` cells centred on `(x, y)` (`WindowSum`) |
| BoxBlur.ApplyBlur | src/main.js:264-289 | radius below 1 returns the very same array; otherwise a fresh array in which every cell is `BlurAt`: the window mean `WindowSum/kernelSum` in the interior, 0 in the border band; when `width ≤ 2r` or `height ≤ 2r` every cell is 0 |
| BoxBlur.RowsSumBounds | src/main.js:277-282 | `n` window rows of `span` values each in `[a, b]` sum to between `n·span` copies of `a` and of `b` |
| BoxBlur.KernelRepeat | src/main.js:268-270 | `2r+1` rows of `2r+1` copies of `v` add up to `kernelSum · v` |
| BoxBlur.WindowSumBounds | src/main.js:277-282 | a window of values in `[a, b]` sums to between `kernelSum·a` and `kernelSum·b` |
| BoxBlur.WindowMeanBounds | src/main.js:284 | an interior cell's blurred value lies within the bounds `[a, b]` of its inputs |
| BoxBlur.BlurInUnitRange | src/main.js:267-284 | a height field in `[0, 1]` blurs to values in `[0, 1]` everywhere, border band included |
| BoxBlur.BlurOfConstant | src/main.js:284 | a constant field blurs to the same constant in every interior cell |
| Heightmap.GenerateHeightmap | src/main.js:244-261 | a fresh array of `width·height` cells that are the grey levels at radius below 1, and otherwise the blurred grey levels; every cell in `[0, 1]` |
| Displacement.LookupIsIdentity | src/main.js:314-316 | the column `k % 256` and row `k / 256` looked up for vertex `k` give back index `k` |
| Displacement.DisplacedSlots | src/main.js:313-318 | displacement keeps the buffer length and the x and y slots of every vertex; z becomes `height[k]·depthScale`, with 0 when `k` is past the height map |
| Displacement.FlatWhenHeightsZero | src/main.js:316-317 | an all-zero height map puts every z at 0, whatever the depth scale |
| Displacement.SingleRaisedVertex | src/main.js:316-317 | a height map that is 1 at cell `c` and 0 elsewhere raises vertex `c` alone, by exactly the depth scale |
| Displacement.DisplaceVertices | src/main.js:313-318 | the stride-3 loop leaves the position buffer equal to `Displaced` of its old contents |
| Preview.ClampToByte | src/main.js:230-233 | the byte a Uint8ClampedArray stores: 0 at or below 0, 255 at or above 255, and otherwise within 0.5 of the value |
| Preview.ClampKeepsBytes | src/main.js:230-233 | a whole number in the byte range is stored as itself |
| Preview.ClampMonotone | src/main.js:230-233 | the clamped store never reverses the order of two values |
| Preview.PreviewOfGrayPixel | src/main.js:229-233 | for a grey pixel (red = green = blue), extraction followed by the preview gives back the pixel's own byte |
| Preview.ShownPixels | src/main.js:232-236 | a buffer in which every cell is painted as an opaque grey pixel holds `ShownByte` at every byte position |
| Preview.PaintRow | src/main.js:228-237 | the inner x loop: after row `y`, every cell before the next row's start has R = G = B = its stored level and A = 255, and every byte of the later cells keeps its old value |
| Preview.ShowBlurredHeightmap | src/main.js:223-241 | a fresh `4·width·height` byte buffer in which each cell has R = G = B = the clamped `height·255` (0 for a missing height) and A = 255 |
| SceneGraph.Object3D.DisposeGeometry | src/main.js:303 | marks the geometry released and leaves the material flag unchanged |
| SceneGraph.Object3D.DisposeMaterial | src/main.js:304 | marks the material released and leaves the geometry flag unchanged |
| SceneGraph.IndexOf | src/main.js:302 | the first position of an object in the child list, or -1 exactly when it is absent |
| SceneGraph.FirstNamed | src/main.js:300 | the first position of a child with a given name, or -1 exactly when no child has it |
| SceneGraph.CountNamedConcat | src/main.js:324-326 | counting by name distributes over concatenation |
| SceneGraph.CountNamedZero | src/main.js:300-301 | the count of a name is 0 exactly when no child carries that name |
| SceneGraph.CountNamedWithout | src/main.js:302 | splicing out one child lowers the count of its name by one and leaves other names alone |
| SceneGraph.ReplacementCount | src/main.js:300-326 | removing the first child of a name and appending a new one of that name leaves a count of 1 if it was 0, and the same count otherwise |
| SceneGraph.Scene.GetObjectByName | src/main.js:300 | null exactly when no child has the name; otherwise the first child with that name |
| SceneGraph.Scene.Remove | src/main.js:302 | splices out the first occurrence of the object; an absent object changes nothing |
| SceneGraph.Scene.Add | src/main.js:326 | detaches the object from this scene if it is a child and appends it as the last child |
| Viewer.App.constructor | src/main.js:29-31 | starts with depth scale 3.0 and blur radius 3 (the settings object), no stored height map (`globalHeightmap` starts null, src/main.js:154) and an empty scene holding no relief mesh |
| Viewer.App.RemoveOldMesh | src/main.js:300-305 | removes the first child named "heightmapMesh" if there is one, and disposes its geometry and material; no other child's flags change, and no mesh is not an error |
| Viewer.ReliefMesh | src/main.js:307-324 | a fresh mesh named "heightmapMesh", not disposed, whose fresh position buffer is the plane displaced by the height map |
| Viewer.App.GenerateHeightmapMesh | src/main.js:292-327 | a null height map leaves the scene untouched; otherwise the old relief mesh is removed and disposed and a fresh displaced mesh becomes the last child; the name count becomes 1 if it was 0 and stays otherwise, so at most one live mesh is preserved |
| Viewer.App.Regenerate | src/main.js:32-38 | without a stored height map the child list and every child's disposal flags are unchanged; with one, exactly what `GenerateHeightmapMesh` promises: the old relief mesh removed and disposed, the other children kept in order with their flags, a fresh undisposed displaced mesh appended, the name count 1 if it was 0 and unchanged otherwise |
| Viewer.App.StoreHeightmap | src/main.js:208 | the stored height map becomes a fresh 256×256 array: the grey levels of the image at radius below 1, otherwise their box blur (`BlurAt`) at every cell; the settings are unchanged |
| Viewer.App.UseDepthImage | src/main.js:208-218 | the stored height map becomes a fresh array of the blurred grey levels of the 256×256 depth image; the old relief mesh is removed and disposed, the other children are kept with their flags, and a fresh undisposed mesh displaced by the new height map is appended |

## Left out

- The depth server (`src/MiDaS/midas_server.py`), `fetchDepthMap`, `convertToBase64` and the
  asynchronous part of `processImage` are left out. They are network I/O, image decoding and
  canvas resizing in foreign libraries. `Viewer.App.UseDepthImage` starts from the decoded
  256×256 RGBA bytes.
- `lastUploadedImage` and the blur-radius `onChange` handler are left out. The handler re-runs the
  whole network path, not a re-blur of stored data.
- Camera, renderer, lights, controls, GUI wiring, `animate` and `putImageData` are rendering
  scaffolding and are left out.
- `THREE.PlaneGeometry` is left out, and its positions are a parameter `plane` of length
  3·256·256. Leaving it out is safe because the displacement only rewrites z slots.
  `computeVertexNormals` and the material colour/side are left out too.
- Float32 rounding is not modelled. Heights and sums are exact reals, and sums are not rounded
  after each addition.
- The `|| 0` coercion is modelled for a height past the end of the map only. NaN heights do not
  arise with reals.
- Viewer.ReliefMesh: sets the mesh name through the constructor. The source assigns
  `mesh.name` after construction (src/main.js:324). The resulting state is the same.
- SceneGraph.Scene.GetObjectByName: searches only the scene's direct children. The library
  search also descends into grandchildren. Grandchildren never occur here, since every object
  is added directly to the scene.
- Displacement.DisplaceVertices: requires the position buffer to be a different array from the
  height map. In the source the buffer always belongs to a freshly built plane.
- BoxBlur.ApplyBlur: takes an integer radius. The GUI slider steps the radius by 1, and
  fractional radii are not modelled.
- Preview.ShowBlurredHeightmap: when `width` or `height` is 0, `createImageData` throws an
  `IndexSizeError` (src/main.js:224). The model returns an empty buffer there instead.
- Extractor.Grayscale: the division by 3 and by 255 is exact. The Float32 store rounds it.
- Console logging is not modelled: the `console.error` of the regenerate guard
  (src/main.js:34) and of the missing-height-map guard (src/main.js:294), and the
  `console.log` calls (src/main.js:207, 215, 297, 305). They write only to the console.
