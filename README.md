# Digital Twin Generator UI — verified model of the mask and layer core

This project is a Dafny model of the browser-side core of the Digital Twin
Generator UI. The UI turns floor-plan segmentations (one PNG mask per class:
wall, doorway, window, …) into editable layers and 3D previews. The model covers:

- **Mask geometry** (`Mask3DUtils.js`):
  - the contour tracer and its row-major scan;
  - contour extrusion into a closed prism mesh;
  - voxelisation, the height map and its grid mesh;
  - box smoothing.
- **Tile compositor** (`Reconstructor.js`):
  - the uneven tile layout;
  - the request of every `row_y`/`column_x` tile;
  - the missing-tile failure;
  - drawing the tiles into one canvas;
  - the per-layer `reconstructMasks` loop.
- **Floor-plan extrusion** (`FloorPlan3D.jsx`):
  - even-odd point-in-polygon;
  - grouping sections and holes;
  - centring and scaling by the bounding box;
  - wall and cap heights.
- **Result-state reducer** (`FileProvider.jsx`): every action type and the initial state, over a small model of JavaScript values.
- **3D renderer** (`AdvancedMask3DRenderer.jsx`):
  - mask input normalisation and the smoothing gate;
  - removal of the old mask geometry from the scene;
  - render-style dispatch;
  - the marching-cubes-to-voxel fallback and the 10000-voxel cap.
- **Layer canvas** (`MaskCanvas.jsx`):
  - `loadImage` source classification;
  - the in-place per-pixel recolouring;
  - collecting the layers by class;
  - drawing the visible layers.
- **Mask editor** (`CanvasEditor.jsx`):
  - `base64ToFile`;
  - red-channel normalisation into the mask tensor;
  - prompt encoding and the empty-mask case;
  - mask binarisation to RGBA;
  - adding, deleting and undoing prompt points.

Modules follow the source files:

- `MaskGrid`, `Contours`, `Extrusion`, `Voxels`, `HeightField` and `Smoothing` model `Mask3DUtils.js`.
- `TileLayout` and `Reconstructor` model `Reconstructor.js`.
- `FloorPlan` models `FloorPlan3D.jsx`.
- `JsValues` and `ResultFiles` model `FileProvider.jsx`.
- `MaskRenderer` models `AdvancedMask3DRenderer.jsx`.
- `MaskCanvas` models `MaskCanvas.jsx`.
- `DataUrls` and `CanvasEditor` model `CanvasEditor.jsx`.

The model keeps the form of the source:

- Loops that fill arrays, push into lists or mutate a shared `visited` set are methods with loop invariants. Each is proved equal to a specification function, or to state the promised property outright.
- The scene and the 2D canvas are classes whose methods change their fields.
- The in-place recolouring and binarisation work on `array<int>` buffers.
- The reducer and the point-list edits are functions.

Browser and library services are function parameters:

- image decoding and resampling;
- `atob`;
- PNG encoding;
- the ONNX session.

## Model

| member | source | states |
|---|---|---|
| MaskGrid.NormalizeInRange | src/components/3Drendering/Mask3DUtils.js:131-134 | a coordinate inside the grid maps into [-1, 1) under `(c / extent) * 2 - 1` |
| MaskGrid.IndexInjective | src/components/3Drendering/Mask3DUtils.js:31 | two in-bounds pixels with the same row-major index are the same pixel |
| MaskGrid.IndexInRange | src/components/3Drendering/Mask3DUtils.js:31 | an in-bounds pixel's row-major index lies in [0, width·height) |
| MaskGrid.GridPosition | src/components/3Drendering/Mask3DUtils.js:29-31 | every index below width·height is the row-major index of exactly the in-bounds pixel returned |
| Contours.NextDir | src/components/3Drendering/Mask3DUtils.js:87-103 | a direction it returns is one of the four and its step reaches an in-bounds, foreground, unvisited pixel |
| Contours.StepDirBetween | src/components/3Drendering/Mask3DUtils.js:57-91 | a step in direction d reaches a 4-neighbour and the direction between the two pixels is d again |
| Contours.FindNext | src/components/3Drendering/Mask3DUtils.js:86-103 | the inner `for` finds a neighbour iff the first-free-direction rule gives one, and then moves to exactly that direction's step |
| Contours.ExtendPath | src/components/3Drendering/Mask3DUtils.js:76-95 | appending an unvisited in-bounds foreground 4-neighbour keeps the walk an in-bounds foreground path without repeats |
| Contours.ExtendRule | src/components/3Drendering/Mask3DUtils.js:86-99 | appending the step the search rule chose keeps every move of the walk the rule's choice, and records the arrival direction |
| Contours.RuleStep | src/components/3Drendering/Mask3DUtils.js:86-99 | after appending the chosen step, every earlier move is still the rule's choice given what was visited before it |
| Contours.ExtendWalk | src/components/3Drendering/Mask3DUtils.js:70-99 | one iteration of the `do` body keeps the walk invariant and adds exactly the new pixel's index to the visited set |
| Contours.TraceContour | src/components/3Drendering/Mask3DUtils.js:55-112 | the result is exactly the walk the first-free-neighbour rule defines from the start pixel under the cap 4·max(w,h); it has at most 4·max(w,h)+1 points; it is empty iff the start is out of bounds or visited; it starts at the start pixel; it is a rule-following path of distinct unvisited foreground pixels; `visited` grows by exactly its pixels; a walk below the cap stopped because no free neighbour was left |
| Contours.TraceStep | src/components/3Drendering/Mask3DUtils.js:76-108 | one pass of the `do` body pushes (x, y); it stops at the cap or when no neighbour is free, and then the contour is the whole walk; otherwise it moves to the chosen neighbour, which is never the start, with the rest of the walk still ahead |
| Contours.WalkGrows | src/components/3Drendering/Mask3DUtils.js:76-108 | pushing one pixel of the walk leaves either the finished walk or the walk that continues from the chosen neighbour with one step less |
| Contours.TraceBlocked | src/components/3Drendering/Mask3DUtils.js:63-109 | the bounds/visited exit can fire only before the first pixel, so the `while` test back to the start never ends a walk |
| Contours.GrowContour | src/components/3Drendering/Mask3DUtils.js:76-99 | visiting one pixel appends it, marks it visited, keeps the walk invariant and sets up the next iteration at the chosen neighbour |
| Contours.ExtractContours | src/components/3Drendering/Mask3DUtils.js:25-42 | the result is exactly the list of walks the row-major scan keeps; every kept contour has more than 2 and at most 4·max(w,h)+1 points; all points are foreground; consecutive points are 4-neighbours; no pixel repeats within or across contours; contours come in row-major order of their seeds |
| Contours.ScanPixel | src/components/3Drendering/Mask3DUtils.js:31-36 | examining one pixel advances the scan by exactly that pixel and keeps the collected contours valid, disjoint and seeded before the scan position |
| Contours.ScanRow | src/components/3Drendering/Mask3DUtils.js:30-37 | one pass of the inner `for` advances the scan by a whole row and keeps the contours valid, disjoint and seeded before the next row |
| Contours.SeededStep | src/components/3Drendering/Mask3DUtils.js:32-36 | a walk from an unvisited foreground seed, kept only when longer than 2, keeps the contours valid, disjoint and seeded before the next pixel |
| Contours.ScanGrows | src/components/3Drendering/Mask3DUtils.js:29-39 | later pixels only append contours and only add visited pixels |
| Contours.ScanCovers | src/components/3Drendering/Mask3DUtils.js:29-36 | every pixel above the threshold is visited once the scan has passed it |
| Contours.ScanContours | src/components/3Drendering/Mask3DUtils.js:29-39 | a walk is among the contours after n pixels iff some pixel before n is an unvisited foreground seed whose walk is it and has more than 2 points |
| Contours.ScanContoursSound | src/components/3Drendering/Mask3DUtils.js:32-36 | every contour collected was seeded at an unvisited foreground pixel and is that pixel's walk |
| Contours.ScanContoursComplete | src/components/3Drendering/Mask3DUtils.js:32-36 | every seed whose walk is longer than 2 contributes that walk |
| Contours.NoKeptSeeds | src/components/3Drendering/Mask3DUtils.js:32-36 | without a seed whose walk is kept, the scan collects no contour |
| Contours.FirstSeedKept | src/components/3Drendering/Mask3DUtils.js:29-36 | when the first pixel above the threshold starts a walk of more than 2 points, the result is not empty |
| Contours.ExtractedContoursLong | src/components/3Drendering/Mask3DUtils.js:34 | every returned contour has more than 2 points |
| Contours.ExtractedNeedsGrid | src/components/3Drendering/Mask3DUtils.js:29-30 | a grid with no rows or no columns yields no contour |
| Contours.BackgroundHasNoContour | src/components/3Drendering/Mask3DUtils.js:32 | a mask with no pixel above the threshold yields no contour |
| Contours.CornerHasNoContour | src/components/3Drendering/Mask3DUtils.js:32-35 | three foreground pixels in an L in a grid's corner yield no contour: the corner's walk has 2 points and the last pixel's walk 1 |
| Contours.FullSquareContour | src/components/3Drendering/Mask3DUtils.js:32-35 | a 2 x 2 foreground square in a grid's corner yields exactly the contour (0,0), (0,1), (1,1), (1,0) |
| Contours.AddContour | src/components/3Drendering/Mask3DUtils.js:33-36 | pushing a new walk of more than 2 points keeps all contours disjoint, valid and in seed order |
| Extrusion.BuildRing | src/components/3Drendering/Mask3DUtils.js:131-148 | each contour point adds a top vertex at +depth/2 and a bottom vertex at -depth/2, interleaved, at normalised (x, y), with indices base+2j and base+2j+1; the vertices are the ring the reference definition gives |
| Extrusion.RingOfIsRing | src/components/3Drendering/Mask3DUtils.js:131-148 | the reference ring of a contour is interleaved top and bottom vertices at the normalised point |
| Extrusion.RingOfShape | src/components/3Drendering/Mask3DUtils.js:140-148 | the reference ring has two vertices per point, each at ±depth/2 |
| Extrusion.CapFans | src/components/3Drendering/Mask3DUtils.js:150-158 | the top fan is (t0, ti, ti+1) and the bottom fan is (b0, bi+1, bi) for 1 ≤ i < n-1, in all 2n-4 triangles; the result is the two reference fans in order |
| Extrusion.TopCap | src/components/3Drendering/Mask3DUtils.js:150-153 | the top loop builds the reference top fan |
| Extrusion.BottomCap | src/components/3Drendering/Mask3DUtils.js:155-158 | the bottom loop appends the reference bottom fan |
| Extrusion.CapsAt | src/components/3Drendering/Mask3DUtils.js:150-158 | the two reference fans hold 2n-4 triangles, the top fan's triangle i-1 being (t0, ti, ti+1) and the bottom fan's (b0, bi+1, bi) |
| Extrusion.TopFanAt | src/components/3Drendering/Mask3DUtils.js:151-153 | the reference top fan up to i has i-1 triangles, triangle j-1 being (t0, tj, tj+1) |
| Extrusion.BottomFanAt | src/components/3Drendering/Mask3DUtils.js:156-158 | the reference bottom fan up to i has i-1 triangles, triangle j-1 being (b0, bj+1, bj) |
| Extrusion.SideWalls | src/components/3Drendering/Mask3DUtils.js:160-169 | each ring edge gives triangles (ti, bi, tnext) and (bi, bnext, tnext), with `next` wrapping to 0; the result is the reference side walls |
| Extrusion.SidesAt | src/components/3Drendering/Mask3DUtils.js:161-169 | the reference side walls of the first i edges are 2i triangles, edge j giving (tj, bj, tnext) and (bj, bnext, tnext) |
| Extrusion.ExtrudeContour | src/components/3Drendering/Mask3DUtils.js:127-169 | one contour of n ≥ 3 points gives 2n vertices and 4n-4 triangles in source order, every index inside its own vertex block; these are the reference ring and prism |
| Extrusion.PrismTriangles | src/components/3Drendering/Mask3DUtils.js:150-169 | the three face loops together build the reference prism |
| Extrusion.PrismFacesAt | src/components/3Drendering/Mask3DUtils.js:150-169 | the reference prism of n points has 4n-4 triangles: the top fan, the bottom fan, then two side triangles per ring edge |
| Extrusion.PrismWithin | src/components/3Drendering/Mask3DUtils.js:150-169 | every triangle of the reference prism indexes only its own 2n vertices |
| Extrusion.CapsWithin | src/components/3Drendering/Mask3DUtils.js:150-158 | cap triangles index only this contour's vertices |
| Extrusion.SidesWithin | src/components/3Drendering/Mask3DUtils.js:160-169 | side triangles index only this contour's vertices |
| Extrusion.ContoursToMesh | src/components/3Drendering/Mask3DUtils.js:122-173 | the mesh is the reference mesh of the contours: contours with fewer than 3 points are skipped; 2·(usable points) vertices and Σ(4n-4) triangles; every face index is below the vertex count; every z is ±depth/2 |
| Extrusion.MeshOfShape | src/components/3Drendering/Mask3DUtils.js:122-173 | the reference mesh has 2·(usable points) vertices, Σ(4n-4) triangles, in-range faces and z = ±depth/2 |
| Extrusion.MeshOfCounts | src/components/3Drendering/Mask3DUtils.js:127-169 | the reference mesh's vertex and triangle counts |
| Extrusion.MeshOfPrefix | src/components/3Drendering/Mask3DUtils.js:127 | the mesh of a prefix of the contours is a prefix of the mesh, in vertices and in faces |
| Extrusion.MeshOfSnoc | src/components/3Drendering/Mask3DUtils.js:127-169 | one more usable contour appends its ring and its prism, offset by the vertices before it |
| Extrusion.MeshOfBlock | src/components/3Drendering/Mask3DUtils.js:127-169 | contour i's ring and prism sit at their own offsets in the whole mesh |
| Extrusion.RingBlock | src/components/3Drendering/Mask3DUtils.js:140-148 | contour i's ring sits at vertex offset 2·(usable points before it) |
| Extrusion.PrismBlock | src/components/3Drendering/Mask3DUtils.js:150-169 | contour i's prism sits at its triangle offset, indexing from its ring's offset |
| Extrusion.UsablePointsZero | src/components/3Drendering/Mask3DUtils.js:128 | no vertex is produced iff every contour has fewer than 3 points |
| Extrusion.UsablePointsMonotone | src/components/3Drendering/Mask3DUtils.js:127 | the running vertex count never exceeds the final one |
| Extrusion.AllUsable | src/components/3Drendering/Mask3DUtils.js:127-128 | when every contour has at least 3 points, a non-empty list gives at least 3 points and 8 triangles |
| Extrusion.MaskToMarchingCubes | src/components/3Drendering/Mask3DUtils.js:11-15 | the mesh is the reference mesh of the scan's contours at depth 1; it has only in-range face indices and an even vertex count; an all-background mask gives an empty mesh; a non-empty mesh has at least 6 vertices and 8 triangles |
| Extrusion.MarchingCubesShape | src/components/3Drendering/Mask3DUtils.js:11-15 | the reference marching-cubes mesh has in-range faces and an even vertex count, is empty for an all-background mask, and has at least 6 vertices and 8 triangles when not empty |
| Extrusion.MarchingCubesNotEmpty | src/components/3Drendering/Mask3DUtils.js:11-15 | when the first foreground pixel starts a walk of more than 2 points, the mesh has at least 6 vertices and 8 triangles |
| Extrusion.CornerMeshEmpty | src/components/3Drendering/Mask3DUtils.js:11-15 | three foreground pixels can give no mesh: an L in the corner of a grid |
| Extrusion.FullSquareMesh | src/components/3Drendering/Mask3DUtils.js:11-15 | a 2 x 2 foreground square in the corner of a grid gives 8 vertices and 12 triangles |
| Voxels.RowPixelsMembership | src/components/3Drendering/Mask3DUtils.js:188-190 | a row's list holds exactly the pixels of that row, left of the scan bound, whose value exceeds the threshold |
| Voxels.RowPixelsListed | src/components/3Drendering/Mask3DUtils.js:188-190 | every listed pixel of a row is in that row, in range and above the threshold |
| Voxels.ForegroundListed | src/components/3Drendering/Mask3DUtils.js:187-190 | every pixel the scan lists is an in-bounds foreground pixel |
| Voxels.ForegroundComplete | src/components/3Drendering/Mask3DUtils.js:187-190 | every in-bounds foreground pixel is listed |
| Voxels.ForegroundMembership | src/components/3Drendering/Mask3DUtils.js:187-190 | the scan lists a pixel iff it is in bounds and above the threshold |
| Voxels.RowPixelsSorted | src/components/3Drendering/Mask3DUtils.js:188 | a row's pixels are listed left to right |
| Voxels.ForegroundSorted | src/components/3Drendering/Mask3DUtils.js:187-188 | the listed pixels are in strict row-major order |
| Voxels.MaskToVoxels | src/components/3Drendering/Mask3DUtils.js:184-202 | exactly one voxel per foreground pixel, in row-major order, at ((x/w)·2-1, (y/h)·2-1, 0) with the given size |
| Voxels.VoxelInRange | src/components/3Drendering/Mask3DUtils.js:191-196 | each voxel lies in [-1, 1) on x and y and at z = 0 |
| HeightField.MaskToHeightMap | src/components/3Drendering/Mask3DUtils.js:212-225 | the heights array has width·height entries, entry i is mask[i]·maxHeight when the mask has it and 0 otherwise, and width, height and maxHeight are passed through |
| HeightField.BinaryHeights | src/components/3Drendering/Mask3DUtils.js:215-217 | a 0/1 mask gives heights that are 0 or maxHeight |
| HeightField.HeightRange | src/components/3Drendering/Mask3DUtils.js:215-217 | a mask in [0,1] gives heights in [0, maxHeight] |
| HeightField.ElevationOfMask | src/components/3Drendering/Mask3DUtils.js:324 | after the two passes a vertex's z is mask[i]·2-1, independent of maxHeight |
| HeightField.RowSamples | src/components/3Drendering/Mask3DUtils.js:320-328 | one row of the vertex loop gives that row's vertices and uv pairs |
| HeightField.RowTriangles | src/components/3Drendering/Mask3DUtils.js:333-344 | one row of quads gives (TL,BL,TR),(TR,BL,BR) for each cell |
| HeightField.HeightMapToMesh | src/components/3Drendering/Mask3DUtils.js:313-348 | vertices, uvs and faces are the full row-major grids of samples and quad triangles |
| HeightField.SampleCounts | src/components/3Drendering/Mask3DUtils.js:319-329 | the mesh has w·h vertices and w·h uv pairs |
| HeightField.TriangleShape | src/components/3Drendering/Mask3DUtils.js:332-345 | the mesh has 2·(w-1)·(h-1) triangles and every index is below w·h |
| HeightField.GridCounts | src/components/3Drendering/Mask3DUtils.js:319-329 | the first r rows give r·w vertices and r·w uv pairs |
| HeightField.GridFacesWithin | src/components/3Drendering/Mask3DUtils.js:332-345 | the first r rows of quads give 2r(w-1) triangles inside the first (r+1)·w vertices |
| HeightField.RowFacesWithin | src/components/3Drendering/Mask3DUtils.js:333-344 | one row of quads indexes only its own and the next row's vertices |
| HeightField.CoordRange | src/components/3Drendering/Mask3DUtils.js:322-327 | grid coordinates lie in [-1, 1] and uvs in [0, 1] |
| Smoothing.CenterCounted | src/components/3Drendering/Mask3DUtils.js:244-256 | the centre pixel is always in the window, so the count is at least 1 and `sum / count` never divides by zero |
| Smoothing.RowTotals | src/components/3Drendering/Mask3DUtils.js:245-253 | the inner kernel loop sums exactly the in-bounds values of one window row and counts them |
| Smoothing.WindowTotals | src/components/3Drendering/Mask3DUtils.js:241-254 | the kernel loops sum exactly the in-bounds values of the window and count them |
| Smoothing.TotalsConcat | src/components/3Drendering/Mask3DUtils.js:244-254 | running sums and counts of consecutive window rows add up |
| Smoothing.SumConcat | src/components/3Drendering/Mask3DUtils.js:250 | the sum of two concatenated value lists is the sum of their sums |
| Smoothing.DistinctCells | src/components/3Drendering/Mask3DUtils.js:256 | different pixels write different output cells |
| Smoothing.WriteStep | src/components/3Drendering/Mask3DUtils.js:256 | writing one pixel's mean keeps every earlier pixel's mean and the untouched tail |
| Smoothing.SmoothRow | src/components/3Drendering/Mask3DUtils.js:240-257 | one row of the outer loop writes that row's means and keeps the rest |
| Smoothing.SmoothMask | src/components/3Drendering/Mask3DUtils.js:235-261 | a fresh array of the input's length; each in-bounds pixel gets the mean of its in-bounds (2⌊k/2⌋+1)² window; cells past width·height stay 0 |
| Smoothing.MeanBounds | src/components/3Drendering/Mask3DUtils.js:241-256 | if every mask value lies in [a, b] then every smoothed value does |
| Smoothing.MeanOfConstant | src/components/3Drendering/Mask3DUtils.js:241-256 | a constant mask is smoothed to the same constant |
| Smoothing.AverageBounds | src/components/3Drendering/Mask3DUtils.js:256 | the mean of values in [a, b] lies in [a, b] |
| Smoothing.SumBounds | src/components/3Drendering/Mask3DUtils.js:250 | n values in [a, b] sum to between n·a and n·b |
| TileLayout.TotalOfConstant | src/utils/Reconstructor.js:48-49 | an array filled with c has total length·c |
| TileLayout.TileSizes | src/utils/Reconstructor.js:44-53 | count sizes; all but the last equal ⌊full/count⌋; the last is base + full mod count and at least base; all are ≥ 0, and ≥ 1 when full ≥ count; they sum to full exactly |
| TileLayout.LastSlot | src/utils/Reconstructor.js:52-53 | the last tile is base + (full mod count), and base ≥ 1 when full ≥ count |
| TileLayout.SlotOf | src/utils/Reconstructor.js:76-79 | the slot of a canvas position is a valid tile index |
| TileLayout.SlotEnds | src/utils/Reconstructor.js:76-79 | every destination span starts at ≥ 0 and ends at ≤ full |
| TileLayout.SlotPartition | src/utils/Reconstructor.js:76-79 | each position in [0, full) lies in exactly one tile's span, and none outside does |
| TileLayout.InnerSlot | src/utils/Reconstructor.js:76-79 | for the tiles before the last, lying in a tile's span is being in that tile's slot |
| TileLayout.RectanglesTileCanvas | src/utils/Reconstructor.js:69-81 | the destination rectangles are pairwise disjoint and cover [0,W)×[0,H) exactly |
| Reconstructor.KeysInjective | src/utils/Reconstructor.js:59-60 | distinct rows and columns have distinct `row_y`/`column_x` keys |
| Reconstructor.Fit | src/utils/Reconstructor.js:70-80 | drawing into a slot yields an image of the slot's size and leaves an image already of that size unchanged |
| Reconstructor.RowRequests | src/utils/Reconstructor.js:58-66 | one row succeeds iff every tile of the row is present; it then requests each column once, in order |
| Reconstructor.RequestTiles | src/utils/Reconstructor.js:56-67 | requests exist iff every tile is present; there are tilesX·tilesY of them and request k is for grid position k in row-major order |
| Reconstructor.RowAppended | src/utils/Reconstructor.js:57-67 | appending one complete row keeps the request list equal to the row-major grid so far |
| Reconstructor.RequestsCoverGrid | src/utils/Reconstructor.js:57-67 | every (x, y) of the grid is requested exactly once |
| Reconstructor.LoadTiles | src/utils/Reconstructor.js:65-68 | loading succeeds iff every tile decodes, and the loaded tiles are in request order with their positions |
| Reconstructor.CompositeImage | src/utils/Reconstructor.js:37-81 | the composite has the full canvas size |
| Reconstructor.SlotShowsItsTile | src/utils/Reconstructor.js:69-81 | inside tile (x, y)'s rectangle the composite shows that tile's pixel at the offset from the rectangle's origin |
| Reconstructor.DrawTile | src/utils/Reconstructor.js:70-80 | drawing writes exactly the tile's rectangle and keeps every other canvas pixel |
| Reconstructor.DrawnRectangle | src/utils/Reconstructor.js:76-79 | a canvas pixel is in tile k's rectangle iff k is the tile whose slot holds it |
| Reconstructor.DrawSlot | src/utils/Reconstructor.js:69-81 | one iteration of the draw loop extends the drawn region by tile k's rectangle |
| Reconstructor.PlacedPixel | src/utils/Reconstructor.js:70-80 | a drawn pixel comes from the fitted tile at an offset from (x·baseW, y·baseH) |
| Reconstructor.ReadCanvas | src/utils/Reconstructor.js:83 | reading the canvas gives an image of its size with its pixels |
| Reconstructor.Compose | src/utils/Reconstructor.js:37-81 | drawing every loaded tile gives the composite image |
| Reconstructor.GridTiles | src/utils/Reconstructor.js:57-68 | the loaded grid has tilesX·tilesY tiles |
| Reconstructor.ReconstructImage | src/utils/Reconstructor.js:35-87 | the result is the encoded composite when every tile is present and decodes, and `undefined` (None) otherwise |
| Reconstructor.LoadFailure | src/utils/Reconstructor.js:68-86 | a tile that fails to decode makes the whole reconstruction fail |
| Reconstructor.LoadSuccess | src/utils/Reconstructor.js:65-68 | when every tile decodes, the loaded list is the row-major grid of decoded tiles |
| Reconstructor.MissingTileFails | src/utils/Reconstructor.js:61-86 | an absent, null or empty tile makes the function return `undefined` |
| Reconstructor.ReconstructedShowsTiles | src/utils/Reconstructor.js:35-83 | on success each canvas pixel in tile (x, y)'s rectangle is that tile's decoded pixel |
| Reconstructor.UpdatedLayerIdempotent | src/utils/Reconstructor.js:5-11 | updating a layer twice gives the same fields as once |
| Reconstructor.ReconstructMasks | src/utils/Reconstructor.js:1-15 | returns the same item objects; each item with an object `split` gets `png` set to its reconstruction, and the others are left alone; the caller's items are the ones changed |
| FloorPlan.PointInPolygon | src/components/3Drendering/FloorPlan3D.jsx:5-16 | the result is the parity of the edges that straddle the point's horizontal with their crossing to its right; an empty polygon gives false |
| FloorPlan.CrossingBetween | src/components/3Drendering/FloorPlan3D.jsx:11-12 | when an edge straddles the horizontal (so yi ≠ yj) its crossing lies left of any bound both ends lie left of |
| FloorPlan.NoStraddleNoCrossing | src/components/3Drendering/FloorPlan3D.jsx:11 | if no vertex is on the other side of the horizontal, no edge toggles |
| FloorPlan.OutsideVerticalExtent | src/components/3Drendering/FloorPlan3D.jsx:5-16 | a point above or below the whole polygon is outside |
| FloorPlan.RightOfAllNoCrossing | src/components/3Drendering/FloorPlan3D.jsx:12 | if every vertex is left of the point, no edge toggles |
| FloorPlan.OutsideToTheRight | src/components/3Drendering/FloorPlan3D.jsx:5-16 | a point right of every vertex is outside |
| FloorPlan.SectionsAppend | src/components/3Drendering/FloorPlan3D.jsx:66-68 | the filter and map act element by element |
| FloorPlan.SectionsMembership | src/components/3Drendering/FloorPlan3D.jsx:66-68 | sections are exactly the array entries with at least 3 points, each with no holes |
| FloorPlan.FirstContaining | src/components/3Drendering/FloorPlan3D.jsx:74 | `find` returns the first section whose outer ring contains the point, or none when no ring does |
| FloorPlan.HolesMembership | src/components/3Drendering/FloorPlan3D.jsx:70-77 | a section's holes are exactly the usable inner rings whose first point falls first inside that section |
| FloorPlan.HoleHasOneParent | src/components/3Drendering/FloorPlan3D.jsx:74-75 | a hole is given to at most one section, and a hole in no section is dropped |
| FloorPlan.FindSection | src/components/3Drendering/FloorPlan3D.jsx:74 | the search over the sections array is `find` with `pointInPolygon` |
| FloorPlan.AssignHoles | src/components/3Drendering/FloorPlan3D.jsx:70-77 | outer rings are unchanged and each section's holes grow by exactly its holes, in input order |
| FloorPlan.PlaceHole | src/components/3Drendering/FloorPlan3D.jsx:72-76 | one `forEach` step pushes the hole into its parent section only |
| FloorPlan.HolesForSnoc | src/components/3Drendering/FloorPlan3D.jsx:73-75 | one more inner ring adds itself to its parent's hole list and nothing else |
| FloorPlan.HoleAdded | src/components/3Drendering/FloorPlan3D.jsx:75 | pushing into the parent keeps the sections equal to the holes assigned so far |
| FloorPlan.HoleSkipped | src/components/3Drendering/FloorPlan3D.jsx:72-75 | a ring that is filtered out or has no parent leaves the sections as they were |
| FloorPlan.BoxOf | src/components/3Drendering/FloorPlan3D.jsx:45-49 | the box is empty iff there are no points, and otherwise holds every point |
| FloorPlan.BoxIsTight | src/components/3Drendering/FloorPlan3D.jsx:45-49 | each side of the box is attained by some point |
| FloorPlan.BoundingBox | src/components/3Drendering/FloorPlan3D.jsx:46-49 | growing the box point by point gives the bounding box of all points |
| FloorPlan.FlattenContains | src/components/3Drendering/FloorPlan3D.jsx:45 | every point of every outer ring is in the flattened list |
| FloorPlan.TransformInTarget | src/components/3Drendering/FloorPlan3D.jsx:51-85 | a point in the box, centred and scaled by 100/max(w,h), lands in [-50, 50]² |
| FloorPlan.TransformRingInTarget | src/components/3Drendering/FloorPlan3D.jsx:83-85 | every point of a ring inside the box lands in [-50, 50]² after centring and scaling |
| FloorPlan.CapElevation | src/components/3Drendering/FloorPlan3D.jsx:80-111 | the cap sits strictly above the extruded wall |
| FloorPlan.PlanShapes | src/components/3Drendering/FloorPlan3D.jsx:66-93 | the shapes are the transformed sections, with the holes assigned to each |
| FloorPlan.PlanInTarget | src/components/3Drendering/FloorPlan3D.jsx:45-85 | every scaled outer point lies in [-50, 50]² |
| FloorPlan.SectionInTarget | src/components/3Drendering/FloorPlan3D.jsx:45-85 | one point of one section, scaled, lies in [-50, 50]² |
| FloorPlan.BuildFloorPlan | src/components/3Drendering/FloorPlan3D.jsx:21-111 | nothing when there are no outer points; otherwise one shape per usable section with its transformed outer ring and transformed holes; outer points in [-50, 50]²; wall height 500·scale > 0; cap above the wall |
| JsValues.OptGet | src/providers/FileProvider.jsx:48-51 | `v?.k` is undefined on a nullish v and the property read otherwise |
| JsValues.OrAssociative | src/providers/FileProvider.jsx:49-50 | `a \|\| b \|\| c` gives the same value however it is grouped, so the chained fallbacks pick the first truthy operand |
| JsValues.OrTruthy | src/providers/FileProvider.jsx:49-50 | `a \|\| b` is truthy iff a or b is |
| JsValues.ParseIndexRoundTrip | src/providers/FileProvider.jsx:50 | the array-index key of n reads back as n |
| JsValues.AllNatToStringInjective | src/providers/FileProvider.jsx:50 | distinct indices have distinct keys |
| JsValues.DigitsValueRoundTrip | src/providers/FileProvider.jsx:50 | decimal printing is inverted by reading the digits |
| JsValues.MapFrom | src/providers/FileProvider.jsx:13-48 | mapping a suffix succeeds iff every call succeeds, and then element k is the callback's result on item k |
| JsValues.MapArray | src/providers/FileProvider.jsx:13-48 | `.map` on a non-array throws; otherwise it has the array's length and element k is f(item k, k), and it throws iff some call throws |
| ResultFiles.ActionDispatch | src/providers/FileProvider.jsx:7-8 | the reducer dispatches on `action.type` |
| ResultFiles.SegmentationReplacesOnlySegmentation | src/providers/FileProvider.jsx:9 | `segmentation` replaces that field and keeps every other field |
| ResultFiles.GraphReplacesOnlyGraph | src/providers/FileProvider.jsx:11 | `graph` replaces that field and keeps every other field |
| ResultFiles.MapSegmentationShape | src/providers/FileProvider.jsx:13-44 | a case mapping the layers succeeds iff the callback does on every layer; the result keeps the length and every other field |
| ResultFiles.LayerSetsPng | src/providers/FileProvider.jsx:13-16 | `layer` sets `png` to the whole payload on items with the payload's class and leaves the others as they are |
| ResultFiles.NullishLayerThrows | src/providers/FileProvider.jsx:14-21 | a nullish item or payload throws |
| ResultFiles.TileSplitChangesOneCell | src/providers/FileProvider.jsx:18-35 | on the matching item `tile_split` sets split[row][column]; it keeps the other cells of the row, the other rows and the other fields |
| ResultFiles.TileSplitSkipsOtherClasses | src/providers/FileProvider.jsx:21-33 | items of another class are returned unchanged |
| ResultFiles.TileSplitThrowsWithoutSplit | src/providers/FileProvider.jsx:27 | a matching item without `split` throws |
| ResultFiles.LayerSplitReplacesSplit | src/providers/FileProvider.jsx:37-40 | `layer_split` replaces the whole split of the matching item only |
| ResultFiles.AllSplitByClass | src/providers/FileProvider.jsx:42-44 | `all_split` sets each item's split to `value[item.class]` and keeps its other fields |
| ResultFiles.AllResultKeepsSplits | src/providers/FileProvider.jsx:46-53 | `all_result` keeps each incoming item; its split is its own, else the previous state's split at the same index, else `{row_0:{column_0:''}}`; `graph` falls back to the state's |
| ResultFiles.AllResultCase | src/providers/FileProvider.jsx:47-52 | the `all_result` case on an incoming layer array, as above |
| ResultFiles.KeepSplitValue | src/providers/FileProvider.jsx:49-50 | the split fallback chain for one item |
| ResultFiles.AllResultWithoutLayers | src/providers/FileProvider.jsx:48-51 | without incoming layers the state's segmentation is kept and `graph` falls back |
| ResultFiles.AllWithEmptyPayload | src/providers/FileProvider.jsx:55-59 | `all` with an undefined or empty payload keeps both fields |
| ResultFiles.AllTakesPayload | src/providers/FileProvider.jsx:55-59 | `all` with both fields truthy takes both |
| ResultFiles.DispatchAll | src/providers/FileProvider.jsx:55-59 | `all` takes each field from the payload when truthy, else from the state |
| ResultFiles.DispatchAllResult | src/providers/FileProvider.jsx:46-53 | the `all_result` type reaches its case |
| ResultFiles.DispatchEditSegmentation | src/providers/FileProvider.jsx:61-69 | the `edit_segmentation` type reaches its case |
| ResultFiles.EditSegmentationShape | src/providers/FileProvider.jsx:61-69 | the result has exactly the keys `graph` (the state's graph) and `segmentation`; each incoming entry becomes a layer that keeps the entry's own fields, with `png` that entry and `split` the previous split at its index, or the empty split |
| ResultFiles.EditSegmentationCase | src/providers/FileProvider.jsx:62-68 | the `edit_segmentation` case itself: the same keys, graph and whole layers |
| ResultFiles.UnknownTypeKeepsState | src/providers/FileProvider.jsx:71 | any other action type returns the state unchanged |
| ResultFiles.NullishActionThrows | src/providers/FileProvider.jsx:8 | reading `type` of a nullish action throws |
| ResultFiles.InitialState | src/providers/FileProvider.jsx:75-91 | the initial state has exactly `segmentation` and `graph` |
| ResultFiles.InitialStateShape | src/providers/FileProvider.jsx:75-91 | nine layers with distinct classes, empty png and the empty split; `all` with the initial state as payload gives it back |
| ResultFiles.InitialClassesDistinct | src/providers/FileProvider.jsx:76-84 | the nine classes are distinct |
| ResultFiles.InitialStateReset | src/providers/FileProvider.jsx:55-91 | `all` with the initial state as payload yields the initial state |
| MaskRenderer.ProcessMask | src/components/3Drendering/AdvancedMask3DRenderer.jsx:136-183 | a falsy input leaves the data as it was; a failed decode clears it; typed arrays and arrays pass their contents; anything else becomes width·height zeros; smoothing applies the windowed mean iff the option is set |
| MaskRenderer.Scene.Add | src/components/3Drendering/AdvancedMask3DRenderer.jsx:299-305 | `scene.add` appends one fresh child |
| MaskRenderer.Scene.Remove | src/components/3Drendering/AdvancedMask3DRenderer.jsx:198 | `scene.remove` drops the first occurrence of the child and keeps the others in order |
| MaskRenderer.SpliceKeepsIds | src/components/3Drendering/AdvancedMask3DRenderer.jsx:198 | removing one child keeps the child identities distinct |
| MaskRenderer.RemoveAt | src/components/3Drendering/AdvancedMask3DRenderer.jsx:198 | removing the first occurrence is splicing at its index |
| MaskRenderer.ClearableMembership | src/components/3Drendering/AdvancedMask3DRenderer.jsx:195-197 | the filter selects exactly the children that are meshes flagged as mask geometry |
| MaskRenderer.ClearableDistinct | src/components/3Drendering/AdvancedMask3DRenderer.jsx:195-197 | the selected children are distinct |
| MaskRenderer.RemoveStep | src/components/3Drendering/AdvancedMask3DRenderer.jsx:198 | removing one more selected child removes it from what is left |
| MaskRenderer.ClearStep | src/components/3Drendering/AdvancedMask3DRenderer.jsx:198 | one `forEach` step removes the next selected child |
| MaskRenderer.KeepClearable | src/components/3Drendering/AdvancedMask3DRenderer.jsx:194-198 | removing exactly the clearable children leaves the retained ones |
| MaskRenderer.ClearDone | src/components/3Drendering/AdvancedMask3DRenderer.jsx:194-198 | after the loop only the retained children are left |
| MaskRenderer.RetainedMembership | src/components/3Drendering/AdvancedMask3DRenderer.jsx:194-198 | the retained children are exactly those that are not flagged mask meshes |
| MaskRenderer.ClearMaskGeometry | src/components/3Drendering/AdvancedMask3DRenderer.jsx:194-198 | the scene keeps exactly its non-mask children, in order |
| MaskRenderer.RetainedAppend | src/components/3Drendering/AdvancedMask3DRenderer.jsx:195-197 | filtering acts piece by piece |
| MaskRenderer.RetainedNoneClearable | src/components/3Drendering/AdvancedMask3DRenderer.jsx:195-197 | lights and other children are all kept |
| MaskRenderer.RetainedAllClearable | src/components/3Drendering/AdvancedMask3DRenderer.jsx:195-197 | added mask meshes are all cleared |
| MaskRenderer.RegenerationReplaces | src/components/3Drendering/AdvancedMask3DRenderer.jsx:194-216 | regenerating clears everything the previous generation added, and only that |
| MaskRenderer.NoForeground | src/components/3Drendering/Mask3DUtils.js:187-190 | an empty grid or an all-background mask has no foreground pixels |
| MaskRenderer.EmptyMaskNoVoxels | src/components/3Drendering/AdvancedMask3DRenderer.jsx:279-283 | an all-background mask gives no voxels |
| MaskRenderer.Capped | src/components/3Drendering/AdvancedMask3DRenderer.jsx:292-293 | the rendered voxels are the first min(n, 10000) voxels |
| MaskRenderer.VoxelMeshesClearable | src/components/3Drendering/AdvancedMask3DRenderer.jsx:299-305 | every voxel mesh is flagged as mask geometry |
| MaskRenderer.ComputeVoxels | src/components/3Drendering/AdvancedMask3DRenderer.jsx:279 | the voxel list of the mask |
| MaskRenderer.CreateVoxelGeometry | src/components/3Drendering/AdvancedMask3DRenderer.jsx:277-314 | one flagged mesh per rendered voxel, at the voxel's position, appended in order |
| MaskRenderer.CreateInstancedVoxelGeometry | src/components/3Drendering/AdvancedMask3DRenderer.jsx:317-344 | no voxels add nothing; otherwise exactly one mesh is appended, with exactly n instances, instance i at voxel i's position, uncapped |
| MaskRenderer.CreateMarchingCubesGeometry | src/components/3Drendering/AdvancedMask3DRenderer.jsx:241-274 | the mesh built is the extruded surface of the mask's contours; when it has vertices it is added as exactly one flagged mesh; otherwise the capped voxel path runs; an all-background mask adds nothing |
| MaskRenderer.HeightSurfaceNonEmpty | src/components/3Drendering/AdvancedMask3DRenderer.jsx:349-352 | the height surface always has w·h > 0 vertices, so the mesh is added |
| MaskRenderer.CreateHeightMapGeometry | src/components/3Drendering/AdvancedMask3DRenderer.jsx:347-376 | one flagged height-map mesh is appended |
| MaskRenderer.ParseStyle | src/components/3Drendering/AdvancedMask3DRenderer.jsx:201-216 | `voxels`, `height_map` and `instanced_voxels` select their paths; every other string is handled like `marching_cubes` |
| MaskRenderer.GenerateGeometry | src/components/3Drendering/AdvancedMask3DRenderer.jsx:189-216 | without initialisation or data nothing changes; otherwise the retained children stay first and everything after them is new mask geometry; each style, the default marching cubes included, appends exactly the objects its geometry builder adds |
| MaskCanvas.LoadImage | src/components/MaskCanvas.jsx:5-18 | a File becomes an object URL, a string gets the PNG data-URL prefix, anything else is rejected |
| MaskCanvas.LoadImageKeepsPayload | src/components/MaskCanvas.jsx:15 | the data URL carries the string unchanged after the prefix |
| MaskCanvas.Clamp | src/components/MaskCanvas.jsx:67-69 | a value stored into the clamped byte array lies in [0, 255] and is kept when already in range |
| MaskCanvas.RecolouredBytes | src/components/MaskCanvas.jsx:65-73 | a pixel with R, G or B > 10 gets the colour on RGB with alpha unchanged; any other pixel gets alpha 0 with RGB unchanged |
| MaskCanvas.RecolouredPixelBytes | src/components/MaskCanvas.jsx:65-73 | byte k of pixel p depends only on pixel p's own bytes |
| MaskCanvas.RecolouredPrefix | src/components/MaskCanvas.jsx:65 | recolouring one more pixel leaves the earlier bytes alone |
| MaskCanvas.RecolouredLast | src/components/MaskCanvas.jsx:66-72 | the last recoloured pixel's bytes follow the per-pixel rule |
| MaskCanvas.DarkPixelsIgnoreColour | src/components/MaskCanvas.jsx:71 | with no bright pixel the colour is never read |
| MaskCanvas.DarkIgnoresColour | src/components/MaskCanvas.jsx:63-73 | a layer without bright pixels recolours the same whatever its colour |
| MaskCanvas.RecolourLayer | src/components/MaskCanvas.jsx:63-73 | the loop changes the buffer in place into the recoloured buffer; it throws (layer dropped) iff the class has no colour and some pixel is bright |
| MaskCanvas.VisitPixel | src/components/MaskCanvas.jsx:66-72 | one iteration recolours its pixel, or throws on a missing colour at a bright pixel |
| MaskCanvas.RecolourNext | src/components/MaskCanvas.jsx:66-72 | one iteration extends the recoloured prefix by one pixel |
| MaskCanvas.RecolourPixelAt | src/components/MaskCanvas.jsx:66-72 | only the four bytes of the pixel change |
| MaskCanvas.RecolourDone | src/components/MaskCanvas.jsx:65-73 | after the last pixel the buffer is the recoloured buffer |
| MaskCanvas.UntouchedPixel | src/components/MaskCanvas.jsx:66 | the test reads the pixel's original bytes |
| MaskCanvas.NoBrightPixels | src/components/MaskCanvas.jsx:66 | scanning every pixel dark means no pixel is bright |
| MaskCanvas.ProcessedLayer | src/components/MaskCanvas.jsx:51-80 | a processed layer keeps its class and has width·height pixels; an invalid source yields none |
| MaskCanvas.ProcessLayer | src/components/MaskCanvas.jsx:51-80 | per-layer processing: load, rasterise, recolour, or drop on any failure |
| MaskCanvas.LayerMapKeys | src/components/MaskCanvas.jsx:85-90 | the map has a key for exactly the classes of the layers that survived |
| MaskCanvas.LayerMapLast | src/components/MaskCanvas.jsx:87-89 | with repeated classes the last surviving layer wins |
| MaskCanvas.CollectLayers | src/components/MaskCanvas.jsx:85-90 | the `filter`/`reduce` loop builds the class map |
| MaskCanvas.ProcessedLayers | src/components/MaskCanvas.jsx:51-83 | one result per layer, in order |
| MaskCanvas.ProcessAllLayers | src/components/MaskCanvas.jsx:44-96 | no segmentation, no colours or a zero size give null; otherwise the collected class map |
| MaskCanvas.Canvas2D.DrawImage | src/components/MaskCanvas.jsx:125 | a draw is recorded with the current alpha |
| MaskCanvas.Canvas2D.SetAlpha | src/components/MaskCanvas.jsx:122-128 | only `globalAlpha` changes |
| MaskCanvas.Canvas2D.Resize | src/components/MaskCanvas.jsx:103-104 | setting the size resets the context |
| MaskCanvas.Canvas2D.ClearAll | src/components/MaskCanvas.jsx:107 | clearing drops earlier drawing |
| MaskCanvas.VisibleClassesMembership | src/components/MaskCanvas.jsx:123-124 | a class is drawn iff it is toggled on and has a processed layer |
| MaskCanvas.VisibleClassesProcessed | src/components/MaskCanvas.jsx:124-125 | only processed layers are drawn |
| MaskCanvas.DrawVisibleLayers | src/components/MaskCanvas.jsx:98-132 | nothing without a size; otherwise the canvas is resized and cleared, the background is drawn, the visible layers are drawn in toggle order at the opacity, and alpha ends at 1.0 |
| DataUrls.PngDataUrl | src/components/MaskCanvas.jsx:15 | the data URL is the PNG prefix followed by the payload |
| DataUrls.StripPngPrefix | src/components/edit/CanvasEditor.jsx:53 | a leading PNG prefix is removed and anything else is kept |
| DataUrls.StripAfterPrefix | src/components/edit/CanvasEditor.jsx:53 | stripping undoes prefixing |
| CanvasEditor.ToUint8 | src/components/edit/CanvasEditor.jsx:59 | a store into a byte array wraps into [0, 256) and keeps bytes unchanged |
| CanvasEditor.BytesOf | src/components/edit/CanvasEditor.jsx:55-60 | one byte per character |
| CanvasEditor.BytesOfByteString | src/components/edit/CanvasEditor.jsx:58-60 | byte i is the char code of character i, and the bytes read back as the string |
| CanvasEditor.Base64ToFile | src/components/edit/CanvasEditor.jsx:52-64 | strips the prefix, decodes and fills a buffer of the decoded length with the char codes; the file is a PNG named as given; a failed decode yields no file |
| CanvasEditor.FileOfDataUrl | src/components/edit/CanvasEditor.jsx:52-60 | a data URL turns into the bytes of its payload |
| CanvasEditor.DeleteNearMembership | src/components/edit/CanvasEditor.jsx:268-272 | delete keeps exactly the points farther than 10 from the click |
| CanvasEditor.DeleteNearKeepsOrder | src/components/edit/CanvasEditor.jsx:269-272 | delete never grows the list and keeps a list with no near point unchanged |
| CanvasEditor.DeleteNearInOrder | src/components/edit/CanvasEditor.jsx:269-272 | the kept points are the original points at strictly increasing positions, and those positions are exactly the far ones, so every far occurrence is kept in its relative order |
| CanvasEditor.DeleteNearIdempotent | src/components/edit/CanvasEditor.jsx:269-272 | deleting twice at the same place is deleting once |
| CanvasEditor.AddPoint | src/components/edit/CanvasEditor.jsx:273-276 | one point is appended with the mode's label and earlier points stay |
| CanvasEditor.Undo | src/components/edit/CanvasEditor.jsx:320 | undo drops the last point; an empty list stays empty |
| CanvasEditor.UndoAfterAdd | src/components/edit/CanvasEditor.jsx:275-320 | undo reverses an added point |
| CanvasEditor.HandleClick | src/components/edit/CanvasEditor.jsx:258-277 | no model keeps the points; delete mode keeps the far points; other modes append one point that undo removes |
| CanvasEditor.PromptCoordsAt | src/components/edit/CanvasEditor.jsx:154-160 | coords[2i] = x_i and coords[2i+1] = y_i |
| CanvasEditor.PromptRoundTrip | src/components/edit/CanvasEditor.jsx:154-160 | the coords and labels decode back to the points |
| CanvasEditor.EncodePrompt | src/components/edit/CanvasEditor.jsx:154-160 | the loop fills the coords (2n) and the labels (n) |
| CanvasEditor.RedChannelRange | src/components/edit/CanvasEditor.jsx:125-128 | entry i lies in [0, 1] and is the red byte of pixel i divided by 255 |
| CanvasEditor.NormalizeRedChannel | src/components/edit/CanvasEditor.jsx:125-128 | the loop fills 256·256 entries with the normalised red bytes |
| CanvasEditor.MaskInputOf | src/components/edit/CanvasEditor.jsx:162-174 | the mask input always has 256·256 entries |
| CanvasEditor.MaskInput | src/components/edit/CanvasEditor.jsx:162-174 | a usable split is rasterised and normalised; a failure or no split gives zeros |
| CanvasEditor.GenerateMask | src/components/edit/CanvasEditor.jsx:138-192 | no model or image gives null; no points and no split give the empty mask; otherwise the inference result on the encoded feeds |
| CanvasEditor.Binarized | src/components/edit/CanvasEditor.jsx:213-220 | the RGBA buffer has 4·w·h bytes |
| CanvasEditor.BinarizedPixel | src/components/edit/CanvasEditor.jsx:214-220 | all four bytes of a pixel are equal, and positive iff its mask value is > 0 |
| CanvasEditor.BinarizeMask | src/components/edit/CanvasEditor.jsx:213-220 | the loop writes each pixel's four bytes as 255 or 0 |
| CanvasEditor.WritePixel | src/components/edit/CanvasEditor.jsx:216-219 | only the four bytes of the pixel change |
| CanvasEditor.SetByte | src/components/edit/CanvasEditor.jsx:216 | only the addressed byte changes, and a store past the end is ignored |
| CanvasEditor.BinarizedStep | src/components/edit/CanvasEditor.jsx:214-220 | one iteration extends the binarised prefix by one pixel |
| CanvasEditor.BinarizedDone | src/components/edit/CanvasEditor.jsx:213-220 | after the loop the buffer is the binarised mask |
| CanvasEditor.OverlayAsMaskInput | src/components/edit/CanvasEditor.jsx:125-220 | a 256×256 binarised mask read back as mask input gives 1.0 where the mask was positive and 0.0 elsewhere |

## Left out

- JavaScript numbers are unbounded integers or reals. NaN, `undefined` arithmetic, IEEE-754 rounding and Float32 storage are not modelled. Non-integer values are not modelled where the source stores into integer arrays.
- JavaScript object key order, prototypes and object identity are not modelled. Strict equality of two objects or arrays is taken as never equal.
- Image decoding, canvas resampling, `atob`, `toDataURL`, rasterisation and ONNX inference are parameters. Object URLs and their revocation are left out.
- `Promise.all` in `Reconstructor.js` and `MaskCanvas.jsx` runs as a sequential loop in request order.
- Console logging, `alert` and React state setters are left out. A setter call is modelled as the returned value.
- `maskToMarchingCubes` never throws in the model, so the renderer's `catch` fallback at src/components/3Drendering/AdvancedMask3DRenderer.jsx:269-273 is covered only through the empty-mesh fallback.
- HeightField.HeightMapToMesh: requires w, h ≥ 2 and maxHeight ≠ 0, because the source divides by w-1, h-1 and maxHeight.
- FloorPlan.BuildFloorPlan: requires a non-degenerate bounding box, because the source divides 100 by the box size.
- FloorPlan.BuildFloorPlan: the wall and cap meshes (`ExtrudeGeometry`/`ShapeGeometry` triangulation), materials, lights and camera are left out.
- MaskCanvas.RecolourLayer: requires the buffer length to be a multiple of 4, as canvas RGBA buffers are.
- CanvasEditor.WritePixel: requires the buffer length to be a multiple of 4, as canvas RGBA buffers are.
- CanvasEditor.HandleClick takes the click in canvas coordinates. The CSS scaling at src/components/edit/CanvasEditor.jsx:261-266 is left out.
- The marker drawing and `setTempMask` in `renderMask` are left out. So are `handleSave` and the upload flow.
- `reconstructMasksWithBackend` references undefined names and calls the network.
- MaskRenderer.ProcessMask: requires an array input to hold at least width·height values when smoothing is on. The source would read `undefined` past the end and average to NaN, which the model does not represent.
- `base64ToMaskData` (a canvas decode) becomes the decode parameter of MaskRenderer.ProcessMask.
- These parts of the repository are not part of this model:
  - `Mask3DRenderer.jsx`, `Mask3DDemo.jsx` and the option panel in `3Drendering/MaskCanvas.jsx`;
  - IndexedDB persistence and the other effects in `FileProvider.jsx`;
  - the pages that call the backend.
- The Three.js scene is a list of tagged children. Geometry buffers, materials and rendering are not modelled.
- Reconstructor.ReconstructMasks: every item is a non-null object. In the source a `null` or `undefined` item throws a TypeError at `item.split` (src/utils/Reconstructor.js:7), and the returned promise rejects. That outcome is not modelled.
- MaskCanvas.ProcessLayer: every layer is a non-null object. In the source a `null` layer throws at `layer.png` (src/components/MaskCanvas.jsx:53) and again inside the `catch` at `layer.id` (src/components/MaskCanvas.jsx:78). `Promise.all` then rejects and the processed layers are never set. That outcome is not modelled.
