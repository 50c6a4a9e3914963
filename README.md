# sandbox-fm visualisation core, in Dafny

A model of the frame logic of `sandbox_fm/plots.py` from sandbox-fm, an augmented-reality sandbox that
runs a flow model and projects its results back onto the sand. Each frame it does the following:

- Gathers the per-cell and per-node fields of the model into H x W images, through nearest-neighbour
  index rasters computed once at start-up.
- Shows the water depth and the bed level.
- Advects a persistent RGBA particle buffer (`lic`) along the flow, with the `warp_flow` sample map
  and a border value of transparent white.
- Clears the particles outside the domain and shows the buffer.
- Drops up to four new white dots centred on wet pixels.
- Clears the particles on dry pixels.

The keyboard handler does the rest:

- switches between four display presets and toggles the particle overlay;
- resets the buffer from the camera;
- writes bed-level edits back into the running model, one `set_var_slice` call per changed entry.

The modules follow that structure:

- `Grids`: rasters as rows of values, RGBA pixels, the extensionality lemma for rasters.
- `Raster`: the index gather, the water-depth layer and the out-of-domain masks.
- `FlowWarp`: image velocities, the sample map of `warp_flow` and the warp over an abstract sampler.
- `Particles`: each step of the buffer update as a function on rasters, the random dots, and what the
  steps guarantee together.
- `Visibility`: layer visibility, the presets and the 'c' toggle.
- `Display`: class `Visualization`. Its buffer is an `array2<Pixel>` that the methods update in place,
  or replace by a new array where the source rebinds `self.lic`. Each method is proved against the
  functions of `FlowWarp` and `Particles`, or against `OpaqueFrame`.
- `Events`: `process_events` and the writes it makes on the model. `Events.ProcessEvents` runs the corrected handler
  of both rows under "## Findings"; the code as written is modelled beside it.

Three behaviours of the code are easy to misread; the model follows the code in all three:

- Key 'p' makes the camera frame fully opaque: the channel it appends (commented "add depth channel") is `np.ones_like`, an alpha of 1.
- "No particle outside the domain" holds for the frame `update` shows (`im_flow.set_data`, which takes
  a copy). It does not hold for the buffer when `update` returns. Seeding runs after the domain mask,
  so a dot drawn outside the domain survives until the next frame. There the warp runs before the mask
  and may carry the dot's colour into the domain.
  `Particles.SeededParticleMayLieOutsideDomain` gives an instance.
- A dot is kept only when its centre pixel holds at least 0.5 of water, but the whole radius-4 disc
  is painted, and the dry masks clear only pixels with no water at all. So a dot may leave a particle
  on a pixel whose water is shallower than 0.5. `Particles.ShallowDiscPixelKeepsParticle` gives an
  instance.

## Model

| member | source | states |
|---|---|---|
| Raster.Gather | sandbox_fm/plots.py:297-301 | the gathered image has the index raster's shape and pixel (y, x) holds `field[index[y][x]]` |
| Raster.GatherRow | sandbox_fm/plots.py:187-191 | one row of the gather: entry x is `field[row[x]]` |
| Raster.WaterDepthIsNearestCellDepth | sandbox_fm/plots.py:305 | `waterlevel_img - depth_cells_img` equals the gather of the per-cell water depth: every pixel shows its nearest cell's depth |
| Raster.CellMask | sandbox_fm/plots.py:185 | `cell_mask` is true exactly where the distance to the nearest cell exceeds 500 |
| Raster.NodeMask | sandbox_fm/plots.py:184 | `node_mask` is true exactly where the distance to the nearest node exceeds 500 |
| Raster.AtLeast | sandbox_fm/plots.py:349-350 | the dry-mask raster is true exactly where the bed level is at least the water level |
| FlowWarp.DisplacementSignsOpposite | sandbox_fm/plots.py:293-294 | `update`'s image velocity of every cell is the negation of `initialize`'s (lines 166-167), with the same squared length |
| FlowWarp.DisplacementAtInitialize | sandbox_fm/plots.py:155-167 | one image velocity per cell, `transform(pos) - transform(pos + vel)`; `DisplacementSignsOpposite` relates it to `update`'s |
| FlowWarp.DisplacementAtUpdate | sandbox_fm/plots.py:280-294 | one image velocity per cell, `transform(pos + vel) - transform(pos)`; `DisplacementSignsOpposite` gives its relation to `initialize`'s |
| FlowWarp.SquaredMagnitude | sandbox_fm/plots.py:192 | each pixel holds `u**2 + v**2` of its displacement; used only by `MagnitudeLayerIgnoresSign` |
| FlowWarp.MagnitudeLayerIgnoresSign | sandbox_fm/plots.py:302 | the magnitude layer, up to the square root, is the same whichever of the two signs is used |
| FlowWarp.SampleMap | sandbox_fm/plots.py:28-33 | the map samples pixel (y, x) at `(x - flow[y][x].x, y - flow[y][x].y)`; the caller's flow is a value and is not changed |
| FlowWarp.BackwardPointOfSampleMap | sandbox_fm/plots.py:31-33 | `BackwardPoint(flow, y, x)`, the point `WarpFlow`'s contract names, is entry (y, x) of the sample map |
| FlowWarp.Sample | sandbox_fm/plots.py:34-35 | `cv2.remap` at one point: the border value (1, 1, 1, 0) when the bilinear footprint misses the image, the sampler otherwise; `Remap` and `WarpFlow` state its use |
| FlowWarp.Remap | sandbox_fm/plots.py:34-35 | `cv2.remap` output has the map's shape and each pixel is the sampler's value at the mapped point, or transparent white outside the image |
| FlowWarp.WarpFlow | sandbox_fm/plots.py:28-36 | the warped image is H x W; a pixel whose backward point lies outside the image is transparent white, any other is the sampler's value at that point |
| FlowWarp.ZeroFlowWarpIsIdentity | sandbox_fm/plots.py:28-36 | with zero flow and a sampler exact on pixel centres, the warp returns the image unchanged |
| FlowWarp.ScaledFlow | sandbox_fm/plots.py:314 | `np.dstack([u_img, v_img]) * scale`: every displacement multiplied by `scale` |
| FlowWarp.Negated | sandbox_fm/plots.py:31 | `flow = -flow`: every displacement negated, the caller's flow untouched |
| FlowWarp.PlusColumnIndex | sandbox_fm/plots.py:32 | the x channel of pixel (y, x) gains x, the y channel is kept |
| FlowWarp.PlusRowIndex | sandbox_fm/plots.py:33 | the y channel of pixel (y, x) gains y, the x channel is kept |
| FlowWarp.UpdateFlowAt | sandbox_fm/plots.py:293-314 | the flow `update` warps with is, at every pixel, `-scale` times `initialize`'s displacement of the pixel's nearest cell |
| FlowWarp.UpdateFlow | sandbox_fm/plots.py:297-314 | `np.dstack([u_img, v_img]) * scale` over the gathered `update` velocities, with the cell raster's shape; `UpdateFlowAt` gives each pixel's value |
| FlowWarp.UpdateSamplesBackward | sandbox_fm/plots.py:313-321 | the warp in `update` reads pixel (y, x) from (x, y) plus `scale` times the nearest cell's displacement as `initialize` signs it |
| Display.FrameContents | sandbox_fm/plots.py:296-314 | the frame rasters give the per-cell water depth on every pixel, and the flow scale is 10.0 unless configured |
| Display.FrameOf | sandbox_fm/plots.py:296-314 | the rasters of one frame: the three gathered fields, the scaled flow and `cell_mask`; `FrameContents` states their meaning |
| Display.FlowScale | sandbox_fm/plots.py:313 | `data.get('scale', 10.0)`: the configured scale, 10.0 when none is set |
| Particles.ClampAlpha | sandbox_fm/plots.py:325 | every alpha is >= 0 afterwards; colours and alphas that were already >= 0 are unchanged |
| Particles.ClearAlphaWhere | sandbox_fm/plots.py:326 | alpha is 0 on the mask; colours are kept everywhere; pixels off the mask are unchanged |
| Particles.Advected | sandbox_fm/plots.py:318-326 | warp, alpha clamp and domain mask composed in the source's order; `ShownFrameInsideDomain` states what the result guarantees |
| Particles.Disc | sandbox_fm/plots.py:336-337 | the dot is exactly the image pixels strictly inside the radius-4 circle around its centre |
| Particles.PixelOf | sandbox_fm/plots.py:340-341 | `int(t * n)` for a draw t in [0, 1) is the in-range pixel whose cell holds `t * n` |
| Particles.DrawSeed | sandbox_fm/plots.py:332-341 | a drawn seed lies in the image with its disc clipped to it, and its depth pixel is the one the centre falls in |
| Particles.CentreInDisc | sandbox_fm/plots.py:336-341 | the pixel whose depth decides a dot belongs to the dot |
| Particles.DrawSeeds | sandbox_fm/plots.py:332 | exactly four seeds per frame, all valid, each containing its own centre pixel |
| Particles.Wet | sandbox_fm/plots.py:339-343 | a seed is drawn only when water level minus node-aligned bed at its centre pixel is at least 0.5 |
| Particles.Paint | sandbox_fm/plots.py:346 | the disc's pixels become opaque white and every other pixel is kept |
| Particles.SeedOne | sandbox_fm/plots.py:332-346 | one pass of the seeding loop: paint the disc when the centre is wet, else `continue` |
| Particles.SeedAll | sandbox_fm/plots.py:332-346 | the seeding loop over the seeds in order, keeping the raster's shape; `SeedAllEffect` states its meaning |
| Particles.SeedAllEffect | sandbox_fm/plots.py:331-346 | after seeding, every pixel in the disc of a seed with a wet centre (depth >= 0.5) is opaque white; every other pixel is unchanged |
| Particles.DryMasked | sandbox_fm/plots.py:349-350 | the cell-aligned dry mask and then the node-aligned one; `DryMaskedEffect` states its meaning |
| Particles.NextBuffer | sandbox_fm/plots.py:318-350 | the buffer at the end of `update`: `Advected`, then `SeedAll`, then `DryMasked`; `NoParticleOnDryLand` and `NextBufferAlphaNonNegative` state what it guarantees |
| Particles.DryMaskedEffect | sandbox_fm/plots.py:348-350 | the dry masks zero alpha exactly where bed >= water level at cell or node alignment and change nothing else |
| Particles.NoParticleOnDryLand | sandbox_fm/plots.py:348-350 | at the end of `update` every dry pixel has alpha 0, whatever the old buffer and the seeds |
| Particles.ShownFrameInsideDomain | sandbox_fm/plots.py:318-329 | the frame shown has every alpha >= 0 and alpha 0 on every out-of-domain pixel |
| Particles.NextBufferAlphaNonNegative | sandbox_fm/plots.py:318-350 | every alpha of the buffer at the end of `update` is >= 0 |
| Particles.SeededParticleMayLieOutsideDomain | sandbox_fm/plots.py:326-346 | a dot seeded on a wet out-of-domain pixel is still opaque when `update` returns |
| Particles.ShallowDiscPixelKeepsParticle | sandbox_fm/plots.py:336-350 | the disc of `skimage.draw.circle` covers a pixel whose water is shallower than 0.5, and a dot with a wet centre leaves an opaque particle there when `update` returns |
| Display.OpaqueFrame | sandbox_fm/plots.py:69-74 | the camera frame with an alpha channel of ones appended, colours kept |
| Display.Visualization.Initialize | sandbox_fm/plots.py:124-251 | the buffer is H x W transparent black; only water level and particles are visible; the water-depth and bed images are the gathers |
| Display.Visualization.WarpBuffer | sandbox_fm/plots.py:318-321 | `self.lic` becomes a new array holding the warp of the old buffer |
| Display.Visualization.ClampBuffer | sandbox_fm/plots.py:325 | the buffer in place becomes `ClampAlpha` of its old content |
| Display.Visualization.ClearBufferAlpha | sandbox_fm/plots.py:326 | the buffer in place becomes `ClearAlphaWhere` of its old content and the mask |
| Display.Visualization.SeedParticles | sandbox_fm/plots.py:331-346 | the seeding loop leaves the buffer equal to `SeedAll` of its old content |
| Display.Visualization.Advect | sandbox_fm/plots.py:318-326 | warp, clamp and domain mask leave the buffer equal to `Advected` of the old content |
| Display.Visualization.SeedAndDry | sandbox_fm/plots.py:331-350 | seeding then both dry masks leave the buffer equal to `DryMasked` of `SeedAll` of the old content |
| Display.Visualization.Update | sandbox_fm/plots.py:262-350 | frame counter +1; water-depth and bed images set; the shown particles are the advected old buffer; the new buffer is `NextBuffer` of the old one; layer visibility unchanged |
| Display.Visualization.ResetFromVideo | sandbox_fm/plots.py:61-74 | the buffer is replaced by a new array holding the opaque camera frame |
| Visibility.PresetLayer | sandbox_fm/plots.py:80-99 | a key selects a layer iff it is one of '1' to '4' |
| Visibility.ShowOnly | sandbox_fm/plots.py:80-99 | after a preset exactly the chosen primary layer is visible; the particle overlay is unchanged |
| Visibility.ToggleFlow | sandbox_fm/plots.py:76-77 | 'c' flips the particle overlay and nothing else |
| Visibility.AfterKey | sandbox_fm/plots.py:76-99 | presets show exactly their layer, 'c' flips only the overlay, every other key leaves the flags unchanged |
| Visibility.KeysRepeat | sandbox_fm/plots.py:76-99 | pressing a preset twice is pressing it once; pressing 'c' twice restores the flags |
| Visibility.PresetAsWrittenRaises | sandbox_fm/plots.py:80-84 | as written, every preset raises at `im_zk` after setting only the water-level and height flags |
| Visibility.PresetAsWritten | sandbox_fm/plots.py:80-99 | as written: the four `set_visible` calls by attribute name in source order, stopping at the first missing attribute |
| Events.ChangedWrites | sandbox_fm/plots.py:52-55 | every write is a 1-based single-entry write of the target value of a selected entry that differs, in increasing order |
| Events.ChangedWritesComplete | sandbox_fm/plots.py:52-55 | every selected entry that differs gets its write |
| Events.ChangedWritesReachTarget | sandbox_fm/plots.py:45-55 | applying the writes in order turns the model's copy into the edited variable |
| Events.EditIsIdempotent | sandbox_fm/plots.py:52-55 | once the model holds the edit, the same edit issues no writes |
| Events.NoWritesWhenDone | sandbox_fm/plots.py:52-55 | where every selected entry already holds its target, nothing is written |
| Events.IssueChangedWrites | sandbox_fm/plots.py:52-60 | the writing loop returns exactly `ChangedWrites` |
| Events.ApplyWrite | sandbox_fm/plots.py:55 | a `set_var_slice` write replaces exactly the addressed entries |
| Events.Selected | sandbox_fm/plots.py:47 | a node is edited iff it lies in the box and in the image bounding box |
| Events.BedTarget | sandbox_fm/plots.py:48-49 | `zk_copy` is `zk` plus the camera delta on the selected nodes, `zk` elsewhere |
| Events.BedWritesApplyDelta | sandbox_fm/plots.py:45-55 | after 'b' the model's `zk` equals `zk_copy` |
| Events.BedWrites | sandbox_fm/plots.py:45-55 | the 'b' writes: `ChangedWrites` on `zk` towards `zk_copy` over the selected nodes; `BedWritesApplyDelta` states their effect |
| Events.ResetRestoresOriginal | sandbox_fm/plots.py:56-60 | after 'r' (corrected) the model's depth variable equals `depth_cells_original` |
| Events.ResetWrites | sandbox_fm/plots.py:56-60 | the corrected 'r' writes: `ChangedWrites` on the depth variable towards `depth_cells_original` over every cell; `ResetRestoresOriginal` states their effect |
| Events.ResetAsWritten | sandbox_fm/plots.py:56-60 | as written, 'r' raises `NameError` on `mappings` iff some cell differs from its original, and otherwise writes nothing |
| Events.ResetAsWrittenNeverRestores | sandbox_fm/plots.py:56-60 | as written, 'r' raises exactly when there is something to restore |
| Events.ProcessEvents | sandbox_fm/plots.py:39-99 | the corrected handler: non-key events change nothing; 'b' and 'r' return their writes; 'p' resets the buffer; presets and 'c' update the layers; only 'q' quits |

## Left out

- Rendering (figure, axes, `imshow`, colormaps, the background image, `canvas.draw`, `flush_events`, `mpl_connect`) is not modelled. The images handed to the layers are fields of `Visualization`.
- `cv2.remap` bilinear interpolation is an abstract `Sampler` parameter. The model fixes only its border value: transparent white when the interpolation footprint lies wholly outside the image.
- `cv2.warpPerspective` of the camera frame and of the height map is not modelled. Key 'p' takes the already warped frame, scaled to [0, 1], as input.
- The scanned-height layer (`im_height.set_data`) is not modelled, since it is only that camera warp.
- `scipy.spatial.cKDTree` is not modelled. The index and distance rasters are inputs (`Resampling`) that must index into the mesh.
- `calibrate.transform` is an abstract `Transform` parameter.
- `compute_delta_zk` is not part of this model. Its result is an input, one value per node, used only on the selected nodes.
- Floating point is not modelled: values are exact reals and the float32 casts are ignored.
- The magnitude layer of `update` (`mag_img` and `im_mag.set_data`) is not modelled, and neither is `np.sqrt`. `FlowWarp.SquaredMagnitude` exists only to state `FlowWarp.MagnitudeLayerIgnoresSign`.
- `np.random.random` draws are parameters of `Particles.DrawSeeds`.
- `Display.Visualization.Update`: takes the rasters `Display.FrameOf` builds from the fields, and a list of seeds of any length. The source always draws four, as `Particles.DrawSeeds` states. Keeping the count out of the method keeps its proof small.
- `Events.ProcessEvents`: models the corrected handler, not the code as written. For 'r' it returns the restoring writes (`Events.ResetWrites`) to a depth variable given as a parameter; the code raises `NameError` on `mappings` at the first cell that differs, before any write (`Events.ResetAsWritten`). For '1' to '4' it shows exactly the preset's layer (`Visibility.AfterKey`); the code raises `AttributeError` on `im_zk` after setting the water-level and height flags (`Visibility.PresetAsWrittenRaises`).
- The buffer and every raster have one shape, H x W. In the code the buffer takes the shape of `data['height']` and the rasters are HEIGHT x WIDTH; `cv2.remap` accepts a source of any shape and returns the shape of the map. The model assumes the two shapes are equal.
- `sys.exit` on 'q' is a `quit` result.
- The `print` of the selected indices is not modelled.
- `notify` and the subscriber list are event plumbing and are not modelled.
- `meta = getattr(sandbox_fm.models, model.engine)` is not modelled. Its result is unused; only its failure for an unknown engine would matter.
- The whitening of the old buffer in 'p' is not modelled, because the next statement rebinds `vis.lic` and nothing can observe it.
- A video frame that already has four channels is not modelled ('p' then skips the channel append). The frame is taken as RGB.
- The debug contour layer is not modelled.
- The `initialize` magnitude layer is not modelled, beyond `FlowWarp.MagnitudeLayerIgnoresSign`.
- Negative numpy indices never arise from the gathers and are not modelled.

## Findings

| source | as written | input that shows it | evidently intended | confidence | as-written member | corrected member |
|---|---|---|---|---|---|---|
| sandbox_fm/plots.py:59 | key 'r' names its variable `mappings["DEPTH_CELLS"]`, and `mappings` is defined nowhere in the module | any `DEPTH_CELLS` entry that differs from `depth_cells_original`, then key 'r' | write every changed cell's original depth back to the model's bed-level variable | high; not executed | Events.ResetAsWrittenNeverRestores | Events.ResetRestoresOriginal |
| sandbox_fm/plots.py:83 | presets '1'-'4' call `vis.im_zk.set_visible`, but `initialize` names the bed-level layer `im_depth_cells` (line 223), so the handler raises after setting two flags | key '4' after `initialize`: no primary layer is left visible | show exactly the preset's layer | medium (another module could add `im_zk`); not executed | Visibility.PresetAsWrittenRaises | Visibility.AfterKey |
