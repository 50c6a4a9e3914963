/** The `Visualization` object: the persistent particle buffer `lic`, the
    visibility of its layers and the raster content it last handed to them. */
module Display {
  import opened Grids
  import opened Raster
  import opened FlowWarp
  import opened Particles
  import opened Visibility

  /** The simulation fields read each frame, flattened per cell or per node. */
  datatype MeshFields = MeshFields(
    waterlevel: seq<real>,     // WATERLEVEL, per cell
    depthCells: seq<real>,     // DEPTH_CELLS, per cell
    depthNodes: seq<real>,     // DEPTH_NODES, per node
    cellPositions: seq<Vec2>,  // (X_CELLS, Y_CELLS)
    velocities: seq<Vec2>)     // (U, V), per cell
  {
    /** The per-cell fields belong to one mesh and the resampling rasters index
        into it. */
    predicate IndexedBy(res: Resampling) {
      |depthCells| == |waterlevel| && |cellPositions| == |waterlevel| && |velocities| == |waterlevel| &&
      IndicesInRange(res.cells, |waterlevel|) && IndicesInRange(res.nodes, |depthNodes|)
    }
  }

  /** `data.get('scale', 10.0)`: the multiplier on the flow velocities. */
  const DefaultFlowScale: real := 10.0

  function FlowScale(configured: Option<real>): real {
    match configured
    case Some(s) => s
    case None => DefaultFlowScale
  }

  /** The per-pixel rasters of one frame (plots.py `update`, "Convert to simple
      arrays"), the flow scaled for the warp and the domain mask. */
  function FrameOf(mesh: MeshFields, res: Resampling, toImage: Transform, scale: Option<real>): FrameRasters
    requires mesh.IndexedBy(res)
  {
    FrameRasters(
      Gather(mesh.waterlevel, res.cells),
      Gather(mesh.depthCells, res.cells),
      Gather(mesh.depthNodes, res.nodes),
      UpdateFlow(mesh.cellPositions, mesh.velocities, toImage, res.cells, FlowScale(scale)),
      CellMask(res))
  }

  /** The water-depth layer of a frame is the water depth of each pixel's
      nearest cell, and the particles are read from `scale` (10.0 unless
      configured) times that cell's displacement, as `initialize` signs it,
      away from the pixel. */
  lemma FrameContents(mesh: MeshFields, res: Resampling, toImage: Transform, scale: Option<real>)
    requires mesh.IndexedBy(res)
    ensures Difference(FrameOf(mesh, res, toImage, scale).waterlevel, FrameOf(mesh, res, toImage, scale).depthCells)
      == Gather(FieldDifference(mesh.waterlevel, mesh.depthCells), res.cells)
    ensures forall y: nat, x: nat :: y < |res.cells| && x < |res.cells[y]| ==>
      SampleMap(FrameOf(mesh, res, toImage, scale).flow)[y][x]
        == Plus(Vec2(x as real, y as real),
                Times(if scale.Some? then scale.value else 10.0,
                      DisplacementAtInitialize(mesh.cellPositions, mesh.velocities, toImage)[res.cells[y][x]]))
  {
    WaterDepthIsNearestCellDepth(mesh.waterlevel, mesh.depthCells, res.cells);
    UpdateSamplesBackward(mesh.cellPositions, mesh.velocities, toImage, res.cells, FlowScale(scale));
  }

  /** The content of the buffer, row by row. */
  function Contents(a: array2<Pixel>): (g: Grid<Pixel>)
    reads a
    ensures IsGrid(g, a.Length0, a.Length1)
    ensures forall y, x :: 0 <= y < a.Length0 && 0 <= x < a.Length1 ==> g[y][x] == a[y, x]
  {
    seq(a.Length0, y requires 0 <= y < a.Length0 reads a =>
      seq(a.Length1, x requires 0 <= x < a.Length1 reads a => a[y, x]))
  }

  /** The camera frame warped into the image, with an opaque alpha channel
      appended (`np.dstack([lic, np.ones_like(lic[:, :, 0])])`). */
  function OpaqueFrame(video: Grid<(real, real, real)>): (r: Grid<Pixel>)
    ensures SameShape(r, video)
    ensures forall y, x :: 0 <= y < |video| && 0 <= x < |video[y]| ==>
      r[y][x].a == 1.0 && r[y][x].r == video[y][x].0 && r[y][x].g == video[y][x].1 && r[y][x].b == video[y][x].2
  {
    seq(|video|, y requires 0 <= y < |video| =>
      seq(|video[y]|, x requires 0 <= x < |video[y]| =>
        Pixel(video[y][x].0, video[y][x].1, video[y][x].2, 1.0)))
  }

  class Visualization {
    /** HEIGHT and WIDTH of the output image. */
    const height: nat
    const width: nat
    /** The particle buffer, one RGBA pixel per image pixel. */
    var lic: array2<Pixel>
    var layers: LayerFlags
    /** What `im_waterlevel` shows: water level minus bed level. */
    var waterDepthImage: Grid<real>
    /** What `im_depth_cells` shows: the bed level. */
    var bedImage: Grid<real>
    /** What `im_flow` shows: a copy of the buffer taken by `set_data`. */
    var shownParticles: Grid<Pixel>
    /** Frames drawn so far (`self.counter`). */
    var frames: nat

    ghost predicate Valid()
      reads this
    {
      lic.Length0 == height && lic.Length1 == width
    }

    /** `__init__` followed by `initialize`: the buffer is a warped all-zero
        frame with a zero alpha channel, and only the water level and the
        particles are visible. */
    constructor Initialize(h: nat, w: nat, mesh: MeshFields, res: Resampling)
      requires res.Fits(h, w) && mesh.IndexedBy(res)
      ensures Valid() && height == h && width == w && fresh(lic)
      ensures forall y, x :: 0 <= y < h && 0 <= x < w ==> lic[y, x] == TransparentBlack
      ensures layers == InitialFlags
      ensures waterDepthImage == Difference(Gather(mesh.waterlevel, res.cells), Gather(mesh.depthCells, res.cells))
      ensures bedImage == Gather(mesh.depthCells, res.cells)
      ensures shownParticles == Contents(lic)
      ensures frames == 0
    {
      height, width := h, w;
      lic := new Pixel[h, w]((y, x) => TransparentBlack);
      var waterlevelImg := Gather(mesh.waterlevel, res.cells);
      var depthCellsImg := Gather(mesh.depthCells, res.cells);
      layers := InitialFlags;
      waterDepthImage := Difference(waterlevelImg, depthCellsImg);
      bedImage := depthCellsImg;
      frames := 0;
      new;
      shownParticles := Contents(lic);
    }

    /** `self.lic = warp_flow(self.lic, flow)`: the buffer is replaced by a new
        array holding the warped image. */
    method WarpBuffer(flow: Grid<Vec2>, sampler: Sampler)
      requires Valid() && IsGrid(flow, height, width)
      modifies this`lic
      ensures Valid() && fresh(lic)
      ensures Contents(lic) == WarpFlow(old(Contents(lic)), flow, sampler, height, width)
    {
      var warped := WarpFlow(Contents(lic), flow, sampler, height, width);
      lic := new Pixel[height, width]((y, x) requires 0 <= y < |warped| && 0 <= x < |warped[y]| => warped[y][x]);
      GridExt(Contents(lic), warped);
    }

    /** `lic[..., 3][lic[..., 3] < 0] = 0`, in place. */
    method ClampBuffer()
      requires Valid()
      modifies lic
      ensures Contents(lic) == ClampAlpha(old(Contents(lic)))
    {
      ghost var before := Contents(lic);
      forall y, x | 0 <= y < height && 0 <= x < width && lic[y, x].a < 0.0 {
        lic[y, x] := lic[y, x].(a := 0.0);
      }
      GridExt(Contents(lic), ClampAlpha(before));
    }

    /** `lic[mask, 3] = 0`, in place: the domain mask and both dry masks. */
    method ClearBufferAlpha(mask: Grid<bool>)
      requires Valid() && IsGrid(mask, height, width)
      modifies lic
      ensures Contents(lic) == ClearAlphaWhere(old(Contents(lic)), mask)
    {
      ghost var before := Contents(lic);
      forall y, x | 0 <= y < height && 0 <= x < width && mask[y][x] {
        lic[y, x] := lic[y, x].(a := 0.0);
      }
      GridExt(Contents(lic), ClearAlphaWhere(before, mask));
    }

    /** The seeding loop: each seed whose centre is wet paints its disc opaque
        white, in place. */
    method SeedParticles(seeds: seq<Seed>, waterlevel: Grid<real>, depthNodes: Grid<real>)
      requires Valid() && IsGrid(waterlevel, height, width) && IsGrid(depthNodes, height, width)
      requires ValidSeeds(seeds, height, width)
      modifies lic
      ensures Contents(lic) == SeedAll(old(Contents(lic)), seeds, waterlevel, depthNodes, height, width)
    {
      ghost var start := Contents(lic);
      for k := 0 to |seeds|
        invariant Contents(lic) == SeedAll(start, seeds[..k], waterlevel, depthNodes, height, width)
      {
        assert seeds[..k + 1][..k] == seeds[..k];
        var s := seeds[k];
        if waterlevel[s.row][s.col] - depthNodes[s.row][s.col] < MinSeedDepth {
          continue;
        }
        ghost var before := Contents(lic);
        forall p | p in s.disc {
          lic[p.0, p.1] := OpaqueWhite;
        }
        GridExt(Contents(lic), Paint(before, s.disc));
      }
      assert seeds[..|seeds|] == seeds;
    }

    /** The first half of the particle step: warp, clamp, domain mask. */
    method Advect(f: FrameRasters, sampler: Sampler)
      requires Valid() && f.Fits(height, width)
      modifies this`lic
      ensures Valid() && fresh(lic)
      ensures Contents(lic) == Advected(old(Contents(lic)), f, sampler, height, width)
    {
      WarpBuffer(f.flow, sampler);
      ClampBuffer();
      ClearBufferAlpha(f.cellMask);
    }

    /** The second half: seed, then clear the pixels dry at cell and at node
        alignment. */
    method SeedAndDry(f: FrameRasters, seeds: seq<Seed>)
      requires Valid() && f.Fits(height, width) && ValidSeeds(seeds, height, width)
      modifies lic
      ensures Contents(lic) == DryMasked(SeedAll(old(Contents(lic)), seeds, f.waterlevel, f.depthNodes, height, width), f, height, width)
    {
      SeedParticles(seeds, f.waterlevel, f.depthNodes);
      ClearBufferAlpha(AtLeast(f.depthCells, f.waterlevel));
      ClearBufferAlpha(AtLeast(f.depthNodes, f.waterlevel));
    }

    /** `update`, given the rasters `FrameOf` derives from the simulation
        fields: show the water depth and the bed level, advect the particles,
        show them, seed new ones and clear the dry pixels. */
    method Update(f: FrameRasters, sampler: Sampler, seeds: seq<Seed>)
      requires Valid() && f.Fits(height, width) && ValidSeeds(seeds, height, width)
      modifies this
      ensures Valid() && fresh(lic)
      ensures layers == old(layers) && frames == old(frames) + 1
      ensures waterDepthImage == Difference(f.waterlevel, f.depthCells)
      ensures bedImage == f.depthCells
      ensures shownParticles == Advected(old(Contents(lic)), f, sampler, height, width)
      ensures Contents(lic) == NextBuffer(old(Contents(lic)), f, sampler, seeds, height, width)
    {
      frames := frames + 1;
      waterDepthImage := Difference(f.waterlevel, f.depthCells);
      bedImage := f.depthCells;
      Advect(f, sampler);
      shownParticles := Contents(lic);
      SeedAndDry(f, seeds);
    }

    /** Key 'p': the buffer becomes the camera frame warped into the image,
        fully opaque. */
    method ResetFromVideo(video: Grid<(real, real, real)>)
      requires IsGrid(video, height, width)
      modifies this`lic
      ensures Valid() && fresh(lic)
      ensures Contents(lic) == OpaqueFrame(video)
    {
      var frame := OpaqueFrame(video);
      lic := new Pixel[height, width]((y, x) requires 0 <= y < |frame| && 0 <= x < |frame[y]| => frame[y][x]);
      GridExt(Contents(lic), frame);
    }
  }
}
