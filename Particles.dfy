/** The particle-advection engine as functions on the RGBA buffer: one function
    per step of `Visualization.update` (warp, clamp, domain mask, seeding, dry
    mask) and the properties of the frame they produce together. */
module Particles {
  import opened Grids
  import opened Raster
  import opened FlowWarp

  /** Random positions drawn per frame. */
  const SeedsPerFrame: nat := 4

  /** Water depth below which no particle is seeded. */
  const MinSeedDepth: real := 0.5

  /** One random dot: the pixel `(int(v * HEIGHT), int(u * WIDTH))` whose water
      depth decides whether it is drawn, and the pixels of the disc around it. */
  datatype Seed = Seed(row: nat, col: nat, disc: set<(int, int)>)

  /** The centre lies in the h x w image and the disc is clipped to it. */
  predicate ValidSeed(s: Seed, h: nat, w: nat) {
    s.row < h && s.col < w &&
    forall p :: p in s.disc ==> 0 <= p.0 < h && 0 <= p.1 < w
  }

  predicate ValidSeeds(seeds: seq<Seed>, h: nat, w: nat) {
    forall k :: 0 <= k < |seeds| ==> ValidSeed(seeds[k], h, w)
  }

  /** Radius of a drawn dot, in pixels. */
  const DiscRadius: real := 4.0

  function Square(t: real): real { t * t }

  /** `skimage.draw.circle(cy, cx, 4, shape=(h, w))`: the pixels strictly inside
      the circle around (cy, cx), clipped to the image. */
  function Disc(cy: real, cx: real, h: nat, w: nat): (d: set<(int, int)>)
    ensures forall p :: p in d ==> 0 <= p.0 < h && 0 <= p.1 < w
    ensures forall r: int, c: int :: (r, c) in d <==>
      0 <= r < h && 0 <= c < w && Square(r as real - cy) + Square(c as real - cx) < Square(DiscRadius)
  {
    set r: int, c: int | 0 <= r < h && 0 <= c < w && Square(r as real - cy) + Square(c as real - cx) < Square(DiscRadius) :: (r, c)
  }

  /** A fraction of a positive size stays below that size. */
  lemma ScaledBelow(t: real, n: nat)
    requires 0.0 <= t < 1.0 && n > 0
    ensures 0.0 <= t * n as real < n as real
  {
    assert t * n as real < 1.0 * n as real;
  }

  /** `int(t * n)` for a draw `t` in [0, 1): the pixel index the point falls in. */
  function PixelOf(t: real, n: nat): (i: nat)
    requires 0.0 <= t < 1.0 && n > 0
    ensures i < n
    ensures i as real <= t * n as real < i as real + 1.0
  {
    ScaledBelow(t, n);
    (t * n as real).Floor
  }

  /** One pair `(u, v)` of `np.random.random` draws: the dot around
      `(v * HEIGHT, u * WIDTH)`, whose depth is read at the pixel the centre
      falls in. */
  function DrawSeed(u: real, v: real, h: nat, w: nat): (s: Seed)
    requires 0.0 <= u < 1.0 && 0.0 <= v < 1.0 && h > 0 && w > 0
    ensures ValidSeed(s, h, w)
    ensures s.row as real <= v * h as real < s.row as real + 1.0
    ensures s.col as real <= u * w as real < s.col as real + 1.0
  {
    Seed(PixelOf(v, h), PixelOf(u, w), Disc(v * h as real, u * w as real, h, w))
  }

  /** The pixel whose depth decides a dot is part of the dot, so a wet seed
      always paints its own centre. */
  lemma CentreInDisc(u: real, v: real, h: nat, w: nat)
    requires 0.0 <= u < 1.0 && 0.0 <= v < 1.0 && h > 0 && w > 0
    ensures (DrawSeed(u, v, h, w).row, DrawSeed(u, v, h, w).col) in DrawSeed(u, v, h, w).disc
  {
    var s := DrawSeed(u, v, h, w);
    var dy := s.row as real - v * h as real;
    var dx := s.col as real - u * w as real;
    assert -1.0 < dy <= 0.0 && -1.0 < dx <= 0.0;
    assert Square(dy) <= 1.0 by { assert dy * dy <= -dy; }
    assert Square(dx) <= 1.0 by { assert dx * dx <= -dx; }
  }

  /** The seeds of one frame: `zip(np.random.random(4), np.random.random(4))`. */
  function DrawSeeds(us: seq<real>, vs: seq<real>, h: nat, w: nat): (seeds: seq<Seed>)
    requires |us| == SeedsPerFrame && |vs| == SeedsPerFrame && h > 0 && w > 0
    requires forall k :: 0 <= k < |us| ==> 0.0 <= us[k] < 1.0 && 0.0 <= vs[k] < 1.0
    ensures |seeds| == SeedsPerFrame && ValidSeeds(seeds, h, w)
    ensures forall k :: 0 <= k < |seeds| ==> (seeds[k].row, seeds[k].col) in seeds[k].disc
  {
    seq(|us|, k requires 0 <= k < |us| => (CentreInDisc(us[k], vs[k], h, w); DrawSeed(us[k], vs[k], h, w)))
  }

  /** The water depth at the seed's centre pixel, node-aligned, is deep enough. */
  predicate Wet(s: Seed, waterlevel: Grid<real>, depthNodes: Grid<real>)
    requires s.row < |waterlevel| && s.col < |waterlevel[s.row]|
    requires s.row < |depthNodes| && s.col < |depthNodes[s.row]|
  {
    !(waterlevel[s.row][s.col] - depthNodes[s.row][s.col] < MinSeedDepth)
  }

  /** `lic[..., 3][lic[..., 3] < 0] = 0`: every alpha is non-negative afterwards;
      colours and the alphas that were already non-negative are kept. */
  function ClampAlpha(img: Grid<Pixel>): (r: Grid<Pixel>)
    ensures SameShape(r, img)
    ensures forall y, x :: 0 <= y < |img| && 0 <= x < |img[y]| ==>
      r[y][x].a >= 0.0 && SameColour(r[y][x], img[y][x]) &&
      (img[y][x].a >= 0.0 ==> r[y][x] == img[y][x])
  {
    seq(|img|, y requires 0 <= y < |img| =>
      seq(|img[y]|, x requires 0 <= x < |img[y]| =>
        if img[y][x].a < 0.0 then img[y][x].(a := 0.0) else img[y][x]))
  }

  /** `lic[mask, 3] = 0`: alpha is exactly 0 on the mask, colours are kept
      everywhere, and pixels off the mask are untouched. */
  function ClearAlphaWhere(img: Grid<Pixel>, mask: Grid<bool>): (r: Grid<Pixel>)
    requires SameShape(img, mask)
    ensures SameShape(r, img)
    ensures forall y, x :: 0 <= y < |img| && 0 <= x < |img[y]| ==>
      SameColour(r[y][x], img[y][x]) &&
      (mask[y][x] ==> r[y][x].a == 0.0) &&
      (!mask[y][x] ==> r[y][x] == img[y][x])
  {
    seq(|img|, y requires 0 <= y < |img| =>
      seq(|img[y]|, x requires 0 <= x < |img[y]| =>
        if mask[y][x] then img[y][x].(a := 0.0) else img[y][x]))
  }

  /** `lic[r, c, :] = (1, 1, 1, 1)` for the pixels of one disc. */
  function Paint(img: Grid<Pixel>, disc: set<(int, int)>): (r: Grid<Pixel>)
    ensures SameShape(r, img)
    ensures forall y, x :: 0 <= y < |img| && 0 <= x < |img[y]| ==>
      r[y][x] == (if (y, x) in disc then OpaqueWhite else img[y][x])
  {
    seq(|img|, y requires 0 <= y < |img| =>
      seq(|img[y]|, x requires 0 <= x < |img[y]| =>
        if (y, x) in disc then OpaqueWhite else img[y][x]))
  }

  /** One iteration of the seeding loop: the disc is drawn only when its centre
      is wet. */
  function SeedOne(img: Grid<Pixel>, s: Seed, waterlevel: Grid<real>, depthNodes: Grid<real>, h: nat, w: nat): Grid<Pixel>
    requires IsGrid(img, h, w) && IsGrid(waterlevel, h, w) && IsGrid(depthNodes, h, w)
    requires ValidSeed(s, h, w)
  {
    if Wet(s, waterlevel, depthNodes) then Paint(img, s.disc) else img
  }

  /** The seeding loop over `seeds`, in order. */
  function SeedAll(img: Grid<Pixel>, seeds: seq<Seed>, waterlevel: Grid<real>, depthNodes: Grid<real>, h: nat, w: nat): (r: Grid<Pixel>)
    requires IsGrid(img, h, w) && IsGrid(waterlevel, h, w) && IsGrid(depthNodes, h, w)
    requires ValidSeeds(seeds, h, w)
    ensures IsGrid(r, h, w)
    decreases |seeds|
  {
    if |seeds| == 0 then img
    else
      var before := SeedAll(img, seeds[..|seeds| - 1], waterlevel, depthNodes, h, w);
      SeedOne(before, seeds[|seeds| - 1], waterlevel, depthNodes, h, w)
  }

  /** Some seed whose centre is wet has pixel (y, x) in its disc. */
  ghost predicate SeededAt(seeds: seq<Seed>, waterlevel: Grid<real>, depthNodes: Grid<real>, h: nat, w: nat, y: int, x: int)
    requires IsGrid(waterlevel, h, w) && IsGrid(depthNodes, h, w)
    requires ValidSeeds(seeds, h, w)
  {
    exists k :: 0 <= k < |seeds| && (y, x) in seeds[k].disc && Wet(seeds[k], waterlevel, depthNodes)
  }

  /** Seeding makes a pixel opaque white exactly when a wet seed's disc covers
      it, and leaves every other pixel as it was: a disc whose centre is too
      shallow changes nothing. */
  lemma {:induction false} SeedAllEffect(img: Grid<Pixel>, seeds: seq<Seed>, waterlevel: Grid<real>, depthNodes: Grid<real>, h: nat, w: nat)
    requires IsGrid(img, h, w) && IsGrid(waterlevel, h, w) && IsGrid(depthNodes, h, w)
    requires ValidSeeds(seeds, h, w)
    ensures forall y, x :: 0 <= y < h && 0 <= x < w ==>
      SeedAll(img, seeds, waterlevel, depthNodes, h, w)[y][x]
        == if SeededAt(seeds, waterlevel, depthNodes, h, w, y, x) then OpaqueWhite else img[y][x]
    decreases |seeds|
  {
    if |seeds| > 0 {
      var init := seeds[..|seeds| - 1];
      var last := seeds[|seeds| - 1];
      SeedAllEffect(img, init, waterlevel, depthNodes, h, w);
      var before := SeedAll(img, init, waterlevel, depthNodes, h, w);
      forall y, x | 0 <= y < h && 0 <= x < w
        ensures SeedAll(img, seeds, waterlevel, depthNodes, h, w)[y][x]
          == if SeededAt(seeds, waterlevel, depthNodes, h, w, y, x) then OpaqueWhite else img[y][x]
      {
        if (y, x) in last.disc && Wet(last, waterlevel, depthNodes) {
          assert SeededAt(seeds, waterlevel, depthNodes, h, w, y, x);
        } else if SeededAt(init, waterlevel, depthNodes, h, w, y, x) {
          var k :| 0 <= k < |init| && (y, x) in init[k].disc && Wet(init[k], waterlevel, depthNodes);
          assert seeds[k] == init[k];
        } else {
          forall k | 0 <= k < |seeds| && (y, x) in seeds[k].disc
            ensures !Wet(seeds[k], waterlevel, depthNodes)
          {
            if k < |init| {
              assert init[k] == seeds[k];
            }
          }
        }
      }
    }
  }

  /** The per-frame rasters `update` derives from the simulation fields. */
  datatype FrameRasters = FrameRasters(
    waterlevel: Grid<real>,  // waterlevel_img
    depthCells: Grid<real>,  // depth_cells_img
    depthNodes: Grid<real>,  // depth_nodes_img
    flow: Grid<Vec2>,        // the scaled displacement handed to warp_flow
    cellMask: Grid<bool>)    // cell_mask
  {
    predicate Fits(h: nat, w: nat) {
      IsGrid(waterlevel, h, w) && IsGrid(depthCells, h, w) && IsGrid(depthNodes, h, w) &&
      IsGrid(flow, h, w) && IsGrid(cellMask, h, w)
    }

    /** Pixel (y, x) is dry at cell or at node alignment. */
    predicate DryAt(y: nat, x: nat)
      requires y < |waterlevel| && x < |waterlevel[y]|
      requires y < |depthCells| && x < |depthCells[y]|
      requires y < |depthNodes| && x < |depthNodes[y]|
    {
      depthCells[y][x] >= waterlevel[y][x] || depthNodes[y][x] >= waterlevel[y][x]
    }
  }

  /** The buffer after warp, clamp and domain mask: what `im_flow.set_data`
      shows this frame. */
  function Advected(prev: Grid<Pixel>, f: FrameRasters, sampler: Sampler, h: nat, w: nat): (r: Grid<Pixel>)
    requires IsGrid(prev, h, w) && f.Fits(h, w)
    ensures IsGrid(r, h, w)
  {
    ClearAlphaWhere(ClampAlpha(WarpFlow(prev, f.flow, sampler, h, w)), f.cellMask)
  }

  /** `lic[depth_cells_img >= waterlevel_img, 3] = 0` then the same at node
      alignment. */
  function DryMasked(img: Grid<Pixel>, f: FrameRasters, h: nat, w: nat): (r: Grid<Pixel>)
    requires IsGrid(img, h, w) && f.Fits(h, w)
    ensures IsGrid(r, h, w)
  {
    var cellsDry := ClearAlphaWhere(img, AtLeast(f.depthCells, f.waterlevel));
    ClearAlphaWhere(cellsDry, AtLeast(f.depthNodes, f.waterlevel))
  }

  /** The particle buffer at the end of `update`. */
  function NextBuffer(prev: Grid<Pixel>, f: FrameRasters, sampler: Sampler, seeds: seq<Seed>, h: nat, w: nat): (r: Grid<Pixel>)
    requires IsGrid(prev, h, w) && f.Fits(h, w) && ValidSeeds(seeds, h, w)
    ensures IsGrid(r, h, w)
  {
    DryMasked(SeedAll(Advected(prev, f, sampler, h, w), seeds, f.waterlevel, f.depthNodes, h, w), f, h, w)
  }

  /** The dry mask clears exactly the dry pixels' alpha and keeps everything else. */
  lemma DryMaskedEffect(img: Grid<Pixel>, f: FrameRasters, h: nat, w: nat)
    requires IsGrid(img, h, w) && f.Fits(h, w)
    ensures forall y: nat, x: nat :: y < h && x < w ==>
      SameColour(DryMasked(img, f, h, w)[y][x], img[y][x]) &&
      (f.DryAt(y, x) ==> DryMasked(img, f, h, w)[y][x].a == 0.0) &&
      (!f.DryAt(y, x) ==> DryMasked(img, f, h, w)[y][x] == img[y][x])
  {
    var cellsDry := ClearAlphaWhere(img, AtLeast(f.depthCells, f.waterlevel));
    var r := ClearAlphaWhere(cellsDry, AtLeast(f.depthNodes, f.waterlevel));
    forall y: nat, x: nat | y < h && x < w
      ensures SameColour(r[y][x], img[y][x])
      ensures f.DryAt(y, x) ==> r[y][x].a == 0.0
      ensures !f.DryAt(y, x) ==> r[y][x] == img[y][x]
    {
      assert AtLeast(f.depthCells, f.waterlevel)[y][x] <==> f.depthCells[y][x] >= f.waterlevel[y][x];
      assert AtLeast(f.depthNodes, f.waterlevel)[y][x] <==> f.depthNodes[y][x] >= f.waterlevel[y][x];
    }
  }

  /** At the end of `update` there is no particle on a dry pixel, whatever the
      previous buffer held and wherever the seeds fell. */
  lemma NoParticleOnDryLand(prev: Grid<Pixel>, f: FrameRasters, sampler: Sampler, seeds: seq<Seed>, h: nat, w: nat)
    requires IsGrid(prev, h, w) && f.Fits(h, w) && ValidSeeds(seeds, h, w)
    ensures forall y: nat, x: nat :: y < h && x < w && f.DryAt(y, x) ==>
      NextBuffer(prev, f, sampler, seeds, h, w)[y][x].a == 0.0
  {
    DryMaskedEffect(SeedAll(Advected(prev, f, sampler, h, w), seeds, f.waterlevel, f.depthNodes, h, w), f, h, w);
  }

  /** The frame shown by `update` has no particle outside the simulation domain,
      and every alpha in it is non-negative. */
  lemma ShownFrameInsideDomain(prev: Grid<Pixel>, f: FrameRasters, sampler: Sampler, h: nat, w: nat)
    requires IsGrid(prev, h, w) && f.Fits(h, w)
    ensures forall y, x :: 0 <= y < h && 0 <= x < w ==>
      Advected(prev, f, sampler, h, w)[y][x].a >= 0.0 &&
      (f.cellMask[y][x] ==> Advected(prev, f, sampler, h, w)[y][x].a == 0.0)
  {
    var clamped := ClampAlpha(WarpFlow(prev, f.flow, sampler, h, w));
  }

  /** Every alpha of the buffer at the end of `update` is non-negative, so the
      clamp of the next frame only repairs what its warp introduces. */
  lemma NextBufferAlphaNonNegative(prev: Grid<Pixel>, f: FrameRasters, sampler: Sampler, seeds: seq<Seed>, h: nat, w: nat)
    requires IsGrid(prev, h, w) && f.Fits(h, w) && ValidSeeds(seeds, h, w)
    ensures forall y: nat, x: nat :: y < h && x < w ==> NextBuffer(prev, f, sampler, seeds, h, w)[y][x].a >= 0.0
  {
    var shown := Advected(prev, f, sampler, h, w);
    ShownFrameInsideDomain(prev, f, sampler, h, w);
    var seeded := SeedAll(shown, seeds, f.waterlevel, f.depthNodes, h, w);
    SeedAllEffect(shown, seeds, f.waterlevel, f.depthNodes, h, w);
    DryMaskedEffect(seeded, f, h, w);
  }

  /** A seed drawn this frame survives to the end of `update` on a wet pixel
      even when that pixel is outside the domain: the domain mask runs before
      seeding. The next frame's mask clears that pixel, but the next frame's
      warp runs first and may carry the dot's colour to a pixel inside the
      domain, where it is shown. */
  lemma SeededParticleMayLieOutsideDomain(sampler: Sampler)
    ensures
      var f := FrameRasters([[2.0]], [[0.0]], [[0.0]], [[Vec2(0.0, 0.0)]], [[true]]);
      var seeds := [Seed(0, 0, {(0, 0)})];
      f.cellMask[0][0] && NextBuffer([[TransparentBlack]], f, sampler, seeds, 1, 1)[0][0].a == 1.0
  {
    var f := FrameRasters([[2.0]], [[0.0]], [[0.0]], [[Vec2(0.0, 0.0)]], [[true]]);
    var seeds := [Seed(0, 0, {(0, 0)})];
    var shown := Advected([[TransparentBlack]], f, sampler, 1, 1);
    SeedAllEffect(shown, seeds, f.waterlevel, f.depthNodes, 1, 1);
    assert (0, 0) in seeds[0].disc && Wet(seeds[0], f.waterlevel, f.depthNodes);
    var seeded := SeedAll(shown, seeds, f.waterlevel, f.depthNodes, 1, 1);
    assert seeded[0][0] == OpaqueWhite;
    DryMaskedEffect(seeded, f, 1, 1);
    assert !f.DryAt(0, 0);
  }

  /** The depth test reads only the centre pixel, and the whole disc is painted:
      a disc pixel where the water is shallower than 0.5 (here 0.3, over a bed
      at 0) keeps an opaque particle at the end of `update`, since the dry
      masks clear only pixels whose water depth is at most 0. The disc is the
      radius-4 circle around the centre of pixel (0, 0) of a 1 x 2 image. */
  lemma ShallowDiscPixelKeepsParticle(sampler: Sampler)
    ensures Disc(0.0, 0.0, 1, 2) == {(0, 0), (0, 1)}
    ensures
      var f := FrameRasters([[2.0, 0.3]], [[0.0, 0.0]], [[0.0, 0.0]], [[Vec2(0.0, 0.0), Vec2(0.0, 0.0)]], [[false, false]]);
      var seeds := [Seed(0, 0, {(0, 0), (0, 1)})];
      f.waterlevel[0][1] - f.depthNodes[0][1] < MinSeedDepth &&
      NextBuffer([[TransparentBlack, TransparentBlack]], f, sampler, seeds, 1, 2)[0][1].a == 1.0
  {
    assert (0, 1) in Disc(0.0, 0.0, 1, 2);
    var f := FrameRasters([[2.0, 0.3]], [[0.0, 0.0]], [[0.0, 0.0]], [[Vec2(0.0, 0.0), Vec2(0.0, 0.0)]], [[false, false]]);
    var seeds := [Seed(0, 0, {(0, 0), (0, 1)})];
    var shown := Advected([[TransparentBlack, TransparentBlack]], f, sampler, 1, 2);
    SeedAllEffect(shown, seeds, f.waterlevel, f.depthNodes, 1, 2);
    assert (0, 1) in seeds[0].disc && Wet(seeds[0], f.waterlevel, f.depthNodes);
    var seeded := SeedAll(shown, seeds, f.waterlevel, f.depthNodes, 1, 2);
    assert seeded[0][1] == OpaqueWhite;
    DryMaskedEffect(seeded, f, 1, 2);
    assert !f.DryAt(0, 1);
  }
}
