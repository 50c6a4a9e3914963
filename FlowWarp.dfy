/** The flow-field transformer and `warp_flow`: per-cell velocities become
    image-space displacements, and the particle buffer is resampled backward
    along them. */
module FlowWarp {
  import opened Grids
  import opened Raster

  /** A 2-vector: a position or a displacement, x along columns, y along rows. */
  datatype Vec2 = Vec2(x: real, y: real)

  function Plus(p: Vec2, q: Vec2): Vec2 { Vec2(p.x + q.x, p.y + q.y) }
  function Minus(p: Vec2, q: Vec2): Vec2 { Vec2(p.x - q.x, p.y - q.y) }
  function Neg(p: Vec2): Vec2 { Vec2(-p.x, -p.y) }
  function Times(k: real, p: Vec2): Vec2 { Vec2(k * p.x, k * p.y) }
  function SquaredLength(p: Vec2): real { p.x * p.x + p.y * p.y }

  /** The model-to-image coordinate transform; its arithmetic is not part of
      this model. */
  type Transform = Vec2 -> Vec2

  /** The in-image part of the bilinear `cv2.remap`: the value of `img` at the
      real coordinate (column, row). Only its border behaviour is modelled. */
  type Sampler = (Grid<Pixel>, real, real) -> Pixel

  /** Image-space velocity as `initialize` computes it:
      transform(pos) - transform(pos + vel). */
  function DisplacementAtInitialize(pos: seq<Vec2>, vel: seq<Vec2>, toImage: Transform): (d: seq<Vec2>)
    requires |pos| == |vel|
    ensures |d| == |pos|
  {
    seq(|pos|, i requires 0 <= i < |pos| => Minus(toImage(pos[i]), toImage(Plus(pos[i], vel[i]))))
  }

  /** Image-space velocity as `update` computes it:
      transform(pos + vel) - transform(pos). */
  function DisplacementAtUpdate(pos: seq<Vec2>, vel: seq<Vec2>, toImage: Transform): (d: seq<Vec2>)
    requires |pos| == |vel|
    ensures |d| == |pos|
  {
    seq(|pos|, i requires 0 <= i < |pos| => Minus(toImage(Plus(pos[i], vel[i])), toImage(pos[i])))
  }

  /** The two entry points compute opposite image velocities for every cell,
      with the same squared length, so the magnitude layer does not depend on
      which sign is used. */
  lemma DisplacementSignsOpposite(pos: seq<Vec2>, vel: seq<Vec2>, toImage: Transform)
    requires |pos| == |vel|
    ensures forall i :: 0 <= i < |pos| ==>
      DisplacementAtInitialize(pos, vel, toImage)[i] == Neg(DisplacementAtUpdate(pos, vel, toImage)[i]) &&
      SquaredLength(DisplacementAtInitialize(pos, vel, toImage)[i])
        == SquaredLength(DisplacementAtUpdate(pos, vel, toImage)[i])
  {
  }

  /** The per-pixel squared flow magnitude `u_img**2 + v_img**2`. */
  function SquaredMagnitude(flow: Grid<Vec2>): (m: Grid<real>)
    ensures SameShape(m, flow)
    ensures forall y, x :: 0 <= y < |flow| && 0 <= x < |flow[y]| ==> m[y][x] == SquaredLength(flow[y][x])
  {
    seq(|flow|, y requires 0 <= y < |flow| =>
      seq(|flow[y]|, x requires 0 <= x < |flow[y]| => SquaredLength(flow[y][x])))
  }

  /** The magnitude layer built by `initialize` equals the one `update` builds
      from the same fields, although their velocity signs differ. */
  lemma MagnitudeLayerIgnoresSign(pos: seq<Vec2>, vel: seq<Vec2>, toImage: Transform, cells: Grid<nat>)
    requires |pos| == |vel|
    requires IndicesInRange(cells, |pos|)
    ensures SquaredMagnitude(Gather(DisplacementAtInitialize(pos, vel, toImage), cells))
         == SquaredMagnitude(Gather(DisplacementAtUpdate(pos, vel, toImage), cells))
  {
    DisplacementSignsOpposite(pos, vel, toImage);
    GridExt(SquaredMagnitude(Gather(DisplacementAtInitialize(pos, vel, toImage), cells)),
            SquaredMagnitude(Gather(DisplacementAtUpdate(pos, vel, toImage), cells)));
  }

  /** `np.dstack([u_img, v_img]) * scale`. */
  function ScaledFlow(flow: Grid<Vec2>, scale: real): (s: Grid<Vec2>)
    ensures SameShape(s, flow)
    ensures forall y, x :: 0 <= y < |flow| && 0 <= x < |flow[y]| ==> s[y][x] == Times(scale, flow[y][x])
  {
    seq(|flow|, y requires 0 <= y < |flow| =>
      seq(|flow[y]|, x requires 0 <= x < |flow[y]| => Times(scale, flow[y][x])))
  }

  /** `flow = -flow`: a new array, the caller's flow is a value and stays as it was. */
  function Negated(flow: Grid<Vec2>): (r: Grid<Vec2>)
    ensures SameShape(r, flow)
    ensures forall y, x :: 0 <= y < |flow| && 0 <= x < |flow[y]| ==> r[y][x] == Neg(flow[y][x])
  {
    seq(|flow|, y requires 0 <= y < |flow| =>
      seq(|flow[y]|, x requires 0 <= x < |flow[y]| => Neg(flow[y][x])))
  }

  /** `flow[:, :, 0] += np.arange(w)`: channel 0 gains the column index. */
  function PlusColumnIndex(flow: Grid<Vec2>): (r: Grid<Vec2>)
    ensures SameShape(r, flow)
    ensures forall y, x :: 0 <= y < |flow| && 0 <= x < |flow[y]| ==>
      r[y][x] == Vec2(flow[y][x].x + x as real, flow[y][x].y)
  {
    seq(|flow|, y requires 0 <= y < |flow| =>
      seq(|flow[y]|, x requires 0 <= x < |flow[y]| => flow[y][x].(x := flow[y][x].x + x as real)))
  }

  /** `flow[:, :, 1] += np.arange(h)[:, np.newaxis]`: channel 1 gains the row index. */
  function PlusRowIndex(flow: Grid<Vec2>): (r: Grid<Vec2>)
    ensures SameShape(r, flow)
    ensures forall y, x :: 0 <= y < |flow| && 0 <= x < |flow[y]| ==>
      r[y][x] == Vec2(flow[y][x].x, flow[y][x].y + y as real)
  {
    seq(|flow|, y requires 0 <= y < |flow| =>
      seq(|flow[y]|, x requires 0 <= x < |flow[y]| => flow[y][x].(y := flow[y][x].y + y as real)))
  }

  /** The sample map handed to `cv2.remap`: pixel (row y, column x) is read
      from the point (x - fx, y - fy) of the source image. */
  function SampleMap(flow: Grid<Vec2>): (m: Grid<Vec2>)
    ensures SameShape(m, flow)
    ensures forall y, x :: 0 <= y < |flow| && 0 <= x < |flow[y]| ==>
      m[y][x] == Vec2(x as real - flow[y][x].x, y as real - flow[y][x].y)
  {
    PlusRowIndex(PlusColumnIndex(Negated(flow)))
  }

  /** A bilinear sample at `p` draws on no pixel of an h x w image: every
      neighbour lies outside, so only the border value contributes. */
  predicate OutsideImage(p: Vec2, h: nat, w: nat) {
    p.x <= -1.0 || p.x >= w as real || p.y <= -1.0 || p.y >= h as real
  }

  /** `cv2.remap` at one point with `borderValue=(1, 1, 1, 0)`. */
  function Sample(img: Grid<Pixel>, p: Vec2, sampler: Sampler, h: nat, w: nat): Pixel {
    if OutsideImage(p, h, w) then TransparentWhite else sampler(img, p.x, p.y)
  }

  /** `cv2.remap(img, coords, ...)`: the output has the shape of the map. */
  function Remap(img: Grid<Pixel>, coords: Grid<Vec2>, sampler: Sampler, h: nat, w: nat): (r: Grid<Pixel>)
    ensures SameShape(r, coords)
    ensures forall y, x :: 0 <= y < |coords| && 0 <= x < |coords[y]| ==> r[y][x] == Sample(img, coords[y][x], sampler, h, w)
  {
    seq(|coords|, y requires 0 <= y < |coords| =>
      seq(|coords[y]|, x requires 0 <= x < |coords[y]| => Sample(img, coords[y][x], sampler, h, w)))
  }

  /** The point of the previous image that output pixel (y, x) is read from:
      entry (y, x) of `SampleMap`, as `BackwardPointOfSampleMap` states. Naming
      one entry keeps `WarpFlow`'s contract free of the whole map. */
  function BackwardPoint(flow: Grid<Vec2>, y: nat, x: nat): Vec2
    requires y < |flow| && x < |flow[y]|
  {
    Vec2(x as real - flow[y][x].x, y as real - flow[y][x].y)
  }

  lemma BackwardPointOfSampleMap(flow: Grid<Vec2>)
    ensures forall y: nat, x: nat :: y < |flow| && x < |flow[y]| ==> BackwardPoint(flow, y, x) == SampleMap(flow)[y][x]
  {
  }

  /** `warp_flow(img, flow)`: every output pixel (y, x) is the previous image
      sampled backward at (x - fx, y - fy); a sample that misses the image is
      transparent white. */
  function WarpFlow(img: Grid<Pixel>, flow: Grid<Vec2>, sampler: Sampler, h: nat, w: nat): (r: Grid<Pixel>)
    requires IsGrid(img, h, w) && IsGrid(flow, h, w)
    ensures IsGrid(r, h, w)
    ensures forall y: nat, x: nat :: y < h && x < w && OutsideImage(BackwardPoint(flow, y, x), h, w) ==>
      r[y][x] == TransparentWhite
    ensures forall y: nat, x: nat :: y < h && x < w && !OutsideImage(BackwardPoint(flow, y, x), h, w) ==>
      r[y][x] == sampler(img, BackwardPoint(flow, y, x).x, BackwardPoint(flow, y, x).y)
  {
    Remap(img, SampleMap(flow), sampler, h, w)
  }

  /** The sampler reproduces the image exactly at integer pixel positions, as
      bilinear interpolation does. */
  ghost predicate ExactOnPixels(sampler: Sampler, img: Grid<Pixel>) {
    forall y, x :: 0 <= y < |img| && 0 <= x < |img[y]| ==> sampler(img, x as real, y as real) == img[y][x]
  }

  /** A pixel whose displacement is zero keeps its value through the warp. */
  lemma RestingPixelKeepsValue(img: Grid<Pixel>, flow: Grid<Vec2>, sampler: Sampler, h: nat, w: nat, y: nat, x: nat)
    requires IsGrid(img, h, w) && IsGrid(flow, h, w)
    requires y < h && x < w && flow[y][x] == Vec2(0.0, 0.0)
    requires ExactOnPixels(sampler, img)
    ensures var r := WarpFlow(img, flow, sampler, h, w); |r| == h && |r[y]| == w && r[y][x] == img[y][x]
  {
    var p := BackwardPoint(flow, y, x);
    assert p == Vec2(x as real, y as real);
    assert !OutsideImage(p, h, w);
    var r := WarpFlow(img, flow, sampler, h, w);
    assert r[y][x] == sampler(img, p.x, p.y);
  }

  /** With a zero displacement field the warp is the identity. */
  lemma ZeroFlowWarpIsIdentity(img: Grid<Pixel>, flow: Grid<Vec2>, sampler: Sampler, h: nat, w: nat)
    requires IsGrid(img, h, w) && IsGrid(flow, h, w)
    requires forall y, x :: 0 <= y < h && 0 <= x < w ==> flow[y][x] == Vec2(0.0, 0.0)
    requires ExactOnPixels(sampler, img)
    ensures WarpFlow(img, flow, sampler, h, w) == img
  {
    var r := WarpFlow(img, flow, sampler, h, w);
    forall y: nat, x: nat | y < h && x < w
      ensures r[y][x] == img[y][x]
    {
      RestingPixelKeepsValue(img, flow, sampler, h, w, y, x);
    }
    GridExt(r, img);
  }

  /** The displacement raster `update` feeds to `warp_flow`. */
  function UpdateFlow(pos: seq<Vec2>, vel: seq<Vec2>, toImage: Transform, cells: Grid<nat>, scale: real): (f: Grid<Vec2>)
    requires |pos| == |vel|
    requires IndicesInRange(cells, |pos|)
    ensures SameShape(f, cells)
  {
    ScaledFlow(Gather(DisplacementAtUpdate(pos, vel, toImage), cells), scale)
  }

  /** The displacement `update` gives pixel (y, x) is `scale` times the
      opposite of `initialize`'s displacement for its nearest cell. */
  lemma UpdateFlowAt(pos: seq<Vec2>, vel: seq<Vec2>, toImage: Transform, cells: Grid<nat>, scale: real, y: nat, x: nat)
    requires |pos| == |vel|
    requires IndicesInRange(cells, |pos|)
    requires y < |cells| && x < |cells[y]|
    ensures UpdateFlow(pos, vel, toImage, cells, scale)[y][x]
      == Neg(Times(scale, DisplacementAtInitialize(pos, vel, toImage)[cells[y][x]]))
  {
    var i := cells[y][x];
    var a := toImage(pos[i]);
    var b := toImage(Plus(pos[i], vel[i]));
    assert Gather(DisplacementAtUpdate(pos, vel, toImage), cells)[y][x] == Minus(b, a);
    assert DisplacementAtInitialize(pos, vel, toImage)[i] == Minus(a, b);
    assert scale * (b.x - a.x) == -(scale * (a.x - b.x));
    assert scale * (b.y - a.y) == -(scale * (a.y - b.y));
  }

  /** One pixel of `UpdateSamplesBackward`. */
  lemma BackwardStepAt(pos: seq<Vec2>, vel: seq<Vec2>, toImage: Transform, cells: Grid<nat>, scale: real, y: nat, x: nat)
    requires |pos| == |vel|
    requires IndicesInRange(cells, |pos|)
    requires y < |cells| && x < |cells[y]|
    ensures SampleMap(UpdateFlow(pos, vel, toImage, cells, scale))[y][x]
      == Plus(Vec2(x as real, y as real), Times(scale, DisplacementAtInitialize(pos, vel, toImage)[cells[y][x]]))
  {
    UpdateFlowAt(pos, vel, toImage, cells, scale, y, x);
  }

  /** The warp in `update` is semi-Lagrangian: pixel (y, x) is read from the
      point reached by stepping `scale` times the image displacement of its
      nearest cell, as `initialize` signs it, away from the pixel. */
  lemma UpdateSamplesBackward(pos: seq<Vec2>, vel: seq<Vec2>, toImage: Transform, cells: Grid<nat>, scale: real)
    requires |pos| == |vel|
    requires IndicesInRange(cells, |pos|)
    ensures forall y: nat, x: nat :: y < |cells| && x < |cells[y]| ==>
      SampleMap(UpdateFlow(pos, vel, toImage, cells, scale))[y][x]
        == Plus(Vec2(x as real, y as real),
                Times(scale, DisplacementAtInitialize(pos, vel, toImage)[cells[y][x]]))
  {
    forall y: nat, x: nat | y < |cells| && x < |cells[y]|
      ensures SampleMap(UpdateFlow(pos, vel, toImage, cells, scale))[y][x]
        == Plus(Vec2(x as real, y as real), Times(scale, DisplacementAtInitialize(pos, vel, toImage)[cells[y][x]]))
    {
      BackwardStepAt(pos, vel, toImage, cells, scale, y, x);
    }
  }
}
