/** The field rasteriser: per-cell and per-node simulation fields become per-pixel
    images by gathering through the nearest-neighbour index rasters, and the
    distance rasters become the out-of-domain masks. */
module Raster {
  import opened Grids

  /** A pixel whose nearest cell (node) lies further away than this, in model
      units, is outside the simulation domain. */
  const MaxDistance: real := 500.0

  /** The nearest-neighbour rasters computed once at initialisation: for every
      pixel the index of the nearest cell and node and the distance to it. */
  datatype Resampling = Resampling(
    cells: Grid<nat>,
    cellDistances: Grid<real>,
    nodes: Grid<nat>,
    nodeDistances: Grid<real>)
  {
    /** All four rasters cover an h x w image. */
    predicate Fits(h: nat, w: nat) {
      IsGrid(cells, h, w) && IsGrid(cellDistances, h, w) &&
      IsGrid(nodes, h, w) && IsGrid(nodeDistances, h, w)
    }
  }

  /** Every index in the raster addresses one of the `n` entries of a flat field. */
  predicate IndicesInRange(index: Grid<nat>, n: nat) {
    forall y, x :: 0 <= y < |index| && 0 <= x < |index[y]| ==> index[y][x] < n
  }

  /** One row of `field[index]`. */
  function GatherRow<T>(field: seq<T>, row: seq<nat>): (r: seq<T>)
    requires forall x :: 0 <= x < |row| ==> row[x] < |field|
    ensures |r| == |row|
    ensures forall x :: 0 <= x < |row| ==> r[x] == field[row[x]]
  {
    if row == [] then [] else [field[row[0]]] + GatherRow(field, row[1..])
  }

  /** The gather `field.ravel()[index]`: the image has the shape of the index
      raster and every pixel holds the field value of its nearest cell (node). */
  function Gather<T>(field: seq<T>, index: Grid<nat>): (img: Grid<T>)
    requires IndicesInRange(index, |field|)
    ensures SameShape(img, index)
    ensures forall y, x :: 0 <= y < |index| && 0 <= x < |index[y]| ==> img[y][x] == field[index[y][x]]
  {
    seq(|index|, y requires 0 <= y < |index| => GatherRow(field, index[y]))
  }

  /** Pixelwise `a - b`. */
  function Difference(a: Grid<real>, b: Grid<real>): (d: Grid<real>)
    requires SameShape(a, b)
    ensures SameShape(d, a)
    ensures forall y, x :: 0 <= y < |a| && 0 <= x < |a[y]| ==> d[y][x] == a[y][x] - b[y][x]
  {
    seq(|a|, y requires 0 <= y < |a| =>
      seq(|a[y]|, x requires 0 <= x < |a[y]| => a[y][x] - b[y][x]))
  }

  /** Entrywise `a - b` of two flat fields of the same mesh. */
  function FieldDifference(a: seq<real>, b: seq<real>): (d: seq<real>)
    requires |a| == |b|
    ensures |d| == |a|
    ensures forall i :: 0 <= i < |a| ==> d[i] == a[i] - b[i]
  {
    seq(|a|, i requires 0 <= i < |a| => a[i] - b[i])
  }

  /** The boolean raster `distances > limit`. */
  function Exceeds(distances: Grid<real>, limit: real): (m: Grid<bool>)
    ensures SameShape(m, distances)
    ensures forall y, x :: 0 <= y < |distances| && 0 <= x < |distances[y]| ==>
      (m[y][x] <==> distances[y][x] > limit)
  {
    seq(|distances|, y requires 0 <= y < |distances| =>
      seq(|distances[y]|, x requires 0 <= x < |distances[y]| => distances[y][x] > limit))
  }

  /** The boolean raster `a >= b`. */
  function AtLeast(a: Grid<real>, b: Grid<real>): (m: Grid<bool>)
    requires SameShape(a, b)
    ensures SameShape(m, a)
    ensures forall y, x :: 0 <= y < |a| && 0 <= x < |a[y]| ==> (m[y][x] <==> a[y][x] >= b[y][x])
  {
    seq(|a|, y requires 0 <= y < |a| =>
      seq(|a[y]|, x requires 0 <= x < |a[y]| => a[y][x] >= b[y][x]))
  }

  /** `cell_mask`: the pixels whose nearest cell is out of the domain. */
  function CellMask(res: Resampling): (m: Grid<bool>)
    ensures SameShape(m, res.cellDistances)
    ensures forall y, x :: 0 <= y < |m| && 0 <= x < |m[y]| ==>
      (m[y][x] <==> res.cellDistances[y][x] > 500.0)
  {
    Exceeds(res.cellDistances, MaxDistance)
  }

  /** `node_mask`: the pixels whose nearest node is out of the domain. */
  function NodeMask(res: Resampling): (m: Grid<bool>)
    ensures SameShape(m, res.nodeDistances)
    ensures forall y, x :: 0 <= y < |m| && 0 <= x < |m[y]| ==>
      (m[y][x] <==> res.nodeDistances[y][x] > 500.0)
  {
    Exceeds(res.nodeDistances, MaxDistance)
  }

  /** The water-depth layer `waterlevel_img - depth_cells_img` is the water depth
      of each pixel's nearest cell: subtracting after the gather is the same as
      gathering the per-cell water depth. */
  lemma WaterDepthIsNearestCellDepth(waterlevel: seq<real>, depthCells: seq<real>, cells: Grid<nat>)
    requires |waterlevel| == |depthCells|
    requires IndicesInRange(cells, |waterlevel|)
    ensures Difference(Gather(waterlevel, cells), Gather(depthCells, cells))
         == Gather(FieldDifference(waterlevel, depthCells), cells)
  {
    var lhs := Difference(Gather(waterlevel, cells), Gather(depthCells, cells));
    var rhs := Gather(FieldDifference(waterlevel, depthCells), cells);
    GridExt(lhs, rhs);
  }

  /** A flat mesh with water level 2.0 and bed level 1.0 everywhere gives a
      water-depth layer that is 1.0 at every pixel. */
  lemma UniformMeshGivesUniformDepth(waterlevel: seq<real>, depthCells: seq<real>, cells: Grid<nat>)
    requires |waterlevel| == |depthCells|
    requires IndicesInRange(cells, |waterlevel|)
    requires forall i :: 0 <= i < |waterlevel| ==> waterlevel[i] == 2.0 && depthCells[i] == 1.0
    ensures forall y, x :: 0 <= y < |cells| && 0 <= x < |cells[y]| ==>
      Difference(Gather(waterlevel, cells), Gather(depthCells, cells))[y][x] == 1.0
  {
  }
}
