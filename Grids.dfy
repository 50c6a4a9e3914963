/** Dense rasters as the visualisation sees them: an image of H rows and W columns,
    stored row by row, and the RGBA pixel of the particle buffer. */
module Grids {

  /** An optional value: a configured setting or a key's selection. */
  datatype Option<T> = None | Some(value: T)

  /** `g[y][x]` is the value at row y, column x. */
  type Grid<T> = seq<seq<T>>

  /** `g` has exactly `h` rows of `w` values each. */
  predicate IsGrid<T>(g: Grid<T>, h: nat, w: nat) {
    |g| == h && forall y :: 0 <= y < h ==> |g[y]| == w
  }

  /** Two rasters with the same number of rows, each row of the same length. */
  predicate SameShape<T, U>(a: Grid<T>, b: Grid<U>) {
    |a| == |b| && forall y :: 0 <= y < |a| ==> |a[y]| == |b[y]|
  }

  /** One pixel of the 4-channel particle buffer: colour (r, g, b) and opacity `a`. */
  datatype Pixel = Pixel(r: real, g: real, b: real, a: real)

  /** The border value of the flow warp: white, fully transparent. */
  const TransparentWhite := Pixel(1.0, 1.0, 1.0, 0.0)

  /** A freshly seeded particle: white, fully opaque. */
  const OpaqueWhite := Pixel(1.0, 1.0, 1.0, 1.0)

  /** The buffer content right after initialisation: a warped all-zero frame. */
  const TransparentBlack := Pixel(0.0, 0.0, 0.0, 0.0)

  predicate SameColour(p: Pixel, q: Pixel) {
    p.r == q.r && p.g == q.g && p.b == q.b
  }

  /** Rasters of equal shape that agree at every pixel are equal. */
  lemma GridExt<T>(a: Grid<T>, b: Grid<T>)
    requires SameShape(a, b)
    requires forall y, x :: 0 <= y < |a| && 0 <= x < |a[y]| ==> a[y][x] == b[y][x]
    ensures a == b
  {
    forall y | 0 <= y < |a|
      ensures a[y] == b[y]
    {
      assert |a[y]| == |b[y]|;
    }
  }
}
