/** Values shared by the noise filter and the region grower: rasters, cells,
    colours, the sample record moved through the growth queue, and the two
    intensity tests used by growth and merging. */
module Raster {

  /** A raster of `rows` rows of `cols` values each, stored row by row. */
  predicate IsGrid<T>(g: seq<seq<T>>, rows: nat, cols: nat)
  {
    |g| == rows && forall y :: 0 <= y < rows ==> |g[y]| == cols
  }

  /** An 8-bit single-channel image: every sample is in 0..255. */
  predicate IsImage(g: seq<seq<int>>, rows: nat, cols: nat)
  {
    IsGrid(g, rows, cols) &&
    forall y, x :: 0 <= y < rows && 0 <= x < cols ==> 0 <= g[y][x] < 256
  }

  /** The contents of a two-dimensional array, as a value. */
  ghost function Snapshot<T>(a: array2<T>): (s: seq<seq<T>>)
    reads a
    ensures IsGrid(s, a.Length0, a.Length1)
    ensures forall y, x :: 0 <= y < a.Length0 && 0 <= x < a.Length1 ==> s[y][x] == a[y, x]
  {
    seq(a.Length0, y requires 0 <= y < a.Length0 reads a =>
      seq(a.Length1, x requires 0 <= x < a.Length1 reads a => a[y, x]))
  }

  /** Two rasters of the same shape with the same values are equal. */
  lemma GridsEqual<T>(g: seq<seq<T>>, h: seq<seq<T>>, rows: nat, cols: nat)
    requires IsGrid(g, rows, cols) && IsGrid(h, rows, cols)
    requires forall y, x :: 0 <= y < rows && 0 <= x < cols ==> g[y][x] == h[y][x]
    ensures g == h
  {
    forall y | 0 <= y < rows ensures g[y] == h[y] {
      assert forall x :: 0 <= x < cols ==> g[y][x] == h[y][x];
    }
  }

  /** A grid position: row (the source's y) and column (the source's x). */
  datatype Cell = Cell(row: int, col: int)

  /** A three-channel 8-bit colour, compared channel by channel. */
  datatype Color = Color(blue: int, green: int, red: int)

  /** The colour of a zero-initialised colour entry. */
  const Black: Color := Color(0, 0, 0)

  /** The sample carried through the growth queue: the label it proposes,
      its position and its intensity. */
  datatype PixelInfo = PixelInfo(category: int, posX: int, posY: int, intensity: int)

  function Abs(v: int): int
  {
    if v < 0 then -v else v
  }

  /** Largest intensity difference across which a region grows. */
  const GrowthThreshold: int := 3

  /** Largest intensity difference of a border pair that counts as similar. */
  const MergeThreshold: int := 10

  /** A region grows into a neighbour whose intensity lies within
      GrowthThreshold of the current sample's, on either side. */
  function GrowthCriterion(current: PixelInfo, neighbor: PixelInfo): (grows: bool)
    ensures grows <==>
      current.intensity - GrowthThreshold <= neighbor.intensity <= current.intensity + GrowthThreshold
  {
    Abs(current.intensity - neighbor.intensity) <= GrowthThreshold
  }

  /** A border pair is similar when the two intensities lie within
      MergeThreshold of each other, on either side. */
  function MergeCriterion(current: int, neighbor: int): (similar: bool)
    ensures similar <==> current - MergeThreshold <= neighbor <= current + MergeThreshold
  {
    Abs(current - neighbor) <= MergeThreshold
  }

  /** Both tests are symmetric, and a pair close enough to grow across is
      also close enough to count as a similar border pair. */
  lemma CriteriaRelated(p: PixelInfo, q: PixelInfo)
    ensures GrowthCriterion(p, q) == GrowthCriterion(q, p)
    ensures MergeCriterion(p.intensity, q.intensity) == MergeCriterion(q.intensity, p.intensity)
    ensures GrowthCriterion(p, q) ==> MergeCriterion(p.intensity, q.intensity)
  {
  }
}
