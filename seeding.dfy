/** Where the region grower places its seeds: one candidate per cell of a
    near-square grid laid over the image, visited in row-major order. */
module Seeding {
  import opened Raster

  /** Smallest g with g * g >= n: ceil(sqrt(n)) for the seed counts in use. */
  function CeilSqrt(n: nat): (g: nat)
    ensures g * g >= n && (g == 0 || (g - 1) * (g - 1) < n)
  {
    CeilSqrtFrom(n, 0)
  }

  function CeilSqrtFrom(n: nat, g: nat): (r: nat)
    requires g == 0 || (g - 1) * (g - 1) < n
    ensures r * r >= n && (r == 0 || (r - 1) * (r - 1) < n)
    decreases n - g
  {
    if g * g >= n then g
    else
      assert g < n;
      CeilSqrtFrom(n, g + 1)
  }

  /** The seed grid: `grid` cells per side, cell size dx × dy, image size,
      and the requested seed count. */
  datatype Layout = Layout(grid: nat, dx: nat, dy: nat, rows: nat, cols: nat, limit: nat)
  {
    predicate Valid()
    {
      grid > 0 && rows > 0 && cols > 0
    }
  }

  /** The grid execute lays over a rows × cols image for seedCount seeds. */
  function LayoutFor(rows: nat, cols: nat, seedCount: nat): (lay: Layout)
    requires rows > 0 && cols > 0 && seedCount > 0
    ensures lay.Valid() && lay.rows == rows && lay.cols == cols && lay.limit == seedCount
    ensures lay.grid * lay.grid >= seedCount
  {
    var g := CeilSqrt(seedCount);
    Layout(g, cols / g, rows / g, rows, cols, seedCount)
  }

  /** The candidate seed of cell (i, j): the cell centre, clamped to the
      last row and column of the image when it falls outside. */
  function CellCentre(lay: Layout, i: nat, j: nat): (c: Cell)
    requires lay.Valid()
    ensures 0 <= c.row < lay.rows && 0 <= c.col < lay.cols
  {
    var x := j * lay.dx + lay.dx / 2;
    var y := i * lay.dy + lay.dy / 2;
    Cell(if y >= lay.rows then lay.rows - 1 else y, if x >= lay.cols then lay.cols - 1 else x)
  }

  /** One seeding step: a candidate becomes the next seed when fewer than
      `limit` seeds exist and its cell is not a seed already. */
  function Accept(seeds: seq<Cell>, c: Cell, limit: nat): seq<Cell>
  {
    if |seeds| < limit && c !in seeds then seeds + [c] else seeds
  }

  /** The seeds accepted from the cells before (i, j) in row-major order. */
  function SeedsBefore(lay: Layout, i: nat, j: nat): seq<Cell>
    requires lay.Valid() && j <= lay.grid && (i < lay.grid || (i == lay.grid && j == 0))
    decreases i, j
  {
    if j == 0 then
      if i == 0 then [] else SeedsBefore(lay, i - 1, lay.grid)
    else
      Accept(SeedsBefore(lay, i, j - 1), CellCentre(lay, i, j - 1), lay.limit)
  }

  /** All seeds, in the order they are numbered (seed t gets id t + 1). */
  function Seeds(lay: Layout): seq<Cell>
    requires lay.Valid()
  {
    SeedsBefore(lay, lay.grid, 0)
  }

  /** A label grid holding exactly the seeds s: seed t labels its cell
      t + 1, and every other cell is 0. */
  ghost predicate SeedGrid(g: seq<seq<int>>, s: seq<Cell>, rows: nat, cols: nat)
  {
    IsGrid(g, rows, cols) &&
    (forall t :: 0 <= t < |s| ==> 0 <= s[t].row < rows && 0 <= s[t].col < cols && g[s[t].row][s[t].col] == t + 1) &&
    (forall y, x :: 0 <= y < rows && 0 <= x < cols && g[y][x] != 0 ==> Cell(y, x) in s)
  }

  /** The seeds determine their label grid: two grids holding exactly the
      same seeds are equal. */
  lemma SeedGridUnique(g: seq<seq<int>>, h: seq<seq<int>>, s: seq<Cell>, rows: nat, cols: nat)
    requires SeedGrid(g, s, rows, cols) && SeedGrid(h, s, rows, cols)
    ensures g == h
  {
    forall y, x | 0 <= y < rows && 0 <= x < cols ensures g[y][x] == h[y][x] {
      if Cell(y, x) in s {
        var t :| 0 <= t < |s| && s[t] == Cell(y, x);
        assert g[y][x] == t + 1 == h[y][x];
      }
    }
    GridsEqual(g, h, rows, cols);
  }

  /** At most `limit` seeds, all distinct, all inside the image. */
  lemma {:induction false} SeedsWellFormed(lay: Layout, i: nat, j: nat)
    requires lay.Valid() && j <= lay.grid && (i < lay.grid || (i == lay.grid && j == 0))
    ensures var s := SeedsBefore(lay, i, j);
      |s| <= lay.limit &&
      (forall p, q :: 0 <= p < q < |s| ==> s[p] != s[q]) &&
      (forall p :: 0 <= p < |s| ==> 0 <= s[p].row < lay.rows && 0 <= s[p].col < lay.cols)
    decreases i, j
  {
    if j == 0 {
      if i > 0 {
        SeedsWellFormed(lay, i - 1, lay.grid);
      }
    } else {
      SeedsWellFormed(lay, i, j - 1);
    }
  }

  /** Once `limit` seeds exist, the remaining cells of the row add none: the
      early exit of the inner loop skips nothing that could be accepted. */
  lemma {:induction false} SeedsSaturated(lay: Layout, i: nat, j: nat, j': nat)
    requires lay.Valid() && i < lay.grid && j <= j' <= lay.grid
    requires |SeedsBefore(lay, i, j)| >= lay.limit
    ensures SeedsBefore(lay, i, j') == SeedsBefore(lay, i, j)
    decreases j' - j
  {
    if j' > j {
      SeedsSaturated(lay, i, j, j' - 1);
    }
  }

  /** Every seed is the candidate of some cell of the grid. */
  lemma {:induction false} SeedsAreCandidates(lay: Layout, i: nat, j: nat)
    requires lay.Valid() && j <= lay.grid && (i < lay.grid || (i == lay.grid && j == 0))
    ensures forall c :: c in SeedsBefore(lay, i, j) ==>
      exists a: nat, b: nat :: a < lay.grid && b < lay.grid && c == CellCentre(lay, a, b)
    decreases i, j
  {
    if j == 0 {
      if i > 0 {
        SeedsAreCandidates(lay, i - 1, lay.grid);
      }
    } else {
      SeedsAreCandidates(lay, i, j - 1);
    }
  }

  /** The grid cell a position falls in, numbered in row-major order. */
  function CellRank(lay: Layout, c: Cell): int
    requires lay.dx > 0 && lay.dy > 0
  {
    (c.row / lay.dy) * lay.grid + c.col / lay.dx
  }

  lemma DivideExactly(q: int, d: int, a: int, r: int)
    requires d > 0 && 0 <= r < d && q == a * d + r
    ensures q / d == a
  {
    var k := q / d - a;
    assert d * k == r - q % d by {
      assert q == d * (q / d) + q % d;
    }
    if k >= 1 {
      MultipleAtLeast(d, k);
    } else if k <= -1 {
      MultipleAtLeast(d, -k);
    }
  }

  lemma MultipleAtLeast(d: int, k: int)
    requires d > 0 && k >= 1
    ensures d * k >= d
  {
    assert d * k == d + d * (k - 1);
  }

  /** n / g is at least 1 when n >= g, and (n / g) * g never exceeds n. */
  lemma QuotientBounds(n: nat, g: nat)
    requires g > 0 && n >= g
    ensures n / g >= 1 && (n / g) * g <= n
  {
    assert n == g * (n / g) + n % g;
  }

  /** When the image is at least `grid` pixels high and wide, no centre is
      clamped and the centre of cell (i, j) lies in cell (i, j). */
  lemma CentreRank(lay: Layout, i: nat, j: nat)
    requires lay.Valid() && lay.dx > 0 && lay.dy > 0
    requires lay.dx * lay.grid <= lay.cols && lay.dy * lay.grid <= lay.rows
    requires i < lay.grid && j < lay.grid
    ensures CellRank(lay, CellCentre(lay, i, j)) == i * lay.grid + j
  {
    Unclamped(j, lay.grid, lay.dx, lay.cols);
    Unclamped(i, lay.grid, lay.dy, lay.rows);
    assert CellCentre(lay, i, j) == Cell(i * lay.dy + lay.dy / 2, j * lay.dx + lay.dx / 2);
    DivideExactly(j * lay.dx + lay.dx / 2, lay.dx, j, lay.dx / 2);
    DivideExactly(i * lay.dy + lay.dy / 2, lay.dy, i, lay.dy / 2);
  }

  /** The centre of the k-th of g cells of size d lies below g * d. */
  lemma Unclamped(k: nat, g: nat, d: nat, bound: nat)
    requires k < g && d > 0 && d * g <= bound
    ensures k * d + d / 2 < bound
  {
    assert k * d <= (g - 1) * d by {
      assert (g - 1) * d - k * d == (g - 1 - k) * d;
    }
    assert (g - 1) * d == g * d - d;
  }

  function Min(a: int, b: int): int
  {
    if a <= b then a else b
  }

  /** With unclamped centres every candidate is new, so seeds accumulate one
      per grid cell until the limit is reached. */
  lemma {:induction false} SeedsCounted(lay: Layout, i: nat, j: nat)
    requires lay.Valid() && lay.dx > 0 && lay.dy > 0
    requires lay.dx * lay.grid <= lay.cols && lay.dy * lay.grid <= lay.rows
    requires j <= lay.grid && (i < lay.grid || (i == lay.grid && j == 0))
    ensures |SeedsBefore(lay, i, j)| == Min(lay.limit, i * lay.grid + j)
    ensures forall c :: c in SeedsBefore(lay, i, j) ==> CellRank(lay, c) < i * lay.grid + j
    decreases i, j
  {
    if j == 0 {
      if i > 0 {
        SeedsCounted(lay, i - 1, lay.grid);
        assert (i - 1) * lay.grid + lay.grid == i * lay.grid;
      }
    } else {
      SeedsCounted(lay, i, j - 1);
      CentreRank(lay, i, j - 1);
    }
  }

  /** An image with at least ceil(sqrt(seedCount)) rows and columns gets
      exactly seedCount seeds. */
  lemma SeedCountReached(rows: nat, cols: nat, seedCount: nat)
    requires rows > 0 && cols > 0 && seedCount > 0
    requires CeilSqrt(seedCount) <= rows && CeilSqrt(seedCount) <= cols
    ensures |Seeds(LayoutFor(rows, cols, seedCount))| == seedCount
  {
    var lay := LayoutFor(rows, cols, seedCount);
    QuotientBounds(cols, lay.grid);
    QuotientBounds(rows, lay.grid);
    SeedsCounted(lay, lay.grid, 0);
  }
  /** The value the 8-bit label grid keeps for a seed id: the id modulo 256. */
  function StoredLabel(id: int): (b: int)
    ensures 0 <= b < 256
    ensures 0 <= id < 256 ==> b == id
    ensures b == 0 <==> id % 256 == 0
  {
    id % 256
  }

  /** CeilSqrt is the least g with g * g >= n. */
  lemma CeilSqrtLeast(n: nat, side: nat)
    requires side * side >= n
    ensures CeilSqrt(n) <= side
  {
    var g := CeilSqrt(n);
    if g > side {
      SquareMonotone(g - 1, side);
    }
  }

  lemma SquareMonotone(a: nat, b: nat)
    requires a >= b
    ensures a * a >= b * b
  {
    var d := a - b;
    assert a * a == b * b + d * (a + b);
  }

  /** The position of the first occurrence of c in s, or -1 when c is not
      there. */
  function SeedIndex(s: seq<Cell>, c: Cell): (t: int)
    ensures c in s ==> 0 <= t < |s| && s[t] == c && forall u :: 0 <= u < t ==> s[u] != c
    ensures c !in s ==> t == -1
  {
    if |s| == 0 then -1
    else if s[0] == c then 0
    else
      var t := SeedIndex(s[1..], c);
      if t < 0 then -1 else t + 1
  }

  /** The 8-bit label grid as grid seeding leaves it, with the cast written
      out: the cell of seed t holds StoredLabel(t + 1), every other cell 0. */
  function StoredSeedGrid(s: seq<Cell>, rows: nat, cols: nat): (g: seq<seq<int>>)
    ensures IsGrid(g, rows, cols)
    ensures forall y, x :: 0 <= y < rows && 0 <= x < cols ==> 0 <= g[y][x] < 256
  {
    seq(rows, y => seq(cols, x => if Cell(y, x) in s then StoredLabel(SeedIndex(s, Cell(y, x)) + 1) else 0))
  }

  /** With at most 255 distinct seeds inside the image the cast loses
      nothing: the stored grid holds exactly the seeds, numbered 1..|s|. */
  lemma StoredSeedGridIsSeedGrid(s: seq<Cell>, rows: nat, cols: nat)
    requires |s| <= 255
    requires forall p, q :: 0 <= p < q < |s| ==> s[p] != s[q]
    requires forall p :: 0 <= p < |s| ==> 0 <= s[p].row < rows && 0 <= s[p].col < cols
    ensures SeedGrid(StoredSeedGrid(s, rows, cols), s, rows, cols)
  {
    var g := StoredSeedGrid(s, rows, cols);
    forall t | 0 <= t < |s| ensures g[s[t].row][s[t].col] == t + 1 {
      FirstOccurrence(s, t);
    }
  }

  /** A grid holding at most 255 seeds is the one the 8-bit store leaves. */
  lemma SeedGridIsStored(g: seq<seq<int>>, s: seq<Cell>, rows: nat, cols: nat)
    requires SeedGrid(g, s, rows, cols) && |s| <= 255
    ensures g == StoredSeedGrid(s, rows, cols)
  {
    forall p, q | 0 <= p < q < |s| ensures s[p] != s[q] {
      assert g[s[p].row][s[p].col] == p + 1 && g[s[q].row][s[q].col] == q + 1;
    }
    StoredSeedGridIsSeedGrid(s, rows, cols);
    SeedGridUnique(g, StoredSeedGrid(s, rows, cols), s, rows, cols);
  }

  /** In a sequence without repetitions, the first occurrence of s[t] is t. */
  lemma FirstOccurrence(s: seq<Cell>, t: nat)
    requires t < |s| && forall p, q :: 0 <= p < q < |s| ==> s[p] != s[q]
    ensures SeedIndex(s, s[t]) == t
  {
  }

  /** Asking for 256 seeds on a 16 x 16 image places all 256 of them, and
      the 8-bit store keeps the cell of the last one as 0, the value for
      "no region": the stored grid is not the grid of the seeds. */
  lemma LastSeedStoredAsUnlabelled(side: nat, seedCount: nat)
    requires side == 16 && seedCount == 256
    ensures var s := Seeds(LayoutFor(side, side, seedCount));
      |s| == seedCount && StoredLabel(seedCount) == 0 &&
      0 <= s[seedCount - 1].row < side && 0 <= s[seedCount - 1].col < side &&
      StoredSeedGrid(s, side, side)[s[seedCount - 1].row][s[seedCount - 1].col] == 0 &&
      !SeedGrid(StoredSeedGrid(s, side, side), s, side, side)
  {
    CeilSqrtLeast(seedCount, side);
    SeedCountReached(side, side, seedCount);
    var lay := LayoutFor(side, side, seedCount);
    SeedsWellFormed(lay, lay.grid, 0);
    SeedNumber256Lost(Seeds(lay), side, side);
  }

  /** Whatever 256 distinct seeds are placed, the cell of the last one is
      stored as 0, so the stored grid misses that seed. */
  lemma SeedNumber256Lost(s: seq<Cell>, rows: nat, cols: nat)
    requires |s| == 256
    requires forall p, q :: 0 <= p < q < |s| ==> s[p] != s[q]
    requires forall p :: 0 <= p < |s| ==> 0 <= s[p].row < rows && 0 <= s[p].col < cols
    ensures StoredSeedGrid(s, rows, cols)[s[255].row][s[255].col] == 0
    ensures !SeedGrid(StoredSeedGrid(s, rows, cols), s, rows, cols)
  {
    FirstOccurrence(s, 255);
  }
}
