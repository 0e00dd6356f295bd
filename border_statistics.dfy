/** The border statistics gathered after growth: a raster scan that looks at
    each pixel's right and down neighbours only, and counts, per ordered pair
    of labels (current, neighbour), the adjacencies whose labels differ
    (effectiveness) and those of them whose intensities are within the merge
    threshold (similarity). The counts are directional: (a, b) and (b, a)
    are kept apart. */
module BorderStatistics {
  import opened Raster

  /** The labels and intensities the scan reads. */
  predicate Scannable(labels: seq<seq<int>>, img: seq<seq<int>>, rows: nat, cols: nat)
  {
    IsGrid(labels, rows, cols) && IsGrid(img, rows, cols)
  }

  /** Pixel (i, j) and its right neighbour carry labels a and b, a != b, and,
      when `similar` is set, their intensities pass the merge criterion. */
  predicate RightEvent(labels: seq<seq<int>>, img: seq<seq<int>>, rows: nat, cols: nat,
                       i: int, j: int, a: int, b: int, similar: bool)
    requires Scannable(labels, img, rows, cols) && 0 <= i < rows && 0 <= j < cols
  {
    j + 1 < cols && a != b && labels[i][j] == a && labels[i][j + 1] == b &&
    (similar ==> MergeCriterion(img[i][j], img[i][j + 1]))
  }

  /** The same for pixel (i, j) and its down neighbour. */
  predicate DownEvent(labels: seq<seq<int>>, img: seq<seq<int>>, rows: nat, cols: nat,
                      i: int, j: int, a: int, b: int, similar: bool)
    requires Scannable(labels, img, rows, cols) && 0 <= i < rows && 0 <= j < cols
  {
    i + 1 < rows && a != b && labels[i][j] == a && labels[i + 1][j] == b &&
    (similar ==> MergeCriterion(img[i][j], img[i + 1][j]))
  }

  /** How many of the two pairs at (i, j) count for (a, b). */
  function EventsAt(labels: seq<seq<int>>, img: seq<seq<int>>, rows: nat, cols: nat,
                    i: int, j: int, a: int, b: int, similar: bool): nat
    requires Scannable(labels, img, rows, cols) && 0 <= i < rows && 0 <= j < cols
  {
    (if RightEvent(labels, img, rows, cols, i, j, a, b, similar) then 1 else 0) +
    (if DownEvent(labels, img, rows, cols, i, j, a, b, similar) then 1 else 0)
  }

  /** The count for (a, b) over the pixels before (i, j) in raster order. */
  function CountBefore(labels: seq<seq<int>>, img: seq<seq<int>>, rows: nat, cols: nat,
                       a: int, b: int, similar: bool, i: nat, j: nat): nat
    requires Scannable(labels, img, rows, cols)
    requires j <= cols && (i < rows || (i == rows && j == 0))
    decreases i, j
  {
    if j == 0 then
      if i == 0 then 0 else CountBefore(labels, img, rows, cols, a, b, similar, i - 1, cols)
    else
      CountBefore(labels, img, rows, cols, a, b, similar, i, j - 1) +
      EventsAt(labels, img, rows, cols, i, j - 1, a, b, similar)
  }

  /** borderEffectiveness[a][b] after the scan. */
  function Effectiveness(labels: seq<seq<int>>, img: seq<seq<int>>, rows: nat, cols: nat, a: int, b: int): nat
    requires Scannable(labels, img, rows, cols)
  {
    CountBefore(labels, img, rows, cols, a, b, false, rows, 0)
  }

  /** borderSimilarity[a][b] after the scan, before any normalisation. */
  function Similarity(labels: seq<seq<int>>, img: seq<seq<int>>, rows: nat, cols: nat, a: int, b: int): nat
    requires Scannable(labels, img, rows, cols)
  {
    CountBefore(labels, img, rows, cols, a, b, true, rows, 0)
  }

  /** Both matrices for labels 0..n, as values. */
  function EffectivenessMatrix(labels: seq<seq<int>>, img: seq<seq<int>>, rows: nat, cols: nat, n: nat): (m: seq<seq<int>>)
    requires Scannable(labels, img, rows, cols)
    ensures IsGrid(m, n + 1, n + 1)
    ensures forall a, b :: 0 <= a <= n && 0 <= b <= n ==> m[a][b] == Effectiveness(labels, img, rows, cols, a, b)
  {
    seq(n + 1, a => seq(n + 1, b => Effectiveness(labels, img, rows, cols, a, b)))
  }

  function SimilarityMatrix(labels: seq<seq<int>>, img: seq<seq<int>>, rows: nat, cols: nat, n: nat): (m: seq<seq<int>>)
    requires Scannable(labels, img, rows, cols)
    ensures IsGrid(m, n + 1, n + 1)
    ensures forall a, b :: 0 <= a <= n && 0 <= b <= n ==> m[a][b] == Similarity(labels, img, rows, cols, a, b)
  {
    seq(n + 1, a => seq(n + 1, b => Similarity(labels, img, rows, cols, a, b)))
  }

  /** Every similar pair is also an effective pair, so similarity never
      exceeds effectiveness, and nothing is counted on the diagonal. */
  lemma {:induction false} CountsBounded(labels: seq<seq<int>>, img: seq<seq<int>>, rows: nat, cols: nat,
                                         a: int, b: int, i: nat, j: nat)
    requires Scannable(labels, img, rows, cols)
    requires j <= cols && (i < rows || (i == rows && j == 0))
    ensures CountBefore(labels, img, rows, cols, a, b, true, i, j) <= CountBefore(labels, img, rows, cols, a, b, false, i, j)
    ensures CountBefore(labels, img, rows, cols, a, a, false, i, j) == 0
    decreases i, j
  {
    if j == 0 {
      if i > 0 {
        CountsBounded(labels, img, rows, cols, a, b, i - 1, cols);
      }
    } else {
      CountsBounded(labels, img, rows, cols, a, b, i, j - 1);
    }
  }

  lemma SimilarityAtMostEffectiveness(labels: seq<seq<int>>, img: seq<seq<int>>, rows: nat, cols: nat, a: int, b: int)
    requires Scannable(labels, img, rows, cols)
    ensures Similarity(labels, img, rows, cols, a, b) <= Effectiveness(labels, img, rows, cols, a, b)
    ensures Effectiveness(labels, img, rows, cols, a, a) == 0
  {
    CountsBounded(labels, img, rows, cols, a, b, rows, 0);
  }

  /** A pair of labels has a positive count exactly when some pixel labelled
      a has its right or down neighbour labelled b (a != b): only regions
      that touch in scan direction get a non-zero entry. */
  lemma {:induction false} CountPositiveIffTouching(labels: seq<seq<int>>, img: seq<seq<int>>, rows: nat, cols: nat,
                                                    a: int, b: int, similar: bool, i: nat, j: nat)
    requires Scannable(labels, img, rows, cols)
    requires j <= cols && (i < rows || (i == rows && j == 0))
    ensures CountBefore(labels, img, rows, cols, a, b, similar, i, j) > 0 <==>
      exists y, x :: 0 <= y < rows && 0 <= x < cols && (y < i || (y == i && x < j)) &&
        EventsAt(labels, img, rows, cols, y, x, a, b, similar) > 0
    decreases i, j
  {
    if j == 0 {
      if i > 0 {
        CountPositiveIffTouching(labels, img, rows, cols, a, b, similar, i - 1, cols);
      }
    } else {
      CountPositiveIffTouching(labels, img, rows, cols, a, b, similar, i, j - 1);
    }
  }

  // ------------------------------------------------------- total of the scan

  /** The sum of the values of s. */
  function Sum(s: seq<int>): int
  {
    if s == [] then 0 else s[0] + Sum(s[1..])
  }

  /** The sum of all entries of the raster m. */
  function GridSum(m: seq<seq<int>>): int
  {
    if m == [] then 0 else Sum(m[0]) + GridSum(m[1..])
  }

  /** Sums add up entry by entry. */
  lemma {:induction false} SumAdd(s: seq<int>, t: seq<int>, u: seq<int>)
    requires |s| == |t| == |u| && forall k :: 0 <= k < |u| ==> u[k] == s[k] + t[k]
    ensures Sum(u) == Sum(s) + Sum(t)
    decreases |u|
  {
    if u != [] {
      SumAdd(s[1..], t[1..], u[1..]);
    }
  }

  lemma {:induction false} GridSumAdd(m: seq<seq<int>>, p: seq<seq<int>>, q: seq<seq<int>>, rows: nat, cols: nat)
    requires IsGrid(m, rows, cols) && IsGrid(p, rows, cols) && IsGrid(q, rows, cols)
    requires forall a, b :: 0 <= a < rows && 0 <= b < cols ==> q[a][b] == m[a][b] + p[a][b]
    ensures GridSum(q) == GridSum(m) + GridSum(p)
    decreases rows
  {
    if rows > 0 {
      SumAdd(m[0], p[0], q[0]);
      GridSumAdd(m[1..], p[1..], q[1..], rows - 1, cols);
    }
  }

  /** A sequence that is zero except possibly at k sums to its value at k;
      one that is zero everywhere (k out of range) sums to 0. */
  lemma {:induction false} SumSingle(s: seq<int>, k: int)
    requires forall t :: 0 <= t < |s| && t != k ==> s[t] == 0
    ensures Sum(s) == if 0 <= k < |s| then s[k] else 0
    decreases |s|
  {
    if s != [] {
      SumSingle(s[1..], k - 1);
    }
  }

  /** A raster that is zero except possibly at (a0, b0) sums to its value
      there. */
  lemma {:induction false} GridSumSingle(m: seq<seq<int>>, rows: nat, cols: nat, a0: int, b0: int)
    requires IsGrid(m, rows, cols) && 0 <= a0 < rows && 0 <= b0 < cols
    requires forall a, b :: 0 <= a < rows && 0 <= b < cols && (a != a0 || b != b0) ==> m[a][b] == 0
    ensures GridSum(m) == m[a0][b0]
    decreases rows
  {
    if a0 == 0 {
      SumSingle(m[0], b0);
      GridSumZero(m[1..], rows - 1, cols);
    } else {
      SumSingle(m[0], -1);
      GridSumSingle(m[1..], rows - 1, cols, a0 - 1, b0);
    }
  }

  lemma {:induction false} GridSumZero(m: seq<seq<int>>, rows: nat, cols: nat)
    requires IsGrid(m, rows, cols) && forall a, b :: 0 <= a < rows && 0 <= b < cols ==> m[a][b] == 0
    ensures GridSum(m) == 0
    decreases rows
  {
    if rows > 0 {
      SumSingle(m[0], -1);
      GridSumZero(m[1..], rows - 1, cols);
    }
  }

  /** How many of the right and down pairs at (i, j) join two different
      labels: 0, 1 or 2. */
  function DifferingAt(labels: seq<seq<int>>, rows: nat, cols: nat, i: int, j: int): nat
    requires IsGrid(labels, rows, cols) && 0 <= i < rows && 0 <= j < cols
  {
    (if j + 1 < cols && labels[i][j] != labels[i][j + 1] then 1 else 0) +
    (if i + 1 < rows && labels[i][j] != labels[i + 1][j] then 1 else 0)
  }

  /** The number of right and down pairs of different labels over the
      pixels before (i, j) in raster order. */
  function DifferingBefore(labels: seq<seq<int>>, rows: nat, cols: nat, i: nat, j: nat): nat
    requires IsGrid(labels, rows, cols)
    requires j <= cols && (i < rows || (i == rows && j == 0))
    decreases i, j
  {
    if j == 0 then
      if i == 0 then 0 else DifferingBefore(labels, rows, cols, i - 1, cols)
    else
      DifferingBefore(labels, rows, cols, i, j - 1) + DifferingAt(labels, rows, cols, i, j - 1)
  }

  /** Every label lies in 0..n. */
  predicate LabelsUpTo(labels: seq<seq<int>>, rows: nat, cols: nat, n: nat)
    requires IsGrid(labels, rows, cols)
  {
    forall y, x :: 0 <= y < rows && 0 <= x < cols ==> 0 <= labels[y][x] <= n
  }

  /** The effectiveness counts for labels 0..n over the pixels before
      (i, j), as a raster. */
  function CountMatrix(labels: seq<seq<int>>, img: seq<seq<int>>, rows: nat, cols: nat, n: nat, i: nat, j: nat)
    : (m: seq<seq<int>>)
    requires Scannable(labels, img, rows, cols)
    requires j <= cols && (i < rows || (i == rows && j == 0))
    ensures IsGrid(m, n + 1, n + 1)
    ensures forall a, b :: 0 <= a <= n && 0 <= b <= n ==> m[a][b] == CountBefore(labels, img, rows, cols, a, b, false, i, j)
  {
    seq(n + 1, a => seq(n + 1, b => CountBefore(labels, img, rows, cols, a, b, false, i, j)))
  }

  /** A raster that is 1 at (a0, b0) when `present` holds and 0 everywhere
      else sums to 1 or 0 accordingly. */
  lemma IndicatorTotal(m: seq<seq<int>>, n: nat, a0: int, b0: int, present: bool)
    requires IsGrid(m, n + 1, n + 1) && 0 <= a0 <= n && 0 <= b0 <= n
    requires forall a, b :: 0 <= a <= n && 0 <= b <= n ==> m[a][b] == if present && a == a0 && b == b0 then 1 else 0
    ensures GridSum(m) == if present then 1 else 0
  {
    GridSumSingle(m, n + 1, n + 1, a0, b0);
  }

  /** Over all label pairs, the right pair at (i, j) counts once when it
      joins two different labels and not at all otherwise. */
  lemma RightTotal(labels: seq<seq<int>>, img: seq<seq<int>>, rows: nat, cols: nat, n: nat, i: int, j: int)
    requires Scannable(labels, img, rows, cols) && LabelsUpTo(labels, rows, cols, n) && 0 <= i < rows && 0 <= j < cols
    ensures GridSum(seq(n + 1, a => seq(n + 1, b => if RightEvent(labels, img, rows, cols, i, j, a, b, false) then 1 else 0))) ==
            if j + 1 < cols && labels[i][j] != labels[i][j + 1] then 1 else 0
  {
    var right := seq(n + 1, a => seq(n + 1, b => if RightEvent(labels, img, rows, cols, i, j, a, b, false) then 1 else 0));
    var r := if j + 1 < cols then labels[i][j + 1] else 0;
    IndicatorTotal(right, n, labels[i][j], r, j + 1 < cols && labels[i][j] != r);
  }

  /** The same for the down pair. */
  lemma DownTotal(labels: seq<seq<int>>, img: seq<seq<int>>, rows: nat, cols: nat, n: nat, i: int, j: int)
    requires Scannable(labels, img, rows, cols) && LabelsUpTo(labels, rows, cols, n) && 0 <= i < rows && 0 <= j < cols
    ensures GridSum(seq(n + 1, a => seq(n + 1, b => if DownEvent(labels, img, rows, cols, i, j, a, b, false) then 1 else 0))) ==
            if i + 1 < rows && labels[i][j] != labels[i + 1][j] then 1 else 0
  {
    var down := seq(n + 1, a => seq(n + 1, b => if DownEvent(labels, img, rows, cols, i, j, a, b, false) then 1 else 0));
    var d := if i + 1 < rows then labels[i + 1][j] else 0;
    IndicatorTotal(down, n, labels[i][j], d, i + 1 < rows && labels[i][j] != d);
  }

  /** With labels in 0..n, the pairs at (i, j) add exactly DifferingAt to the
      effectiveness counts, summed over all label pairs. */
  lemma EventsTotal(labels: seq<seq<int>>, img: seq<seq<int>>, rows: nat, cols: nat, n: nat, i: int, j: int,
                    e: seq<seq<int>>)
    requires Scannable(labels, img, rows, cols) && LabelsUpTo(labels, rows, cols, n) && 0 <= i < rows && 0 <= j < cols
    requires IsGrid(e, n + 1, n + 1)
    requires forall a, b :: 0 <= a <= n && 0 <= b <= n ==> e[a][b] == EventsAt(labels, img, rows, cols, i, j, a, b, false)
    ensures GridSum(e) == DifferingAt(labels, rows, cols, i, j)
  {
    var right := seq(n + 1, a => seq(n + 1, b => if RightEvent(labels, img, rows, cols, i, j, a, b, false) then 1 else 0));
    var down := seq(n + 1, a => seq(n + 1, b => if DownEvent(labels, img, rows, cols, i, j, a, b, false) then 1 else 0));
    RightTotal(labels, img, rows, cols, n, i, j);
    DownTotal(labels, img, rows, cols, n, i, j);
    GridSumAdd(right, down, e, n + 1, n + 1);
  }

  /** Summed over all label pairs, the counts before (i, j) are the number
      of differing pairs before (i, j). */
  lemma {:induction false} CountMatrixTotal(labels: seq<seq<int>>, img: seq<seq<int>>, rows: nat, cols: nat, n: nat,
                                            i: nat, j: nat)
    requires Scannable(labels, img, rows, cols) && LabelsUpTo(labels, rows, cols, n)
    requires j <= cols && (i < rows || (i == rows && j == 0))
    ensures GridSum(CountMatrix(labels, img, rows, cols, n, i, j)) == DifferingBefore(labels, rows, cols, i, j)
    decreases i, j
  {
    var m := CountMatrix(labels, img, rows, cols, n, i, j);
    if j == 0 {
      if i == 0 {
        GridSumZero(m, n + 1, n + 1);
      } else {
        CountMatrixTotal(labels, img, rows, cols, n, i - 1, cols);
        GridsEqual(m, CountMatrix(labels, img, rows, cols, n, i - 1, cols), n + 1, n + 1);
      }
    } else {
      CountMatrixTotal(labels, img, rows, cols, n, i, j - 1);
      var e := seq(n + 1, a => seq(n + 1, b => EventsAt(labels, img, rows, cols, i, j - 1, a, b, false)));
      EventsTotal(labels, img, rows, cols, n, i, j - 1, e);
      GridSumAdd(CountMatrix(labels, img, rows, cols, n, i, j - 1), e, m, n + 1, n + 1);
    }
  }

  /** With labels in 0..n, the whole effectiveness matrix sums to the number
      of right and down adjacencies whose labels differ: a pixel whose
      right and down neighbours both carry other labels adds two. */
  lemma EffectivenessTotal(labels: seq<seq<int>>, img: seq<seq<int>>, rows: nat, cols: nat, n: nat)
    requires Scannable(labels, img, rows, cols) && LabelsUpTo(labels, rows, cols, n)
    ensures GridSum(EffectivenessMatrix(labels, img, rows, cols, n)) == DifferingBefore(labels, rows, cols, rows, 0)
  {
    CountMatrixTotal(labels, img, rows, cols, n, rows, 0);
    GridsEqual(EffectivenessMatrix(labels, img, rows, cols, n), CountMatrix(labels, img, rows, cols, n, rows, 0),
               n + 1, n + 1);
  }
}
