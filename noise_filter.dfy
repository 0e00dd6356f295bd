/** The median noise filter applied to the intensity grid before
    segmentation (filterNoise). */
module NoiseFilter {
  import opened Raster

  /** The samples of rows top..bottom-1 and columns left..right-1, row by row. */
  function Window(img: seq<seq<int>>, top: int, bottom: int, left: int, right: int): (w: seq<int>)
    requires 0 <= top <= bottom <= |img| && 0 <= left <= right
    requires forall y :: top <= y < bottom ==> right <= |img[y]|
    ensures |w| == (bottom - top) * (right - left)
    decreases bottom - top
  {
    if bottom == top then []
    else
      var w0 := Window(img, top, bottom - 1, left, right);
      assert |w0 + img[bottom - 1][left..right]| == (bottom - 1 - top) * (right - left) + (right - left);
      w0 + img[bottom - 1][left..right]
  }

  predicate Sorted(s: seq<int>)
  {
    forall p, q :: 0 <= p < q < |s| ==> s[p] <= s[q]
  }

  /** Inserts x into s in front of the first element not smaller than x. */
  function Insert(x: int, s: seq<int>): seq<int>
  {
    if s == [] || x <= s[0] then [x] + s else [s[0]] + Insert(x, s[1..])
  }

  /** Inserting adds exactly x to the samples. */
  lemma {:induction false} InsertAddsOne(x: int, s: seq<int>)
    ensures multiset(Insert(x, s)) == multiset(s) + multiset{x}
  {
    if s != [] && x > s[0] {
      InsertAddsOne(x, s[1..]);
      assert s == [s[0]] + s[1..];
    }
  }

  /** Inserting into a sorted sequence keeps it sorted. */
  lemma {:induction false} InsertSorted(x: int, s: seq<int>)
    requires Sorted(s)
    ensures Sorted(Insert(x, s))
  {
    if s == [] || x <= s[0] {
      ConsSorted(x, s);
    } else {
      InsertSorted(x, s[1..]);
      InsertAddsOne(x, s[1..]);
      var t := Insert(x, s[1..]);
      forall e | e in t ensures s[0] <= e {
        assert e in multiset(t);
        if e != x {
          assert e in multiset(s[1..]);
          var k :| 0 <= k < |s[1..]| && s[1..][k] == e;
          assert s[k + 1] == e;
        }
      }
      ConsSorted(s[0], t);
    }
  }

  /** A value no larger than any element of a sorted sequence can be put in front of it. */
  lemma ConsSorted(h: int, t: seq<int>)
    requires Sorted(t) && forall e :: e in t ==> h <= e
    ensures Sorted([h] + t)
  {
    var r := [h] + t;
    forall p, q | 0 <= p < q < |r| ensures r[p] <= r[q] {
      assert r[q] == t[q - 1] && t[q - 1] in t;
      if p > 0 { assert r[p] == t[p - 1]; }
    }
  }

  /** A sorted permutation of s (insertion sort). */
  function SortSeq(s: seq<int>): (r: seq<int>)
    ensures Sorted(r) && multiset(r) == multiset(s) && |r| == |s|
  {
    if s == [] then []
    else
      assert s == [s[0]] + s[1..];
      InsertSorted(s[0], SortSeq(s[1..]));
      InsertAddsOne(s[0], SortSeq(s[1..]));
      Insert(s[0], SortSeq(s[1..]))
  }

  /** The middle element of the sorted neighbourhood. */
  function Median(s: seq<int>): int
    requires |s| > 0
  {
    SortSeq(s)[|s| / 2]
  }

  /** A sorted permutation is unique, so the median does not depend on the
      sort routine used to compute it. */
  lemma {:induction false} SortedPermutationUnique(a: seq<int>, b: seq<int>)
    requires Sorted(a) && Sorted(b) && multiset(a) == multiset(b)
    ensures a == b
  {
    if a == [] {
      assert |multiset(b)| == 0;
    } else {
      assert |b| == |multiset(b)| == |multiset(a)| == |a|;
      assert a[0] in multiset(b) && b[0] in multiset(a);
      HeadIsLeast(a, b[0]);
      HeadIsLeast(b, a[0]);
      TailsPermutation(a, b);
      SortedTail(a);
      SortedTail(b);
      SortedPermutationUnique(a[1..], b[1..]);
      SameHeadSameTail(a, b);
    }
  }

  lemma TailsPermutation(a: seq<int>, b: seq<int>)
    requires |a| > 0 && |b| > 0 && a[0] == b[0] && multiset(a) == multiset(b)
    ensures multiset(a[1..]) == multiset(b[1..])
  {
    TailMultiset(a);
    TailMultiset(b);
  }

  lemma SameHeadSameTail(a: seq<int>, b: seq<int>)
    requires |a| > 0 && |b| > 0 && a[0] == b[0] && a[1..] == b[1..]
    ensures a == b
  {
    assert a == [a[0]] + a[1..] && b == [b[0]] + b[1..];
  }

  lemma HeadIsLeast(s: seq<int>, e: int)
    requires Sorted(s) && e in multiset(s)
    ensures s[0] <= e
  {
    var k :| 0 <= k < |s| && s[k] == e;
    if k > 0 {
      assert s[0] <= s[k];
    }
  }

  lemma SortedTail(s: seq<int>)
    requires Sorted(s) && |s| > 0
    ensures Sorted(s[1..])
  {
    forall p, q | 0 <= p < q < |s| - 1 ensures s[1..][p] <= s[1..][q] {
      assert s[1..][p] == s[p + 1] && s[1..][q] == s[q + 1];
    }
  }

  lemma TailMultiset(s: seq<int>)
    requires |s| > 0
    ensures multiset(s[1..]) == multiset(s) - multiset{s[0]}
  {
    assert s == [s[0]] + s[1..];
  }

  lemma MedianOfAnySortedPermutation(s: seq<int>, t: seq<int>)
    requires |s| > 0 && Sorted(t) && multiset(t) == multiset(s)
    ensures |t| == |s| && Median(s) == t[|t| / 2]
  {
    SortedPermutationUnique(t, SortSeq(s));
  }

  /** The median is one of the samples of the neighbourhood. */
  lemma MedianIsASample(s: seq<int>)
    requires |s| > 0
    ensures Median(s) in s
  {
    var r := SortSeq(s);
    assert r[|s| / 2] in multiset(r);
  }

  /** C++'s kernelSize / 2, which rounds toward zero: -1 / 2 is 0, where
      Dafny's Euclidean division gives -1. */
  function Half(k: int): (h: int)
    ensures k >= 0 ==> 0 <= k - 2 * h <= 1
    ensures k < 0 ==> -1 <= k - 2 * h <= 0
    ensures k >= -1 ==> h >= 0
  {
    if k >= 0 then k / 2 else -((-k) / 2)
  }

  /** The value filterNoise gives pixel (y, x). */
  function FilteredPixel(img: seq<seq<int>>, rows: nat, cols: nat, kernelSize: int, y: int, x: int): int
    requires IsGrid(img, rows, cols) && 0 <= y < rows && 0 <= x < cols
    requires kernelSize % 2 == 0 || kernelSize >= -1
  {
    if kernelSize % 2 == 0 then img[y][x]
    else
      var pad := Half(kernelSize);
      if pad <= y < rows - pad && pad <= x < cols - pad
      then NeighborhoodValue(img, rows, cols, pad, y, x)
      else img[y][x]
  }

  /** The median of the neighbourhood of half-size pad around (y, x). */
  function NeighborhoodValue(img: seq<seq<int>>, rows: nat, cols: nat, pad: int, y: int, x: int): int
    requires IsGrid(img, rows, cols) && 0 <= pad <= y < rows - pad && pad <= x < cols - pad
  {
    Median(Window(img, y - pad, y + pad + 1, x - pad, x + pad + 1))
  }

  /** With kernel size 1, and with -1 (whose half rounds to 0), every
      neighbourhood is the pixel itself: the filter is the identity. */
  lemma UnitKernelIsIdentity(img: seq<seq<int>>, rows: nat, cols: nat, kernelSize: int, y: int, x: int)
    requires IsGrid(img, rows, cols) && 0 <= y < rows && 0 <= x < cols
    requires kernelSize == 1 || kernelSize == -1
    ensures FilteredPixel(img, rows, cols, kernelSize, y, x) == img[y][x]
  {
    var pad := Half(kernelSize);
    FilteredPixelInterior(img, rows, cols, kernelSize, pad, y, x);
    SingletonWindow(img, rows, cols, pad, y, x);
  }

  /** An odd kernel replaces a pixel whose whole neighbourhood lies in the
      image by the median of that neighbourhood. */
  lemma FilteredPixelInterior(img: seq<seq<int>>, rows: nat, cols: nat, kernelSize: int, pad: int, y: int, x: int)
    requires IsGrid(img, rows, cols) && kernelSize % 2 == 1 && kernelSize >= -1 && pad == Half(kernelSize)
    requires pad <= y < rows - pad && pad <= x < cols - pad
    ensures FilteredPixel(img, rows, cols, kernelSize, y, x) == Median(Window(img, y - pad, y + pad + 1, x - pad, x + pad + 1))
  {
  }

  /** The window of a single pixel has that pixel's sample as its median. */
  lemma SingletonWindow(img: seq<seq<int>>, rows: nat, cols: nat, pad: int, y: int, x: int)
    requires IsGrid(img, rows, cols) && 0 <= y < rows && 0 <= x < cols && pad == 0
    ensures Median(Window(img, y - pad, y + pad + 1, x - pad, x + pad + 1)) == img[y][x]
  {
    var w := Window(img, y - pad, y + pad + 1, x - pad, x + pad + 1);
    assert w == [] + img[y][x..x + 1];
    assert w == [img[y][x]];
    MedianOfAnySortedPermutation(w, w);
  }

  /** An even kernel, and every pixel within half a kernel of an edge, keeps
      its input value. */
  lemma FilteredPixelAtEdge(img: seq<seq<int>>, rows: nat, cols: nat, kernelSize: int, y: int, x: int)
    requires IsGrid(img, rows, cols) && 0 <= y < rows && 0 <= x < cols
    requires kernelSize % 2 == 0 || kernelSize >= -1
    requires var pad := Half(kernelSize);
      kernelSize % 2 == 0 || y < pad || y >= rows - pad || x < pad || x >= cols - pad
    ensures FilteredPixel(img, rows, cols, kernelSize, y, x) == img[y][x]
  {
  }

  /** v is the input sample of a pixel at most pad rows and pad columns away
      from (y, x). */
  ghost predicate NearSample(img: seq<seq<int>>, rows: nat, cols: nat, y: int, x: int, pad: int, v: int)
    requires IsGrid(img, rows, cols)
  {
    exists r, c :: 0 <= r < rows && 0 <= c < cols && Abs(r - y) <= pad && Abs(c - x) <= pad && v == img[r][c]
  }

  /** Every output value is the pixel's own input value or one of the input
      samples within half a kernel of the pixel. */
  lemma FilteredPixelIsASample(img: seq<seq<int>>, rows: nat, cols: nat, kernelSize: int, y: int, x: int)
    requires IsGrid(img, rows, cols) && 0 <= y < rows && 0 <= x < cols
    requires kernelSize % 2 == 0 || kernelSize >= -1
    ensures var v := FilteredPixel(img, rows, cols, kernelSize, y, x);
      v == img[y][x] || NearSample(img, rows, cols, y, x, Half(kernelSize), v)
  {
    var pad := Half(kernelSize);
    if kernelSize % 2 != 0 && pad <= y < rows - pad && pad <= x < cols - pad {
      FilteredPixelInterior(img, rows, cols, kernelSize, pad, y, x);
      MedianInWindow(img, rows, cols, pad, y, x);
    } else {
      assert FilteredPixel(img, rows, cols, kernelSize, y, x) == img[y][x];
    }
  }

  /** The median of the window of half-size pad around (y, x) is the sample
      of a pixel at most pad rows and pad columns away. */
  lemma MedianInWindow(img: seq<seq<int>>, rows: nat, cols: nat, pad: int, y: int, x: int)
    requires IsGrid(img, rows, cols) && 0 <= pad <= y < rows - pad && pad <= x < cols - pad
    ensures NearSample(img, rows, cols, y, x, pad, Median(Window(img, y - pad, y + pad + 1, x - pad, x + pad + 1)))
  {
    var w := Window(img, y - pad, y + pad + 1, x - pad, x + pad + 1);
    MedianIsASample(w);
    WindowMember(img, rows, cols, y - pad, y + pad + 1, x - pad, x + pad + 1, Median(w));
    var r, c :| y - pad <= r < y + pad + 1 && x - pad <= c < x + pad + 1 && img[r][c] == Median(w);
    assert Abs(r - y) <= pad && Abs(c - x) <= pad;
  }

  /** The filtered image of an 8-bit image stays 8-bit. */
  lemma FilteredPixelInRange(img: seq<seq<int>>, rows: nat, cols: nat, kernelSize: int, y: int, x: int)
    requires IsImage(img, rows, cols) && 0 <= y < rows && 0 <= x < cols
    requires kernelSize % 2 == 0 || kernelSize >= -1
    ensures 0 <= FilteredPixel(img, rows, cols, kernelSize, y, x) < 256
  {
    FilteredPixelIsASample(img, rows, cols, kernelSize, y, x);
  }

  /** Every sample of a window is the sample of some pixel inside it. */
  lemma {:induction false} WindowMember(img: seq<seq<int>>, rows: nat, cols: nat, top: int, bottom: int, left: int, right: int,
                                        v: int)
    requires IsGrid(img, rows, cols) && 0 <= top <= bottom <= rows && 0 <= left <= right <= cols
    requires v in Window(img, top, bottom, left, right)
    ensures exists r, c :: top <= r < bottom && left <= c < right && img[r][c] == v
    decreases bottom - top
  {
    var w0 := Window(img, top, bottom - 1, left, right);
    var row := img[bottom - 1][left..right];
    assert Window(img, top, bottom, left, right) == w0 + row;
    if v in w0 {
      WindowMember(img, rows, cols, top, bottom - 1, left, right, v);
    } else {
      var k :| 0 <= k < right - left && row[k] == v;
      assert img[bottom - 1][left + k] == v;
    }
  }

  /** A window depends only on the samples inside it. */
  lemma {:induction false} WindowLocal(img: seq<seq<int>>, other: seq<seq<int>>, rows: nat, cols: nat,
                                       top: int, bottom: int, left: int, right: int)
    requires IsGrid(img, rows, cols) && IsGrid(other, rows, cols)
    requires 0 <= top <= bottom <= rows && 0 <= left <= right <= cols
    requires forall r, c :: top <= r < bottom && left <= c < right ==> img[r][c] == other[r][c]
    ensures Window(img, top, bottom, left, right) == Window(other, top, bottom, left, right)
    decreases bottom - top
  {
    if bottom > top {
      WindowLocal(img, other, rows, cols, top, bottom - 1, left, right);
      assert img[bottom - 1][left..right] == other[bottom - 1][left..right];
    }
  }

  /** Each output pixel depends only on the input samples of its own
      neighbourhood (and the pixel itself), never on other output pixels, so
      the order in which filterNoise visits the pixels does not matter. */
  lemma FilteredPixelIsLocal(img: seq<seq<int>>, other: seq<seq<int>>, rows: nat, cols: nat, kernelSize: int, y: int, x: int)
    requires IsGrid(img, rows, cols) && IsGrid(other, rows, cols) && 0 <= y < rows && 0 <= x < cols
    requires kernelSize % 2 == 0 || kernelSize >= -1
    requires img[y][x] == other[y][x]
    requires forall r, c ::
      (0 <= r < rows && 0 <= c < cols && Abs(r - y) <= Half(kernelSize) && Abs(c - x) <= Half(kernelSize)) ==>
        img[r][c] == other[r][c]
    ensures FilteredPixel(img, rows, cols, kernelSize, y, x) == FilteredPixel(other, rows, cols, kernelSize, y, x)
  {
    var pad := Half(kernelSize);
    if kernelSize % 2 != 0 && pad <= y < rows - pad && pad <= x < cols - pad {
      NeighborhoodsAgree(img, other, rows, cols, pad, y, x);
      FilteredPixelInterior(img, rows, cols, kernelSize, pad, y, x);
      FilteredPixelInterior(other, rows, cols, kernelSize, pad, y, x);
    }
  }

  /** Two images that agree within pad of (y, x) have the same window there. */
  lemma NeighborhoodsAgree(img: seq<seq<int>>, other: seq<seq<int>>, rows: nat, cols: nat, pad: int, y: int, x: int)
    requires IsGrid(img, rows, cols) && IsGrid(other, rows, cols) && 0 <= pad <= y < rows - pad && pad <= x < cols - pad
    requires forall r, c ::
      (0 <= r < rows && 0 <= c < cols && Abs(r - y) <= pad && Abs(c - x) <= pad) ==> img[r][c] == other[r][c]
    ensures Window(img, y - pad, y + pad + 1, x - pad, x + pad + 1) == Window(other, y - pad, y + pad + 1, x - pad, x + pad + 1)
  {
    forall r, c | y - pad <= r < y + pad + 1 && x - pad <= c < x + pad + 1 ensures img[r][c] == other[r][c] {
      assert Abs(r - y) <= pad && Abs(c - x) <= pad;
    }
    WindowLocal(img, other, rows, cols, y - pad, y + pad + 1, x - pad, x + pad + 1);
  }

  /** Collects the kernel neighbourhood of (i, j) row by row, sorts it and
      returns its middle element. */
  method NeighborhoodMedian(inputImage: seq<seq<int>>, rows: nat, cols: nat, i: int, j: int, pad: int) returns (medianValue: int)
    requires IsGrid(inputImage, rows, cols)
    requires 0 <= pad <= i < rows - pad && pad <= j < cols - pad
    ensures medianValue == Median(Window(inputImage, i - pad, i + pad + 1, j - pad, j + pad + 1))
  {
    var neighbors: seq<int> := [];
    var k := -pad;
    while k <= pad
      invariant -pad <= k <= pad + 1
      invariant neighbors == Window(inputImage, i - pad, i + k, j - pad, j + pad + 1)
    {
      var l := -pad;
      while l <= pad
        invariant -pad <= l <= pad + 1
        invariant neighbors == Window(inputImage, i - pad, i + k, j - pad, j + pad + 1) + inputImage[i + k][j - pad..j + l]
      {
        assert inputImage[i + k][j - pad..j + l + 1] == inputImage[i + k][j - pad..j + l] + [inputImage[i + k][j + l]];
        neighbors := neighbors + [inputImage[i + k][j + l]];
        l := l + 1;
      }
      k := k + 1;
    }
    var sorted := SortSeq(neighbors);
    medianValue := sorted[|neighbors| / 2];
  }

  /** filterNoise: an even kernel size gives an unchanged copy; otherwise
      every pixel whose whole kernel neighbourhood lies in the image becomes
      the median of that neighbourhood in the input, and the others keep
      their input value. */
  method FilterNoise(inputImage: seq<seq<int>>, rows: nat, cols: nat, kernelSize: int) returns (outputImage: array2<int>)
    requires IsGrid(inputImage, rows, cols)
    requires kernelSize % 2 == 0 || kernelSize >= -1
    ensures fresh(outputImage)
    ensures outputImage.Length0 == rows && outputImage.Length1 == cols
    ensures forall y, x :: 0 <= y < rows && 0 <= x < cols ==>
      outputImage[y, x] == FilteredPixel(inputImage, rows, cols, kernelSize, y, x)
  {
    outputImage := new int[rows, cols]((y, x) requires 0 <= y < rows && 0 <= x < cols => inputImage[y][x]);
    if kernelSize % 2 == 0 {
      return;
    }
    var pad := Half(kernelSize);
    var i := pad;
    while i < rows - pad
      invariant pad <= i && (i <= rows - pad || i == pad)
      invariant forall y, x :: 0 <= y < rows && 0 <= x < cols ==>
        outputImage[y, x] == if y < i then FilteredPixel(inputImage, rows, cols, kernelSize, y, x) else inputImage[y][x]
    {
      FilterRow(inputImage, rows, cols, kernelSize, outputImage, i);
      i := i + 1;
    }
  }

  /** The inner loop of filterNoise: writes the medians of row i. */
  method FilterRow(inputImage: seq<seq<int>>, rows: nat, cols: nat, kernelSize: int, outputImage: array2<int>, i: int)
    requires IsGrid(inputImage, rows, cols) && kernelSize % 2 == 1 && kernelSize >= -1
    requires outputImage.Length0 == rows && outputImage.Length1 == cols
    requires Half(kernelSize) <= i < rows - Half(kernelSize)
    requires forall x :: 0 <= x < cols ==> outputImage[i, x] == inputImage[i][x]
    modifies outputImage
    ensures forall y, x :: 0 <= y < rows && 0 <= x < cols ==>
      outputImage[y, x] == if y == i then FilteredPixel(inputImage, rows, cols, kernelSize, y, x) else old(outputImage[y, x])
  {
    var pad := Half(kernelSize);
    var j := pad;
    while j < cols - pad
      invariant pad <= j && (j <= cols - pad || j == pad)
      invariant forall y, x :: 0 <= y < rows && 0 <= x < cols && y != i ==> outputImage[y, x] == old(outputImage[y, x])
      invariant forall x :: 0 <= x < j && x < cols ==> outputImage[i, x] == FilteredPixel(inputImage, rows, cols, kernelSize, i, x)
      invariant forall x :: j <= x < cols ==> outputImage[i, x] == inputImage[i][x]
    {
      FilterPixel(inputImage, rows, cols, kernelSize, outputImage, i, j);
      j := j + 1;
    }
  }

  /** The body of the inner loop: pixel (i, j) becomes the median of its
      neighbourhood and nothing else changes. */
  method FilterPixel(inputImage: seq<seq<int>>, rows: nat, cols: nat, kernelSize: int, outputImage: array2<int>,
                     i: int, j: int)
    requires IsGrid(inputImage, rows, cols) && kernelSize % 2 == 1 && kernelSize >= -1
    requires outputImage.Length0 == rows && outputImage.Length1 == cols
    requires Half(kernelSize) <= i < rows - Half(kernelSize) && Half(kernelSize) <= j < cols - Half(kernelSize)
    modifies outputImage
    ensures outputImage[i, j] == FilteredPixel(inputImage, rows, cols, kernelSize, i, j)
    ensures forall y, x :: 0 <= y < rows && 0 <= x < cols && (y != i || x != j) ==>
      outputImage[y, x] == old(outputImage[y, x])
  {
    var pad := Half(kernelSize);
    FilteredPixelInterior(inputImage, rows, cols, kernelSize, pad, i, j);
    var medianValue := NeighborhoodMedian(inputImage, rows, cols, i, j, pad);
    outputImage[i, j] := medianValue;
  }
}
