/** The region grower: seeds a label grid, grows regions breadth-first,
    gathers border statistics, merges similar neighbours, colours the result
    and extracts region borders. */
module Segmentation {
  import opened Raster
  import opened Seeding
  import opened BorderStatistics
  import opened Merging
  import opened Growth

  /** What seeding and growth leave on an image with `seedCount` requested
      seeds: `seeded` holds exactly the seeds of the layout, and `grown` is
      breadth-first growth from them, in queue order. */
  ghost predicate SeedAndGrowOutcome(img: seq<seq<int>>, rows: nat, cols: nat, seedCount: nat,
                                     seeded: seq<seq<int>>, grown: seq<seq<int>>)
  {
    IsGrid(img, rows, cols) && rows > 0 && cols > 0 && seedCount > 0 &&
    var s := Seeds(LayoutFor(rows, cols, seedCount));
    |s| <= seedCount && SeedGrid(seeded, s, rows, cols) && seeded == StoredSeedGrid(s, rows, cols) &&
    GrownFrom(img, seeded, grown, rows, cols, |s|) &&
    grown == BreadthFirstGrowth(img, seeded, rows, cols, SeedQueue(img, s, rows, cols))
  }

  /** (y, x) is a pixel of a colour map whose colour differs from that of an
      in-bounds left, right, upper or lower neighbour. */
  ghost predicate IsBorderPixel(c: array2<Color>, y: int, x: int)
    requires 0 <= y < c.Length0 && 0 <= x < c.Length1
    reads c
  {
    (x > 0 && c[y, x] != c[y, x - 1]) ||
    (x < c.Length1 - 1 && c[y, x] != c[y, x + 1]) ||
    (y > 0 && c[y, x] != c[y - 1, x]) ||
    (y < c.Length0 - 1 && c[y, x] != c[y + 1, x])
  }

  /** (y, x) is a pixel of a label grid whose label differs from that of an
      in-bounds left, right, upper or lower neighbour. */
  ghost predicate LabelBorder(labels: seq<seq<int>>, rows: nat, cols: nat, y: int, x: int)
    requires IsGrid(labels, rows, cols) && 0 <= y < rows && 0 <= x < cols
  {
    (x > 0 && labels[y][x] != labels[y][x - 1]) ||
    (x < cols - 1 && labels[y][x] != labels[y][x + 1]) ||
    (y > 0 && labels[y][x] != labels[y - 1][x]) ||
    (y < rows - 1 && labels[y][x] != labels[y + 1][x])
  }

  /** A colour map painted from a label grid through a colour table marks
      only label borders, since one label has one colour; with pairwise
      distinct colours it marks every label border. */
  lemma BordersFollowLabels(c: array2<Color>, colors: seq<Color>, labels: seq<seq<int>>, y: int, x: int)
    requires IsGrid(labels, c.Length0, c.Length1) && 0 <= y < c.Length0 && 0 <= x < c.Length1
    requires forall y', x' :: 0 <= y' < c.Length0 && 0 <= x' < c.Length1 ==>
      0 <= labels[y'][x'] < |colors| && c[y', x'] == colors[labels[y'][x']]
    ensures IsBorderPixel(c, y, x) ==> LabelBorder(labels, c.Length0, c.Length1, y, x)
    ensures (forall p, q :: 0 <= p < q < |colors| ==> colors[p] != colors[q]) ==>
      LabelBorder(labels, c.Length0, c.Length1, y, x) ==> IsBorderPixel(c, y, x)
  {
  }

  class RegionGrower {
    const originalImage: seq<seq<int>>
    const rows: nat
    const cols: nat
    /** The label grid; 0 means "no region yet". */
    const regionMap: array2<int>
    var pixelQueue: seq<PixelInfo>
    var borderEffectiveness: array2<int>
    var borderSimilarity: array2<real>

    ghost predicate Valid()
    {
      IsImage(originalImage, rows, cols) && regionMap.Length0 == rows && regionMap.Length1 == cols
    }

    /** A grower for an 8-bit image, with an all-zero label grid. */
    constructor (img: seq<seq<int>>, rows: nat, cols: nat)
      requires IsImage(img, rows, cols)
      ensures Valid() && originalImage == img && this.rows == rows && this.cols == cols
      ensures fresh(regionMap) && pixelQueue == []
      ensures forall y, x :: 0 <= y < rows && 0 <= x < cols ==> regionMap[y, x] == 0
    {
      originalImage := img;
      this.rows := rows;
      this.cols := cols;
      regionMap := new int[rows, cols]((y, x) => 0);
      pixelQueue := [];
      borderEffectiveness := new int[0, 0];
      borderSimilarity := new real[0, 0];
    }

    /** (x, y) is a column and row of the image, and so indexes the label
        grid as well. */
    function IsValidCoordinate(x: int, y: int): (valid: bool)
      ensures valid <==> InImage(Cell(y, x), rows, cols)
      ensures Valid() ==> (valid <==> 0 <= y < regionMap.Length0 && 0 <= x < regionMap.Length1)
    {
      0 <= y < rows && 0 <= x < cols
    }

    /** p is the current sample of an in-bounds 4-neighbour of `pixel`: its
        label read from the label grid and its intensity from the image. */
    ghost predicate NeighborSample(pixel: PixelInfo, p: PixelInfo)
      requires Valid()
      reads regionMap
    {
      IsValidCoordinate(p.posX, p.posY) &&
      Cell(p.posY, p.posX) in FourNeighbors(pixel.posY, pixel.posX) &&
      p.category == regionMap[p.posY, p.posX] &&
      p.intensity == originalImage[p.posY][p.posX]
    }

    /** Appends the sample at (x, y), with its current label and intensity,
        when (x, y) lies in the image; `labels` is the (ghost) content of the
        label grid. */
    method AddNeighbor(x: int, y: int, neighbors: seq<PixelInfo>, ghost labels: seq<seq<int>>)
      returns (result: seq<PixelInfo>)
      requires Valid() && Mirrors(labels)
      ensures result == neighbors + SampleIfInImage(originalImage, labels, rows, cols, x, y)
    {
      result := neighbors;
      if IsValidCoordinate(x, y) {
        var sample := PixelInfo(regionMap[y, x], x, y, originalImage[y][x]);
        result := result + [sample];
      }
    }

    /** The in-image 4-neighbours of a sample, each read afresh from the
        label grid (whose contents are the ghost `labels`) and the image:
        exactly the in-image samples left, right, above and below, in that
        order. */
    method FindNeighbors(pixel: PixelInfo, ghost labels: seq<seq<int>>) returns (neighbors: seq<PixelInfo>)
      requires Valid() && Mirrors(labels)
      ensures neighbors == NeighborSamples(originalImage, labels, rows, cols, pixel)
      ensures forall u :: 0 <= u < |neighbors| ==> NeighborSample(pixel, neighbors[u])
      ensures forall c :: c in FourNeighbors(pixel.posY, pixel.posX) && IsValidCoordinate(c.col, c.row) ==>
        c in CellsOf(neighbors)
    {
      var x, y := pixel.posX, pixel.posY;
      ghost var left := SampleIfInImage(originalImage, labels, rows, cols, x - 1, y);
      ghost var right := SampleIfInImage(originalImage, labels, rows, cols, x + 1, y);
      ghost var up := SampleIfInImage(originalImage, labels, rows, cols, x, y - 1);
      ghost var down := SampleIfInImage(originalImage, labels, rows, cols, x, y + 1);
      neighbors := [];
      neighbors := AddNeighbor(x - 1, y, neighbors, labels);
      assert neighbors == left;
      neighbors := AddNeighbor(x + 1, y, neighbors, labels);
      assert neighbors == left + right;
      neighbors := AddNeighbor(x, y - 1, neighbors, labels);
      assert neighbors == left + right + up;
      neighbors := AddNeighbor(x, y + 1, neighbors, labels);
      assert neighbors == left + right + up + down == NeighborSamples(originalImage, labels, rows, cols, pixel);
      NeighborSamplesAreCurrent(pixel, labels);
    }

    /** The listed samples are the current in-image 4-neighbours of pixel,
        and all of them. */
    lemma NeighborSamplesAreCurrent(pixel: PixelInfo, labels: seq<seq<int>>)
      requires Valid() && Mirrors(labels)
      ensures var ns := NeighborSamples(originalImage, labels, rows, cols, pixel);
        (forall u :: 0 <= u < |ns| ==> NeighborSample(pixel, ns[u])) &&
        (forall c :: c in FourNeighbors(pixel.posY, pixel.posX) && IsValidCoordinate(c.col, c.row) ==> c in CellsOf(ns))
    {
      var ns := NeighborSamples(originalImage, labels, rows, cols, pixel);
      NeighborSamplesCover(originalImage, labels, rows, cols, pixel);
      forall u | 0 <= u < |ns| ensures NeighborSample(pixel, ns[u]) {
        var c := Cell(ns[u].posY, ns[u].posX);
        assert regionMap[c.row, c.col] == labels[c.row][c.col];
      }
    }

    // ---------------------------------------------------------------- seeding

    /** The queue and the label grid hold exactly the seeds s: seed t sits in
        the queue at position t with id t + 1, its cell carries label t + 1,
        and every other cell is still 0. */
    ghost predicate Seeded(s: seq<Cell>, queue: seq<PixelInfo>)
      requires Valid()
      reads regionMap
    {
      |queue| == |s| &&
      (forall t :: 0 <= t < |s| ==>
        IsValidCoordinate(s[t].col, s[t].row) &&
        queue[t] == PixelInfo(t + 1, s[t].col, s[t].row, originalImage[s[t].row][s[t].col]) &&
        regionMap[s[t].row, s[t].col] == t + 1) &&
      (forall y, x :: 0 <= y < rows && 0 <= x < cols ==>
        regionMap[y, x] != 0 ==> Cell(y, x) in s)
    }

    /** One seeding step at cell (y, x): the cell becomes seed number
        seedIndex when it is still unlabelled, and nothing changes otherwise. */
    method PlaceSeed(x: int, y: int, seedIndex: int, ghost s: seq<Cell>, ghost limit: nat) returns (next: int)
      requires Valid() && IsValidCoordinate(x, y)
      requires Seeded(s, pixelQueue) && seedIndex == |pixelQueue| + 1 && seedIndex <= limit <= 255
      modifies this`pixelQueue, regionMap
      ensures Seeded(Accept(s, Cell(y, x), limit), pixelQueue) && next == |pixelQueue| + 1
    {
      next := seedIndex;
      if regionMap[y, x] == 0 {
        ghost var c := Cell(y, x);
        assert c !in s;
        ghost var q := pixelQueue;
        pixelQueue := pixelQueue + [PixelInfo(seedIndex, x, y, originalImage[y][x])];
        regionMap[y, x] := StoredLabel(seedIndex);
        next := seedIndex + 1;
        ghost var s' := s + [c];
        assert Accept(s, c, limit) == s';
        forall t | 0 <= t < |s'|
          ensures IsValidCoordinate(s'[t].col, s'[t].row)
          ensures pixelQueue[t] == PixelInfo(t + 1, s'[t].col, s'[t].row, originalImage[s'[t].row][s'[t].col])
          ensures regionMap[s'[t].row, s'[t].col] == t + 1
        {
          if t < |s| {
            assert s'[t] == s[t] && s[t] != c;
          }
        }
      } else {
        assert Cell(y, x) in s;
      }
    }

    /** Grid seeding: visits the cell centres row by row and numbers the
        accepted ones 1, 2, ...; returns the next unused id. */
    method Seed(seedCount: nat) returns (seedIndex: int)
      requires Valid() && rows > 0 && cols > 0 && 0 < seedCount <= 255
      requires pixelQueue == []
      requires forall y, x :: 0 <= y < rows && 0 <= x < cols ==> regionMap[y, x] == 0
      modifies this`pixelQueue, regionMap
      ensures Seeded(Seeds(LayoutFor(rows, cols, seedCount)), pixelQueue)
      ensures seedIndex == |pixelQueue| + 1 && |pixelQueue| <= seedCount
    {
      ghost var lay := LayoutFor(rows, cols, seedCount);
      var gridRows := CeilSqrt(seedCount);
      var gridCols := CeilSqrt(seedCount);
      var dx := cols / gridCols;
      var dy := rows / gridRows;
      assert lay == Layout(gridRows, dx, dy, rows, cols, seedCount);
      seedIndex := 1;
      var i := 0;
      while i < gridRows
        invariant 0 <= i <= gridRows
        invariant Seeded(SeedsBefore(lay, i, 0), pixelQueue) && seedIndex == |pixelQueue| + 1
      {
        seedIndex := SeedRow(lay, i, gridCols, dx, dy, seedCount, seedIndex);
        assert SeedsBefore(lay, i + 1, 0) == SeedsBefore(lay, i, gridCols);
        i := i + 1;
      }
      SeedsWellFormed(lay, gridRows, 0);
    }

    /** The inner loop of seeding: the cells of grid row i, left to right,
        stopping once every seed is placed. */
    method SeedRow(ghost lay: Layout, i: nat, gridCols: nat, dx: nat, dy: nat, seedCount: nat, seedIndex0: int) returns (seedIndex: int)
      requires Valid() && lay.Valid() && i < lay.grid
      requires lay == Layout(gridCols, dx, dy, rows, cols, seedCount) && seedCount <= 255
      requires Seeded(SeedsBefore(lay, i, 0), pixelQueue) && seedIndex0 == |pixelQueue| + 1
      modifies this`pixelQueue, regionMap
      ensures Seeded(SeedsBefore(lay, i, lay.grid), pixelQueue) && seedIndex == |pixelQueue| + 1
    {
      seedIndex := seedIndex0;
      ghost var seeds := SeedsBefore(lay, i, 0);
      var j := 0;
      while j < gridCols
        invariant 0 <= j <= gridCols
        invariant seeds == SeedsBefore(lay, i, j)
        invariant Seeded(seeds, pixelQueue) && seedIndex == |pixelQueue| + 1
      {
        if seedIndex > seedCount {
          SeedsSaturated(lay, i, j, gridCols);
          break;
        }
        var x := j * dx + dx / 2;
        var y := i * dy + dy / 2;
        if x >= cols { x := cols - 1; }
        if y >= rows { y := rows - 1; }
        assert Cell(y, x) == CellCentre(lay, i, j);
        seedIndex := PlaceSeed(x, y, seedIndex, seeds, seedCount);
        seeds := Accept(seeds, Cell(y, x), seedCount);
        j := j + 1;
      }
    }

    // ----------------------------------------------------------------- growth

    /** Seeding leaves the grid in the state growth starts from: the queue
        holds every labelled cell, with labels 1..|s|. */
    lemma SeedingStartsGrowth(s: seq<Cell>)
      requires Valid() && Seeded(s, pixelQueue)
      ensures var labels := Snapshot(regionMap);
        GrowthInvariant(originalImage, labels, labels, rows, cols, |s|, pixelQueue, ZeroCells(labels, rows, cols), [], {})
    {
      var labels := Snapshot(regionMap);
      forall t | 0 <= t < |pixelQueue| ensures Queued(originalImage, labels, rows, cols, pixelQueue[t], |s|) {
        assert regionMap[s[t].row, s[t].col] == t + 1;
      }
      forall y, x | 0 <= y < rows && 0 <= x < cols
        ensures CellKept(originalImage, labels, labels, rows, cols, |s|, pixelQueue, [], {}, y, x)
      {
        if labels[y][x] != 0 {
          var t :| 0 <= t < |s| && s[t] == Cell(y, x);
          assert pixelQueue[t] in pixelQueue;
        }
      }
    }

    /** labels is the current content of the label grid. */
    ghost predicate Mirrors(labels: seq<seq<int>>)
      requires Valid()
      reads regionMap
    {
      IsGrid(labels, rows, cols) && forall y, x :: 0 <= y < rows && 0 <= x < cols ==> regionMap[y, x] == labels[y][x]
    }

    /** The body of the neighbour loop: a growable neighbour whose cell is
        still unlabelled takes the current sample's label and joins the
        queue; otherwise nothing changes. */
    method ClaimNeighbor(current: PixelInfo, neighbor: PixelInfo)
      requires Valid() && IsValidCoordinate(neighbor.posX, neighbor.posY)
      modifies this`pixelQueue, regionMap
      ensures var claims := GrowthCriterion(current, neighbor) && old(regionMap[neighbor.posY, neighbor.posX]) == 0;
        (forall y, x :: 0 <= y < rows && 0 <= x < cols ==>
          regionMap[y, x] == if claims && y == neighbor.posY && x == neighbor.posX then StoredLabel(current.category)
                             else old(regionMap[y, x])) &&
        pixelQueue == if claims then old(pixelQueue) + [neighbor.(category := current.category)] else old(pixelQueue)
    {
      if GrowthCriterion(current, neighbor) && regionMap[neighbor.posY, neighbor.posX] == 0 {
        regionMap[neighbor.posY, neighbor.posX] := StoredLabel(current.category);
        var claimed := neighbor.(category := current.category);
        pixelQueue := pixelQueue + [claimed];
      }
    }

    /** One iteration of the neighbour loop, with what it does to the
        growth invariant: the neighbour's cell is labelled afterwards if it
        is growable from the current sample, and labels already set stay. */
    method VisitNeighbor(current: PixelInfo, neighbor: PixelInfo, ghost k: nat, ghost initial: seq<seq<int>>,
                         ghost labels: seq<seq<int>>, ghost unlabelled: set<Cell>, ghost order: seq<Cell>)
      returns (ghost labels': seq<seq<int>>, ghost unlabelled': set<Cell>, ghost order': seq<Cell>)
      requires Valid() && Mirrors(labels)
      requires GrowthInvariant(originalImage, initial, labels, rows, cols, k, pixelQueue,
                               unlabelled, order, {Cell(current.posY, current.posX)})
      requires Queued(originalImage, labels, rows, cols, current, k) && k <= 255
      requires IsValidCoordinate(neighbor.posX, neighbor.posY)
      requires Cell(neighbor.posY, neighbor.posX) in FourNeighbors(current.posY, current.posX)
      requires neighbor.intensity == originalImage[neighbor.posY][neighbor.posX]
      modifies this`pixelQueue, regionMap
      ensures Mirrors(labels') && Queued(originalImage, labels', rows, cols, current, k)
      ensures GrowthInvariant(originalImage, initial, labels', rows, cols, k, pixelQueue,
                              unlabelled', order', {Cell(current.posY, current.posX)})
      ensures Extends(labels, labels', rows, cols)
      ensures Absorbed(originalImage, labels', rows, cols, Cell(current.posY, current.posX), Cell(neighbor.posY, neighbor.posX))
      ensures |unlabelled'| <= |unlabelled| && (|unlabelled'| == |unlabelled| ==> pixelQueue == old(pixelQueue))
      ensures Visit(labels', pixelQueue) == VisitStep(originalImage, rows, cols, current, Visit(labels, old(pixelQueue)), neighbor)
    {
      labels', unlabelled', order' := labels, unlabelled, order;
      ghost var cur := Cell(current.posY, current.posX);
      ghost var n := Cell(neighbor.posY, neighbor.posX);
      ghost var claims := GrowthCriterion(current, neighbor) && labels[n.row][n.col] == 0;
      ClaimNeighbor(current, neighbor);
      assert StoredLabel(current.category) == current.category;
      if claims {
        assert GrowsAcross(originalImage, rows, cols, cur, n);
        ClaimStep(originalImage, initial, labels, rows, cols, k, old(pixelQueue), unlabelled, order, cur, n);
        labels' := SetLabel(labels, rows, cols, n, current.category);
        assert n in unlabelled;
        unlabelled', order' := unlabelled - {n}, order + [n];
      }
    }

    /** Iteration t of the neighbour loop, from a state the loop reached by
        visiting neighbors[..t] from `start`: afterwards the state is the one
        visiting neighbors[..t + 1] gives, and neighbour t is absorbed along
        with those before it. */
    method VisitNext(current: PixelInfo, neighbors: seq<PixelInfo>, t: nat, ghost start: Visit, ghost k: nat,
                     ghost initial: seq<seq<int>>, ghost labels: seq<seq<int>>, ghost unlabelled: set<Cell>,
                     ghost order: seq<Cell>)
      returns (ghost labels': seq<seq<int>>, ghost unlabelled': set<Cell>, ghost order': seq<Cell>)
      requires Valid() && Mirrors(labels) && IsGrid(start.labels, rows, cols) && t < |neighbors|
      requires GrowthInvariant(originalImage, initial, labels, rows, cols, k, pixelQueue,
                               unlabelled, order, {Cell(current.posY, current.posX)})
      requires Queued(originalImage, labels, rows, cols, current, k) && k <= 255
      requires IsValidCoordinate(neighbors[t].posX, neighbors[t].posY)
      requires Cell(neighbors[t].posY, neighbors[t].posX) in FourNeighbors(current.posY, current.posX)
      requires neighbors[t].intensity == originalImage[neighbors[t].posY][neighbors[t].posX]
      requires forall u :: 0 <= u < |neighbors| ==> InImage(Cell(neighbors[u].posY, neighbors[u].posX), rows, cols)
      requires forall u :: 0 <= u < t ==>
        Absorbed(originalImage, labels, rows, cols, Cell(current.posY, current.posX),
                 Cell(neighbors[u].posY, neighbors[u].posX))
      requires Visit(labels, pixelQueue) == VisitAll(originalImage, rows, cols, current, start, neighbors[..t])
      modifies this`pixelQueue, regionMap
      ensures Mirrors(labels') && Queued(originalImage, labels', rows, cols, current, k)
      ensures GrowthInvariant(originalImage, initial, labels', rows, cols, k, pixelQueue,
                              unlabelled', order', {Cell(current.posY, current.posX)})
      ensures forall u :: 0 <= u < t + 1 ==>
        Absorbed(originalImage, labels', rows, cols, Cell(current.posY, current.posX),
                 Cell(neighbors[u].posY, neighbors[u].posX))
      ensures |unlabelled'| <= |unlabelled| && (|unlabelled'| == |unlabelled| ==> pixelQueue == old(pixelQueue))
      ensures Visit(labels', pixelQueue) == VisitAll(originalImage, rows, cols, current, start, neighbors[..t + 1])
    {
      VisitAllSnoc(originalImage, rows, cols, current, start, neighbors, t);
      labels', unlabelled', order' := VisitNeighbor(current, neighbors[t], k, initial, labels, unlabelled, order);
      forall u | 0 <= u < t
        ensures Absorbed(originalImage, labels', rows, cols, Cell(current.posY, current.posX),
                         Cell(neighbors[u].posY, neighbors[u].posX))
      {
        assert Absorbed(originalImage, labels, rows, cols, Cell(current.posY, current.posX),
                        Cell(neighbors[u].posY, neighbors[u].posX));
      }
    }

    /** The loop over the neighbours of the sample just taken off the queue;
        afterwards that sample's cell is closed. */
    method VisitNeighbors(current: PixelInfo, neighbors: seq<PixelInfo>, ghost k: nat, ghost initial: seq<seq<int>>,
                          ghost labels: seq<seq<int>>, ghost unlabelled: set<Cell>, ghost order: seq<Cell>)
      returns (ghost labels': seq<seq<int>>, ghost unlabelled': set<Cell>, ghost order': seq<Cell>)
      requires Valid() && Mirrors(labels)
      requires GrowthInvariant(originalImage, initial, labels, rows, cols, k, pixelQueue,
                               unlabelled, order, {Cell(current.posY, current.posX)})
      requires Queued(originalImage, labels, rows, cols, current, k) && k <= 255
      requires forall u :: 0 <= u < |neighbors| ==> NeighborSample(current, neighbors[u])
      requires forall c :: c in FourNeighbors(current.posY, current.posX) && IsValidCoordinate(c.col, c.row) ==>
        c in CellsOf(neighbors)
      modifies this`pixelQueue, regionMap
      ensures Mirrors(labels')
      ensures GrowthInvariant(originalImage, initial, labels', rows, cols, k, pixelQueue, unlabelled', order', {})
      ensures |unlabelled'| <= |unlabelled| && (|unlabelled'| == |unlabelled| ==> pixelQueue == old(pixelQueue))
      ensures forall u :: 0 <= u < |neighbors| ==> InImage(Cell(neighbors[u].posY, neighbors[u].posX), rows, cols)
      ensures Visit(labels', pixelQueue) == VisitAll(originalImage, rows, cols, current, Visit(labels, old(pixelQueue)), neighbors)
    {
      labels', unlabelled', order' := labels, unlabelled, order;
      ghost var start := Visit(labels, pixelQueue);
      var t := 0;
      while t < |neighbors|
        invariant 0 <= t <= |neighbors|
        invariant Mirrors(labels') && Queued(originalImage, labels', rows, cols, current, k)
        invariant GrowthInvariant(originalImage, initial, labels', rows, cols, k, pixelQueue, unlabelled', order',
                                  {Cell(current.posY, current.posX)})
        invariant forall u :: 0 <= u < t ==>
          Absorbed(originalImage, labels', rows, cols, Cell(current.posY, current.posX),
                   Cell(neighbors[u].posY, neighbors[u].posX))
        invariant |unlabelled'| <= |unlabelled| && (|unlabelled'| == |unlabelled| ==> pixelQueue == old(pixelQueue))
        invariant forall u :: 0 <= u < |neighbors| ==> InImage(Cell(neighbors[u].posY, neighbors[u].posX), rows, cols)
        invariant Visit(labels', pixelQueue) == VisitAll(originalImage, rows, cols, current, start, neighbors[..t])
      {
        labels', unlabelled', order' := VisitNext(current, neighbors, t, start, k, initial, labels', unlabelled', order');
        t := t + 1;
      }
      assert neighbors[..t] == neighbors;
      ClosedByNeighbors(originalImage, labels', rows, cols, current, neighbors);
      CloseStep(originalImage, initial, labels', rows, cols, k, pixelQueue, unlabelled', order',
                Cell(current.posY, current.posX));
    }

    /** Breadth-first growth: take the front sample, let its region grow
        into every growable unlabelled neighbour, until the queue is empty. */
    method Grow(ghost k: nat)
      requires Valid() && k <= 255
      requires GrowthInvariant(originalImage, Snapshot(regionMap), Snapshot(regionMap), rows, cols, k, pixelQueue,
                               ZeroCells(Snapshot(regionMap), rows, cols), [], {})
      modifies this`pixelQueue, regionMap
      ensures pixelQueue == []
      ensures GrownFrom(originalImage, old(Snapshot(regionMap)), Snapshot(regionMap), rows, cols, k)
      ensures QueueSound(rows, cols, old(pixelQueue)) &&
              Snapshot(regionMap) == BreadthFirstGrowth(originalImage, old(Snapshot(regionMap)), rows, cols, old(pixelQueue))
    {
      ghost var initial := Snapshot(regionMap);
      ghost var labels := initial;
      ghost var unlabelled := ZeroCells(initial, rows, cols);
      ghost var order: seq<Cell> := [];
      WellFormedQueueSound(originalImage, initial, rows, cols, k, pixelQueue);
      ghost var grown := BreadthFirstGrowth(originalImage, initial, rows, cols, pixelQueue);
      while pixelQueue != []
        invariant Mirrors(labels)
        invariant GrowthInvariant(originalImage, initial, labels, rows, cols, k, pixelQueue, unlabelled, order, {})
        invariant QueueSound(rows, cols, pixelQueue) &&
                  BreadthFirstGrowth(originalImage, labels, rows, cols, pixelQueue) == grown
        decreases |unlabelled|, |pixelQueue|
      {
        var current := pixelQueue[0];
        BreadthFirstGrowthUnfolds(originalImage, labels, rows, cols, pixelQueue);
        PopStep(originalImage, initial, labels, rows, cols, k, pixelQueue, unlabelled, order);
        pixelQueue := pixelQueue[1..];
        var neighbors := FindNeighbors(current, labels);
        labels, unlabelled, order := VisitNeighbors(current, neighbors, k, initial, labels, unlabelled, order);
      }
      GridsEqual(labels, Snapshot(regionMap), rows, cols);
      GrowthEnds(originalImage, initial, labels, rows, cols, k, unlabelled, order);
    }

    // ------------------------------------------------------ border statistics

    /** Labels in 0..n: every label indexes the (n + 1) x (n + 1) matrices. */
    ghost predicate LabelsBelow(labels: seq<seq<int>>, n: nat)
      requires IsGrid(labels, rows, cols)
    {
      forall y, x :: 0 <= y < rows && 0 <= x < cols ==> 0 <= labels[y][x] <= n
    }

    /** Both statistics matrices are (n + 1) x (n + 1), and the three grids
        are distinct arrays. */
    ghost predicate StatisticsShape(n: nat)
      reads this
    {
      borderEffectiveness.Length0 == n + 1 && borderEffectiveness.Length1 == n + 1 &&
      borderSimilarity.Length0 == n + 1 && borderSimilarity.Length1 == n + 1 &&
      borderEffectiveness != regionMap
    }

    /** The matrices hold, for every ordered pair of labels, the counts of
        the scan over the pixels before (i, j). */
    ghost predicate CountsUpTo(labels: seq<seq<int>>, n: nat, i: nat, j: nat)
      requires Valid() && StatisticsShape(n) && IsGrid(labels, rows, cols)
      requires j <= cols && (i < rows || (i == rows && j == 0))
      reads this, borderEffectiveness, borderSimilarity
    {
      forall a, b :: 0 <= a <= n && 0 <= b <= n ==>
        borderEffectiveness[a, b] == CountBefore(labels, originalImage, rows, cols, a, b, false, i, j) &&
        borderSimilarity[a, b] == CountBefore(labels, originalImage, rows, cols, a, b, true, i, j) as real
    }

    /** The pair of pixel (i, j) and its right neighbour: counted for its
        ordered pair of labels when they differ, and as similar when the
        intensities also pass the merge test. */
    method CountRight(i: nat, j: nat, n: nat, ghost labels: seq<seq<int>>)
      requires Valid() && StatisticsShape(n) && Mirrors(labels) && LabelsBelow(labels, n)
      requires i < rows && j < cols
      modifies borderEffectiveness, borderSimilarity
      ensures forall a, b :: 0 <= a <= n && 0 <= b <= n ==>
        borderEffectiveness[a, b] == old(borderEffectiveness[a, b]) +
          (if RightEvent(labels, originalImage, rows, cols, i, j, a, b, false) then 1 else 0) &&
        borderSimilarity[a, b] == old(borderSimilarity[a, b]) +
          (if RightEvent(labels, originalImage, rows, cols, i, j, a, b, true) then 1.0 else 0.0)
    {
      if j < cols - 1 {
        var currentRegion := regionMap[i, j];
        var neighborRegion := regionMap[i, j + 1];
        if currentRegion != neighborRegion {
          borderEffectiveness[currentRegion, neighborRegion] := borderEffectiveness[currentRegion, neighborRegion] + 1;
          if MergeCriterion(originalImage[i][j], originalImage[i][j + 1]) {
            borderSimilarity[currentRegion, neighborRegion] := borderSimilarity[currentRegion, neighborRegion] + 1.0;
          }
        }
      }
    }

    /** The same for pixel (i, j) and its down neighbour. */
    method CountDown(i: nat, j: nat, n: nat, ghost labels: seq<seq<int>>)
      requires Valid() && StatisticsShape(n) && Mirrors(labels) && LabelsBelow(labels, n)
      requires i < rows && j < cols
      modifies borderEffectiveness, borderSimilarity
      ensures forall a, b :: 0 <= a <= n && 0 <= b <= n ==>
        borderEffectiveness[a, b] == old(borderEffectiveness[a, b]) +
          (if DownEvent(labels, originalImage, rows, cols, i, j, a, b, false) then 1 else 0) &&
        borderSimilarity[a, b] == old(borderSimilarity[a, b]) +
          (if DownEvent(labels, originalImage, rows, cols, i, j, a, b, true) then 1.0 else 0.0)
    {
      if i < rows - 1 {
        var currentRegion := regionMap[i, j];
        var neighborRegion := regionMap[i + 1, j];
        if currentRegion != neighborRegion {
          borderEffectiveness[currentRegion, neighborRegion] := borderEffectiveness[currentRegion, neighborRegion] + 1;
          if MergeCriterion(originalImage[i][j], originalImage[i + 1][j]) {
            borderSimilarity[currentRegion, neighborRegion] := borderSimilarity[currentRegion, neighborRegion] + 1.0;
          }
        }
      }
    }

    /** One row of the scan. */
    method ScanRow(i: nat, n: nat, ghost labels: seq<seq<int>>)
      requires Valid() && StatisticsShape(n) && Mirrors(labels) && LabelsBelow(labels, n)
      requires i < rows && CountsUpTo(labels, n, i, 0)
      modifies borderEffectiveness, borderSimilarity
      ensures CountsUpTo(labels, n, i, cols)
    {
      var j := 0;
      while j < cols
        invariant 0 <= j <= cols && CountsUpTo(labels, n, i, j)
      {
        CountRight(i, j, n, labels);
        CountDown(i, j, n, labels);
        j := j + 1;
      }
    }

    /** The border scan: afterwards every entry (a, b) of the matrices is the
        number of right or down adjacencies from label a to a different label
        b, and the number of those whose intensities pass the merge test. */
    method ComputeBorderStatistics(n: nat, ghost labels: seq<seq<int>>)
      requires Valid() && StatisticsShape(n) && Mirrors(labels) && LabelsBelow(labels, n)
      requires forall a, b :: 0 <= a <= n && 0 <= b <= n ==> borderEffectiveness[a, b] == 0 && borderSimilarity[a, b] == 0.0
      modifies borderEffectiveness, borderSimilarity
      ensures forall a, b :: 0 <= a <= n && 0 <= b <= n ==>
        borderEffectiveness[a, b] == Effectiveness(labels, originalImage, rows, cols, a, b) &&
        borderSimilarity[a, b] == Similarity(labels, originalImage, rows, cols, a, b) as real
    {
      var i := 0;
      while i < rows
        invariant 0 <= i <= rows && CountsUpTo(labels, n, i, 0)
      {
        ScanRow(i, n, labels);
        i := i + 1;
      }
    }

    // ---------------------------------------------------------------- merging

    /** Pair (a, b) has been visited by the sweep before it reaches (i, j). */
    predicate Visited(a: int, b: int, i: int, j: int)
    {
      1 <= a <= b && (a < i || (a == i && b < j))
    }

    /** The matrices against the counts eff and sim: effectiveness is
        untouched and every visited pair with some border holds the ratio
        sim / eff in place of its similarity count. */
    ghost predicate RatiosUpTo(eff: seq<seq<int>>, sim: seq<seq<int>>, n: nat, i: int, j: int)
      requires StatisticsShape(n) && IsGrid(eff, n + 1, n + 1) && IsGrid(sim, n + 1, n + 1)
      reads this, borderEffectiveness, borderSimilarity
    {
      forall a, b :: 0 <= a <= n && 0 <= b <= n ==>
        borderEffectiveness[a, b] == eff[a][b] &&
        borderSimilarity[a, b] ==
          if Visited(a, b, i, j) && eff[a][b] > 0 then (sim[a][b] as real) / (eff[a][b] as real) else sim[a][b] as real
    }

    /** Row i of the sweep: pairs (i, j) for j = i..n. */
    method MergeRow(i: nat, n: nat, regionMapping: array<int>, ghost eff: seq<seq<int>>, ghost sim: seq<seq<int>>)
      requires StatisticsShape(n) && IsGrid(eff, n + 1, n + 1) && IsGrid(sim, n + 1, n + 1)
      requires 1 <= i <= n && regionMapping.Length == n + 1
      requires RatiosUpTo(eff, sim, n, i, i) && regionMapping[..] == MappingBefore(eff, sim, n, i, i)
      modifies borderSimilarity, regionMapping
      ensures RatiosUpTo(eff, sim, n, i, n + 1) && regionMapping[..] == MappingBefore(eff, sim, n, i, n + 1)
    {
      var j := i;
      while j <= n
        invariant i <= j <= n + 1
        invariant RatiosUpTo(eff, sim, n, i, j) && regionMapping[..] == MappingBefore(eff, sim, n, i, j)
      {
        if borderEffectiveness[i, j] > 0 {
          RatioTest(sim[i][j], eff[i][j]);
          borderSimilarity[i, j] := borderSimilarity[i, j] / (borderEffectiveness[i, j] as real);
          if borderSimilarity[i, j] > 0.5 {
            regionMapping[j] := regionMapping[i];
          }
        }
        j := j + 1;
      }
    }

    /** The merge sweep over the statistics eff and sim: the mapping it
        returns is FinalMapping, and every visited pair with some border now
        holds its similarity ratio. */
    method MergeRegions(n: nat, ghost eff: seq<seq<int>>, ghost sim: seq<seq<int>>) returns (regionMapping: array<int>)
      requires StatisticsShape(n) && IsGrid(eff, n + 1, n + 1) && IsGrid(sim, n + 1, n + 1)
      requires RatiosUpTo(eff, sim, n, 0, 0)
      modifies borderSimilarity
      ensures fresh(regionMapping)
      ensures regionMapping[..] == FinalMapping(eff, sim, n)
      ensures RatiosUpTo(eff, sim, n, n + 1, n + 1)
    {
      regionMapping := new int[n + 1](k => k);
      assert regionMapping[..] == Identity(n + 1);
      var i := 1;
      while i <= n
        invariant 1 <= i <= n + 1
        invariant RatiosUpTo(eff, sim, n, i, i) && regionMapping[..] == MappingBefore(eff, sim, n, i, i)
      {
        MergeRow(i, n, regionMapping, eff, sim);
        i := i + 1;
      }
    }

    // -------------------------------------------------------------- relabelling

    /** Cells of rows before i, and of row i before column j, carry the
        mapped label; every other cell still carries its old label. */
    ghost predicate RemappedUpTo(labels: seq<seq<int>>, m: seq<int>, i: int, j: int)
      requires Valid() && IsGrid(labels, rows, cols)
      reads regionMap
    {
      forall y, x :: 0 <= y < rows && 0 <= x < cols ==>
        regionMap[y, x] == if y < i || (y == i && x < j) then
          (if 0 <= labels[y][x] < |m| then m[labels[y][x]] else 0)
        else labels[y][x]
    }

    method RemapRow(i: nat, regionMapping: array<int>, ghost labels: seq<seq<int>>)
      requires Valid() && IsGrid(labels, rows, cols) && i < rows
      requires forall y, x :: 0 <= y < rows && 0 <= x < cols ==> 0 <= labels[y][x] < regionMapping.Length
      requires forall k :: 0 <= k < regionMapping.Length ==> 0 <= regionMapping[k] < 256
      requires RemappedUpTo(labels, regionMapping[..], i, 0)
      modifies regionMap
      ensures RemappedUpTo(labels, regionMapping[..], i + 1, 0)
    {
      var j := 0;
      while j < cols
        invariant 0 <= j <= cols && RemappedUpTo(labels, regionMapping[..], i, j)
      {
        regionMap[i, j] := StoredLabel(regionMapping[regionMap[i, j]]);
        j := j + 1;
      }
    }

    /** Every label is replaced, in one lookup, by its image under the
        mapping. */
    method RemapRegions(regionMapping: array<int>, ghost labels: seq<seq<int>>)
      requires Valid() && Mirrors(labels)
      requires forall y, x :: 0 <= y < rows && 0 <= x < cols ==> 0 <= labels[y][x] < regionMapping.Length
      requires forall k :: 0 <= k < regionMapping.Length ==> 0 <= regionMapping[k] < 256
      modifies regionMap
      ensures Mirrors(Relabelled(labels, regionMapping[..], rows, cols))
    {
      var i := 0;
      while i < rows
        invariant 0 <= i <= rows && RemappedUpTo(labels, regionMapping[..], i, 0)
      {
        RemapRow(i, regionMapping, labels);
        i := i + 1;
      }
    }

    // ---------------------------------------------------------------- colours

    /** The colour table: entry 0 stays black and entry k, for k >= 1, is the
        k-th colour drawn (palette[k - 1]). */
    method BuildColorTable(palette: seq<Color>) returns (colors: array<Color>)
      ensures fresh(colors)
      ensures colors[..] == [Black] + palette
    {
      colors := new Color[|palette| + 1](k => Black);
      var i := 1;
      while i <= |palette|
        invariant 1 <= i <= |palette| + 1
        invariant colors[..i] == [Black] + palette[..i - 1]
        invariant forall k :: i <= k < colors.Length ==> colors[k] == Black
      {
        colors[i] := palette[i - 1];
        i := i + 1;
      }
      assert palette[..|palette|] == palette;
      assert colors[..] == colors[..|palette| + 1];
    }

    /** The colour map: each pixel takes the colour of its label. */
    method Colorize(colors: array<Color>) returns (colorRegionMap: array2<Color>)
      requires Valid()
      requires forall y, x :: 0 <= y < rows && 0 <= x < cols ==> 0 <= regionMap[y, x] < colors.Length
      ensures fresh(colorRegionMap)
      ensures colorRegionMap.Length0 == rows && colorRegionMap.Length1 == cols
      ensures forall y, x :: 0 <= y < rows && 0 <= x < cols ==> colorRegionMap[y, x] == colors[regionMap[y, x]]
    {
      colorRegionMap := new Color[rows, cols]((y, x) => Black);
      var i := 0;
      while i < rows
        invariant 0 <= i <= rows
        invariant forall y, x :: 0 <= y < i && 0 <= x < cols ==> colorRegionMap[y, x] == colors[regionMap[y, x]]
      {
        var j := 0;
        while j < cols
          invariant 0 <= j <= cols
          invariant forall y, x :: 0 <= y < i && 0 <= x < cols ==> colorRegionMap[y, x] == colors[regionMap[y, x]]
          invariant forall x :: 0 <= x < j ==> colorRegionMap[i, x] == colors[regionMap[i, x]]
        {
          var regionId := regionMap[i, j];
          colorRegionMap[i, j] := colors[regionId];
          j := j + 1;
        }
        i := i + 1;
      }
    }

    // ---------------------------------------------------------------- borders

    /** The border mask of a colour map: 255 at every pixel whose colour
        differs from that of an in-bounds 4-neighbour, 0 elsewhere. */
    method DrawRegionBorders(colorRegionMap: array2<Color>) returns (borders: array2<int>)
      ensures fresh(borders)
      ensures borders.Length0 == colorRegionMap.Length0 && borders.Length1 == colorRegionMap.Length1
      ensures forall y, x :: 0 <= y < borders.Length0 && 0 <= x < borders.Length1 ==>
        borders[y, x] == if IsBorderPixel(colorRegionMap, y, x) then 255 else 0
    {
      borders := new int[colorRegionMap.Length0, colorRegionMap.Length1]((y, x) => 0);
      var y := 0;
      while y < colorRegionMap.Length0
        invariant 0 <= y <= colorRegionMap.Length0
        invariant forall y', x :: 0 <= y' < colorRegionMap.Length0 && 0 <= x < colorRegionMap.Length1 ==>
          borders[y', x] == if y' < y && IsBorderPixel(colorRegionMap, y', x) then 255 else 0
      {
        var x := 0;
        while x < colorRegionMap.Length1
          invariant 0 <= x <= colorRegionMap.Length1
          invariant forall y', x' :: 0 <= y' < colorRegionMap.Length0 && 0 <= x' < colorRegionMap.Length1 ==>
            borders[y', x'] == if (y' < y || (y' == y && x' < x)) && IsBorderPixel(colorRegionMap, y', x') then 255 else 0
        {
          var isBorder := false;
          var color := colorRegionMap[y, x];
          if x > 0 && color != colorRegionMap[y, x - 1] { isBorder := true; }
          if x < colorRegionMap.Length1 - 1 && color != colorRegionMap[y, x + 1] { isBorder := true; }
          if y > 0 && color != colorRegionMap[y - 1, x] { isBorder := true; }
          if y < colorRegionMap.Length0 - 1 && color != colorRegionMap[y + 1, x] { isBorder := true; }
          if isBorder {
            borders[y, x] := 255;
          }
          x := x + 1;
        }
        y := y + 1;
      }
    }

    // ------------------------------------------------------------ the pipeline

    /** Seeding followed by growth: `seeded` is the label grid once the
        seeds are placed and `grown` the one the growth loop leaves. */
    method SeedAndGrow(seedCount: nat) returns (ghost seeded: seq<seq<int>>, ghost grown: seq<seq<int>>)
      requires Valid() && rows > 0 && cols > 0 && 0 < seedCount <= 255
      requires pixelQueue == []
      requires forall y, x :: 0 <= y < rows && 0 <= x < cols ==> regionMap[y, x] == 0
      modifies this`pixelQueue, regionMap
      ensures pixelQueue == [] && Mirrors(grown)
      ensures SeedAndGrowOutcome(originalImage, rows, cols, seedCount, seeded, grown)
      ensures LabelsBelow(grown, seedCount)
    {
      ghost var s := Seeds(LayoutFor(rows, cols, seedCount));
      var seedIndex := Seed(seedCount);
      seeded := Snapshot(regionMap);
      assert SeedGrid(seeded, s, rows, cols);
      SeedGridIsStored(seeded, s, rows, cols);
      assert pixelQueue == SeedQueue(originalImage, s, rows, cols);
      SeedingStartsGrowth(s);
      Grow(|s|);
      grown := Snapshot(regionMap);
    }

    /** Border statistics, the merge sweep and the relabelling, on the grown
        label grid `grown` with labels in 0..n. */
    method AnalyseAndMerge(n: nat, ghost grown: seq<seq<int>>)
      requires Valid() && StatisticsShape(n) && Mirrors(grown) && LabelsBelow(grown, n) && n <= 255
      requires forall a, b :: 0 <= a <= n && 0 <= b <= n ==> borderEffectiveness[a, b] == 0 && borderSimilarity[a, b] == 0.0
      modifies borderEffectiveness, borderSimilarity, regionMap
      ensures var eff := EffectivenessMatrix(grown, originalImage, rows, cols, n);
        var sim := SimilarityMatrix(grown, originalImage, rows, cols, n);
        RatiosUpTo(eff, sim, n, n + 1, n + 1) &&
        Mirrors(Relabelled(grown, FinalMapping(eff, sim, n), rows, cols))
      ensures forall y, x :: 0 <= y < rows && 0 <= x < cols ==> 0 <= regionMap[y, x] <= n
    {
      ComputeBorderStatistics(n, grown);
      ghost var eff := EffectivenessMatrix(grown, originalImage, rows, cols, n);
      ghost var sim := SimilarityMatrix(grown, originalImage, rows, cols, n);
      var regionMapping := MergeRegions(n, eff, sim);
      FinalMappingShape(eff, sim, n);
      RemapRegions(regionMapping, grown);
      RelabelledAreRepresentatives(grown, eff, sim, n, rows, cols);
    }

    /** Everything execute does before colouring, on a fresh grower: seeding,
        breadth-first growth, border statistics, the merge sweep and the
        relabelling. */
    method Segment(seedCount: nat) returns (ghost seeded: seq<seq<int>>, ghost grown: seq<seq<int>>)
      requires Valid() && rows > 0 && cols > 0 && 0 < seedCount <= 255
      requires pixelQueue == []
      requires forall y, x :: 0 <= y < rows && 0 <= x < cols ==> regionMap[y, x] == 0
      modifies this, regionMap
      ensures fresh(borderEffectiveness) && fresh(borderSimilarity)
      ensures pixelQueue == [] && StatisticsShape(seedCount)
      ensures SeedAndGrowOutcome(originalImage, rows, cols, seedCount, seeded, grown)
      ensures var eff := EffectivenessMatrix(grown, originalImage, rows, cols, seedCount);
        var sim := SimilarityMatrix(grown, originalImage, rows, cols, seedCount);
        RatiosUpTo(eff, sim, seedCount, seedCount + 1, seedCount + 1) &&
        Mirrors(Relabelled(grown, FinalMapping(eff, sim, seedCount), rows, cols))
      ensures forall y, x :: 0 <= y < rows && 0 <= x < cols ==> 0 <= regionMap[y, x] <= seedCount
    {
      borderEffectiveness := new int[seedCount + 1, seedCount + 1]((a, b) => 0);
      borderSimilarity := new real[seedCount + 1, seedCount + 1]((a, b) => 0.0);
      seeded, grown := SeedAndGrow(seedCount);
      AnalyseAndMerge(seedCount, grown);
    }

    /** The whole segmentation of a fresh grower: seeding, breadth-first
        growth, border statistics, the merge sweep, relabelling and colouring.
        `seeded` and `grown` are the label grid after seeding and after
        growth; palette stands for the random colours, one per seed id. */
    method Execute(seedCount: nat, palette: seq<Color>)
      returns (colorRegionMap: array2<Color>, ghost seeded: seq<seq<int>>, ghost grown: seq<seq<int>>)
      requires Valid() && rows > 0 && cols > 0
      requires 1 <= seedCount <= 255 && |palette| == seedCount
      requires pixelQueue == []
      requires forall y, x :: 0 <= y < rows && 0 <= x < cols ==> regionMap[y, x] == 0
      modifies this, regionMap
      ensures fresh(colorRegionMap) && fresh(borderEffectiveness) && fresh(borderSimilarity)
      ensures pixelQueue == [] && StatisticsShape(seedCount)
      ensures SeedAndGrowOutcome(originalImage, rows, cols, seedCount, seeded, grown)
      ensures var eff := EffectivenessMatrix(grown, originalImage, rows, cols, seedCount);
        var sim := SimilarityMatrix(grown, originalImage, rows, cols, seedCount);
        RatiosUpTo(eff, sim, seedCount, seedCount + 1, seedCount + 1) &&
        Mirrors(Relabelled(grown, FinalMapping(eff, sim, seedCount), rows, cols))
      ensures colorRegionMap.Length0 == rows && colorRegionMap.Length1 == cols
      ensures forall y, x :: 0 <= y < rows && 0 <= x < cols ==>
        0 <= regionMap[y, x] <= seedCount && colorRegionMap[y, x] == ([Black] + palette)[regionMap[y, x]]
    {
      seeded, grown := Segment(seedCount);
      var colors := BuildColorTable(palette);
      colorRegionMap := Colorize(colors);
    }
  }
}
