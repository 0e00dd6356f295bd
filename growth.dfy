/** Region growth stated on values: which neighbour a region may grow into,
    what the breadth-first growth keeps while it runs, and what its final
    label grid means — every labelled pixel is connected to a seed of its
    region by growable steps, and every pixel growable from a labelled pixel
    is labelled. */
module Growth {
  import opened Raster

  predicate InImage(c: Cell, rows: nat, cols: nat)
  {
    0 <= c.row < rows && 0 <= c.col < cols
  }

  /** The cells left, right, above and below (y, x), in the order the
      neighbour search visits them. */
  function FourNeighbors(y: int, x: int): set<Cell>
  {
    {Cell(y, x - 1), Cell(y, x + 1), Cell(y - 1, x), Cell(y + 1, x)}
  }

  /** The positions of a sequence of samples. */
  ghost function CellsOf(q: seq<PixelInfo>): set<Cell>
  {
    set e | e in q :: Cell(e.posY, e.posX)
  }

  lemma CellsOfAppend(q: seq<PixelInfo>, e: PixelInfo)
    ensures CellsOf(q + [e]) == CellsOf(q) + {Cell(e.posY, e.posX)}
  {
    assert forall d :: d in q + [e] <==> d in q || d == e;
  }

  lemma CellsOfTail(q: seq<PixelInfo>, c: Cell)
    requires q != [] && c in CellsOf(q) && c != Cell(q[0].posY, q[0].posX)
    ensures c in CellsOf(q[1..])
  {
    var e :| e in q && Cell(e.posY, e.posX) == c;
    assert q == [q[0]] + q[1..];
    assert e in q[1..];
  }

  /** The sample the grower builds for cell c: label, position, intensity. */
  function SampleAt(img: seq<seq<int>>, labels: seq<seq<int>>, rows: nat, cols: nat, c: Cell): PixelInfo
    requires IsGrid(img, rows, cols) && IsGrid(labels, rows, cols) && InImage(c, rows, cols)
  {
    PixelInfo(labels[c.row][c.col], c.col, c.row, img[c.row][c.col])
  }

  /** Both cells lie in the image, d is a 4-neighbour of c, and their
      intensities pass the growth criterion. */
  predicate GrowsAcross(img: seq<seq<int>>, rows: nat, cols: nat, c: Cell, d: Cell)
    requires IsGrid(img, rows, cols)
  {
    InImage(c, rows, cols) && InImage(d, rows, cols) && d in FourNeighbors(c.row, c.col) &&
    GrowthCriterion(PixelInfo(0, c.col, c.row, img[c.row][c.col]), PixelInfo(0, d.col, d.row, img[d.row][d.col]))
  }

  /** Growth from c has reached d wherever it could. */
  predicate Absorbed(img: seq<seq<int>>, labels: seq<seq<int>>, rows: nat, cols: nat, c: Cell, d: Cell)
    requires IsGrid(img, rows, cols) && IsGrid(labels, rows, cols)
  {
    GrowsAcross(img, rows, cols, c, d) ==> labels[d.row][d.col] != 0
  }

  /** When c is labelled, each growable neighbour of c is labelled too. */
  predicate Closed(img: seq<seq<int>>, labels: seq<seq<int>>, rows: nat, cols: nat, c: Cell)
    requires IsGrid(img, rows, cols) && IsGrid(labels, rows, cols)
  {
    InImage(c, rows, cols) && labels[c.row][c.col] != 0 ==>
      Absorbed(img, labels, rows, cols, c, Cell(c.row, c.col - 1)) &&
      Absorbed(img, labels, rows, cols, c, Cell(c.row, c.col + 1)) &&
      Absorbed(img, labels, rows, cols, c, Cell(c.row - 1, c.col)) &&
      Absorbed(img, labels, rows, cols, c, Cell(c.row + 1, c.col))
  }

  /** c could have been grown from d, d carries c's label, and d was labelled
      before c: a seed (labelled in `initial`) or a cell of `earlier`. */
  predicate ClaimedBy(img: seq<seq<int>>, initial: seq<seq<int>>, labels: seq<seq<int>>, rows: nat, cols: nat,
                      c: Cell, d: Cell, earlier: seq<Cell>)
    requires IsGrid(img, rows, cols) && IsGrid(initial, rows, cols) && IsGrid(labels, rows, cols)
  {
    GrowsAcross(img, rows, cols, d, c) && labels[d.row][d.col] == labels[c.row][c.col] &&
    (initial[d.row][d.col] != 0 || d in earlier)
  }

  predicate HasClaimer(img: seq<seq<int>>, initial: seq<seq<int>>, labels: seq<seq<int>>, rows: nat, cols: nat,
                       c: Cell, earlier: seq<Cell>)
    requires IsGrid(img, rows, cols) && IsGrid(initial, rows, cols) && IsGrid(labels, rows, cols)
  {
    ClaimedBy(img, initial, labels, rows, cols, c, Cell(c.row, c.col - 1), earlier) ||
    ClaimedBy(img, initial, labels, rows, cols, c, Cell(c.row, c.col + 1), earlier) ||
    ClaimedBy(img, initial, labels, rows, cols, c, Cell(c.row - 1, c.col), earlier) ||
    ClaimedBy(img, initial, labels, rows, cols, c, Cell(c.row + 1, c.col), earlier)
  }

  /** A queued sample: inside the image, carrying its cell's current label
      (one of 1..k) and its cell's intensity. */
  predicate Queued(img: seq<seq<int>>, labels: seq<seq<int>>, rows: nat, cols: nat, e: PixelInfo, k: nat)
    requires IsGrid(img, rows, cols) && IsGrid(labels, rows, cols)
  {
    InImage(Cell(e.posY, e.posX), rows, cols) && 1 <= e.category <= k &&
    labels[e.posY][e.posX] == e.category && e.intensity == img[e.posY][e.posX]
  }

  /** What growth keeps, relative to the seeded grid `initial`:
      - queued samples are well formed;
      - `unlabelled` is exactly the set of cells still 0;
      - `order` lists the cells labelled since seeding, in the order they were
        labelled, each claimed by a seed or by an earlier cell of `order`;
      - labels stay in 0..k and seed labels never change;
      - every labelled cell that has left the queue (and is not in `exempt`)
        is closed. */
  ghost predicate GrowthInvariant(img: seq<seq<int>>, initial: seq<seq<int>>, labels: seq<seq<int>>,
                                  rows: nat, cols: nat, k: nat, queue: seq<PixelInfo>,
                                  unlabelled: set<Cell>, order: seq<Cell>, exempt: set<Cell>)
  {
    IsGrid(img, rows, cols) && IsGrid(initial, rows, cols) && IsGrid(labels, rows, cols) &&
    QueueWellFormed(img, labels, rows, cols, k, queue) &&
    UnlabelledCells(labels, rows, cols, unlabelled) &&
    OrderClaimed(img, initial, labels, rows, cols, order) &&
    GridKept(img, initial, labels, rows, cols, k, queue, order, exempt)
  }

  ghost predicate QueueWellFormed(img: seq<seq<int>>, labels: seq<seq<int>>, rows: nat, cols: nat, k: nat,
                                  queue: seq<PixelInfo>)
    requires IsGrid(img, rows, cols) && IsGrid(labels, rows, cols)
  {
    forall t :: 0 <= t < |queue| ==> Queued(img, labels, rows, cols, queue[t], k)
  }

  ghost predicate UnlabelledCells(labels: seq<seq<int>>, rows: nat, cols: nat, unlabelled: set<Cell>)
    requires IsGrid(labels, rows, cols)
  {
    forall c :: c in unlabelled <==> InImage(c, rows, cols) && labels[c.row][c.col] == 0
  }

  ghost predicate OrderClaimed(img: seq<seq<int>>, initial: seq<seq<int>>, labels: seq<seq<int>>,
                               rows: nat, cols: nat, order: seq<Cell>)
    requires IsGrid(img, rows, cols) && IsGrid(initial, rows, cols) && IsGrid(labels, rows, cols)
  {
    forall t :: 0 <= t < |order| ==>
      InImage(order[t], rows, cols) && initial[order[t].row][order[t].col] == 0 &&
      labels[order[t].row][order[t].col] != 0 &&
      HasClaimer(img, initial, labels, rows, cols, order[t], order[..t])
  }

  ghost predicate GridKept(img: seq<seq<int>>, initial: seq<seq<int>>, labels: seq<seq<int>>,
                           rows: nat, cols: nat, k: nat, queue: seq<PixelInfo>, order: seq<Cell>, exempt: set<Cell>)
    requires IsGrid(img, rows, cols) && IsGrid(initial, rows, cols) && IsGrid(labels, rows, cols)
  {
    forall y, x :: 0 <= y < rows && 0 <= x < cols ==>
      CellKept(img, initial, labels, rows, cols, k, queue, order, exempt, y, x)
  }

  /** The per-cell part of the growth invariant. */
  ghost predicate CellKept(img: seq<seq<int>>, initial: seq<seq<int>>, labels: seq<seq<int>>,
                           rows: nat, cols: nat, k: nat, queue: seq<PixelInfo>, order: seq<Cell>, exempt: set<Cell>,
                           y: int, x: int)
    requires IsGrid(img, rows, cols) && IsGrid(initial, rows, cols) && IsGrid(labels, rows, cols)
    requires 0 <= y < rows && 0 <= x < cols
  {
    0 <= labels[y][x] <= k &&
    (initial[y][x] != 0 ==> labels[y][x] == initial[y][x]) &&
    (labels[y][x] != 0 && initial[y][x] == 0 ==> Cell(y, x) in order) &&
    (Cell(y, x) !in CellsOf(queue) && Cell(y, x) !in exempt ==> Closed(img, labels, rows, cols, Cell(y, x)))
  }

  /** The grid with cell c set to v. */
  function SetLabel(labels: seq<seq<int>>, rows: nat, cols: nat, c: Cell, v: int): (r: seq<seq<int>>)
    requires IsGrid(labels, rows, cols) && InImage(c, rows, cols)
    ensures IsGrid(r, rows, cols)
    ensures forall y, x :: 0 <= y < rows && 0 <= x < cols ==>
      r[y][x] == if Cell(y, x) == c then v else labels[y][x]
  {
    labels[c.row := labels[c.row][c.col := v]]
  }

  /** labels' keeps every label that labels has set. */
  ghost predicate Extends(labels: seq<seq<int>>, labels': seq<seq<int>>, rows: nat, cols: nat)
    requires IsGrid(labels, rows, cols) && IsGrid(labels', rows, cols)
  {
    forall y, x :: 0 <= y < rows && 0 <= x < cols && labels[y][x] != 0 ==> labels'[y][x] == labels[y][x]
  }

  lemma ClaimerSurvives(img: seq<seq<int>>, initial: seq<seq<int>>, labels: seq<seq<int>>, labels': seq<seq<int>>,
                        rows: nat, cols: nat, c: Cell, earlier: seq<Cell>)
    requires IsGrid(img, rows, cols) && IsGrid(initial, rows, cols)
    requires IsGrid(labels, rows, cols) && IsGrid(labels', rows, cols) && Extends(labels, labels', rows, cols)
    requires InImage(c, rows, cols) && labels[c.row][c.col] != 0
    requires HasClaimer(img, initial, labels, rows, cols, c, earlier)
    ensures HasClaimer(img, initial, labels', rows, cols, c, earlier)
  {
  }

  lemma ClosedSurvives(img: seq<seq<int>>, labels: seq<seq<int>>, labels': seq<seq<int>>, rows: nat, cols: nat, c: Cell)
    requires IsGrid(img, rows, cols) && IsGrid(labels, rows, cols) && IsGrid(labels', rows, cols)
    requires Extends(labels, labels', rows, cols) && InImage(c, rows, cols)
    requires labels'[c.row][c.col] == labels[c.row][c.col]
    ensures Closed(img, labels, rows, cols, c) ==> Closed(img, labels', rows, cols, c)
  {
  }

  /** The cell that claims n, with n a growable neighbour of cur, is one of
      the four explicit neighbours of n. */
  lemma ClaimedByNeighbor(img: seq<seq<int>>, initial: seq<seq<int>>, labels: seq<seq<int>>, rows: nat, cols: nat,
                          n: Cell, cur: Cell, earlier: seq<Cell>)
    requires IsGrid(img, rows, cols) && IsGrid(initial, rows, cols) && IsGrid(labels, rows, cols)
    requires GrowsAcross(img, rows, cols, cur, n) && labels[cur.row][cur.col] == labels[n.row][n.col]
    requires initial[cur.row][cur.col] != 0 || cur in earlier
    ensures HasClaimer(img, initial, labels, rows, cols, n, earlier)
  {
    if n == Cell(cur.row, cur.col - 1) {
      assert cur == Cell(n.row, n.col + 1);
    } else if n == Cell(cur.row, cur.col + 1) {
      assert cur == Cell(n.row, n.col - 1);
    } else if n == Cell(cur.row - 1, cur.col) {
      assert cur == Cell(n.row + 1, n.col);
    } else {
      assert cur == Cell(n.row - 1, n.col);
    }
  }

  /** Claiming: the unlabelled growable neighbour n of the labelled cell cur
      takes cur's label, joins the queue and the growth order. */
  lemma ClaimStep(img: seq<seq<int>>, initial: seq<seq<int>>, labels: seq<seq<int>>, rows: nat, cols: nat, k: nat,
                  queue: seq<PixelInfo>, unlabelled: set<Cell>, order: seq<Cell>, cur: Cell, n: Cell)
    requires GrowthInvariant(img, initial, labels, rows, cols, k, queue, unlabelled, order, {cur})
    requires InImage(cur, rows, cols) && labels[cur.row][cur.col] != 0
    requires GrowsAcross(img, rows, cols, cur, n) && labels[n.row][n.col] == 0
    ensures var labels' := SetLabel(labels, rows, cols, n, labels[cur.row][cur.col]);
      GrowthInvariant(img, initial, labels', rows, cols, k, queue + [SampleAt(img, labels', rows, cols, n)],
                      unlabelled - {n}, order + [n], {cur})
  {
    var labels' := SetLabel(labels, rows, cols, n, labels[cur.row][cur.col]);
    assert CellKept(img, initial, labels, rows, cols, k, queue, order, {cur}, cur.row, cur.col);
    assert CellKept(img, initial, labels, rows, cols, k, queue, order, {cur}, n.row, n.col);
    ClaimKeepsQueue(img, initial, labels, rows, cols, k, queue, cur, n);
    ClaimKeepsOrder(img, initial, labels, rows, cols, order, cur, n);
    ClaimKeepsGrid(img, initial, labels, rows, cols, k, queue, unlabelled, order, cur, n);
    forall c ensures c in unlabelled - {n} <==> InImage(c, rows, cols) && labels'[c.row][c.col] == 0 {
      if InImage(c, rows, cols) && c != n {
        assert labels'[c.row][c.col] == labels[c.row][c.col];
      }
    }
  }

  lemma ClaimKeepsQueue(img: seq<seq<int>>, initial: seq<seq<int>>, labels: seq<seq<int>>, rows: nat, cols: nat, k: nat,
                        queue: seq<PixelInfo>, cur: Cell, n: Cell)
    requires IsGrid(img, rows, cols) && IsGrid(labels, rows, cols) && QueueWellFormed(img, labels, rows, cols, k, queue)
    requires InImage(cur, rows, cols) && 1 <= labels[cur.row][cur.col] <= k
    requires GrowsAcross(img, rows, cols, cur, n) && labels[n.row][n.col] == 0
    ensures var labels' := SetLabel(labels, rows, cols, n, labels[cur.row][cur.col]);
      var queue' := queue + [SampleAt(img, labels', rows, cols, n)];
      forall t :: 0 <= t < |queue'| ==> Queued(img, labels', rows, cols, queue'[t], k)
  {
    var labels' := SetLabel(labels, rows, cols, n, labels[cur.row][cur.col]);
    var queue' := queue + [SampleAt(img, labels', rows, cols, n)];
    forall t | 0 <= t < |queue'| ensures Queued(img, labels', rows, cols, queue'[t], k) {
      if t < |queue| {
        assert queue'[t] == queue[t];
      }
    }
  }

  lemma ClaimKeepsOrder(img: seq<seq<int>>, initial: seq<seq<int>>, labels: seq<seq<int>>, rows: nat, cols: nat,
                        order: seq<Cell>, cur: Cell, n: Cell)
    requires IsGrid(img, rows, cols) && IsGrid(initial, rows, cols) && IsGrid(labels, rows, cols)
    requires forall t :: 0 <= t < |order| ==>
      InImage(order[t], rows, cols) && initial[order[t].row][order[t].col] == 0 &&
      labels[order[t].row][order[t].col] != 0 &&
      HasClaimer(img, initial, labels, rows, cols, order[t], order[..t])
    requires InImage(cur, rows, cols) && labels[cur.row][cur.col] != 0
    requires initial[cur.row][cur.col] != 0 || cur in order
    requires GrowsAcross(img, rows, cols, cur, n) && labels[n.row][n.col] == 0 && initial[n.row][n.col] == 0
    ensures var labels' := SetLabel(labels, rows, cols, n, labels[cur.row][cur.col]);
      var order' := order + [n];
      forall t :: 0 <= t < |order'| ==>
        InImage(order'[t], rows, cols) && initial[order'[t].row][order'[t].col] == 0 &&
        labels'[order'[t].row][order'[t].col] != 0 &&
        HasClaimer(img, initial, labels', rows, cols, order'[t], order'[..t])
  {
    var labels' := SetLabel(labels, rows, cols, n, labels[cur.row][cur.col]);
    var order' := order + [n];
    assert Extends(labels, labels', rows, cols);
    forall t | 0 <= t < |order'|
      ensures InImage(order'[t], rows, cols) && initial[order'[t].row][order'[t].col] == 0
      ensures labels'[order'[t].row][order'[t].col] != 0
      ensures HasClaimer(img, initial, labels', rows, cols, order'[t], order'[..t])
    {
      if t < |order| {
        assert order'[t] == order[t] && order'[..t] == order[..t];
        ClaimerSurvives(img, initial, labels, labels', rows, cols, order[t], order[..t]);
      } else {
        assert order'[t] == n && order'[..t] == order;
        ClaimedByNeighbor(img, initial, labels', rows, cols, n, cur, order);
      }
    }
  }

  lemma ClaimKeepsGrid(img: seq<seq<int>>, initial: seq<seq<int>>, labels: seq<seq<int>>, rows: nat, cols: nat, k: nat,
                       queue: seq<PixelInfo>, unlabelled: set<Cell>, order: seq<Cell>, cur: Cell, n: Cell)
    requires GrowthInvariant(img, initial, labels, rows, cols, k, queue, unlabelled, order, {cur})
    requires InImage(cur, rows, cols) && 1 <= labels[cur.row][cur.col] <= k
    requires GrowsAcross(img, rows, cols, cur, n) && labels[n.row][n.col] == 0
    ensures var labels' := SetLabel(labels, rows, cols, n, labels[cur.row][cur.col]);
      GridKept(img, initial, labels', rows, cols, k, queue + [SampleAt(img, labels', rows, cols, n)], order + [n], {cur})
  {
    var labels' := SetLabel(labels, rows, cols, n, labels[cur.row][cur.col]);
    var queue' := queue + [SampleAt(img, labels', rows, cols, n)];
    assert Extends(labels, labels', rows, cols);
    CellsOfAppend(queue, SampleAt(img, labels', rows, cols, n));
    forall y, x | 0 <= y < rows && 0 <= x < cols
      ensures CellKept(img, initial, labels', rows, cols, k, queue', order + [n], {cur}, y, x)
    {
      assert CellKept(img, initial, labels, rows, cols, k, queue, order, {cur}, y, x);
      if Cell(y, x) != n {
        ClosedSurvives(img, labels, labels', rows, cols, Cell(y, x));
      }
    }
  }

  /** Taking the front sample off the queue: its cell is the one exempt from
      closedness until its neighbours have been looked at. */
  lemma PopStep(img: seq<seq<int>>, initial: seq<seq<int>>, labels: seq<seq<int>>, rows: nat, cols: nat, k: nat,
                queue: seq<PixelInfo>, unlabelled: set<Cell>, order: seq<Cell>)
    requires GrowthInvariant(img, initial, labels, rows, cols, k, queue, unlabelled, order, {}) && queue != []
    ensures Queued(img, labels, rows, cols, queue[0], k)
    ensures GrowthInvariant(img, initial, labels, rows, cols, k, queue[1..], unlabelled, order,
                            {Cell(queue[0].posY, queue[0].posX)})
  {
    assert Queued(img, labels, rows, cols, queue[0], k);
    forall t | 0 <= t < |queue| - 1 ensures Queued(img, labels, rows, cols, queue[1..][t], k) {
      assert queue[1..][t] == queue[t + 1];
    }
    var cur := Cell(queue[0].posY, queue[0].posX);
    forall y, x | 0 <= y < rows && 0 <= x < cols
      ensures CellKept(img, initial, labels, rows, cols, k, queue[1..], order, {cur}, y, x)
    {
      assert CellKept(img, initial, labels, rows, cols, k, queue, order, {}, y, x);
      if Cell(y, x) in CellsOf(queue) && Cell(y, x) != cur {
        CellsOfTail(queue, Cell(y, x));
      }
    }
  }

  /** Once the popped cell is closed, nothing is exempt any more. */
  lemma CloseStep(img: seq<seq<int>>, initial: seq<seq<int>>, labels: seq<seq<int>>, rows: nat, cols: nat, k: nat,
                  queue: seq<PixelInfo>, unlabelled: set<Cell>, order: seq<Cell>, cur: Cell)
    requires GrowthInvariant(img, initial, labels, rows, cols, k, queue, unlabelled, order, {cur})
    requires Closed(img, labels, rows, cols, cur)
    ensures GrowthInvariant(img, initial, labels, rows, cols, k, queue, unlabelled, order, {})
  {
    forall y, x | 0 <= y < rows && 0 <= x < cols
      ensures CellKept(img, initial, labels, rows, cols, k, queue, order, {}, y, x)
    {
      assert CellKept(img, initial, labels, rows, cols, k, queue, order, {cur}, y, x);
    }
  }

  /** The cells of the image still labelled 0. */
  ghost function ZeroCells(labels: seq<seq<int>>, rows: nat, cols: nat): (z: set<Cell>)
    requires IsGrid(labels, rows, cols)
    ensures forall c :: c in z <==> InImage(c, rows, cols) && labels[c.row][c.col] == 0
  {
    set y, x | 0 <= y < rows && 0 <= x < cols && labels[y][x] == 0 :: Cell(y, x)
  }

  /** After every neighbour of the current sample has been looked at, the
      current cell is closed: each of its in-image 4-neighbours is among
      them, and growth reached each of those it could. */
  lemma ClosedByNeighbors(img: seq<seq<int>>, labels: seq<seq<int>>, rows: nat, cols: nat,
                          current: PixelInfo, neighbors: seq<PixelInfo>)
    requires IsGrid(img, rows, cols) && IsGrid(labels, rows, cols)
    requires forall c :: c in FourNeighbors(current.posY, current.posX) && InImage(c, rows, cols) ==>
      c in CellsOf(neighbors)
    requires forall u :: 0 <= u < |neighbors| ==>
      Absorbed(img, labels, rows, cols, Cell(current.posY, current.posX), Cell(neighbors[u].posY, neighbors[u].posX))
    ensures Closed(img, labels, rows, cols, Cell(current.posY, current.posX))
  {
    var cur := Cell(current.posY, current.posX);
    forall d | d in FourNeighbors(cur.row, cur.col) && GrowsAcross(img, rows, cols, cur, d)
      ensures labels[d.row][d.col] != 0
    {
      var e :| e in neighbors && Cell(e.posY, e.posX) == d;
      var u :| 0 <= u < |neighbors| && neighbors[u] == e;
      assert Absorbed(img, labels, rows, cols, cur, Cell(neighbors[u].posY, neighbors[u].posX));
    }
  }

  // ------------------------------------------------------ the grown regions

  /** p is a chain of cells in the image, each growable into the next. */
  ghost predicate GrowthChain(img: seq<seq<int>>, rows: nat, cols: nat, p: seq<Cell>)
    requires IsGrid(img, rows, cols)
  {
    |p| >= 1 && (forall i :: 0 <= i < |p| ==> InImage(p[i], rows, cols)) &&
    (forall i :: 0 <= i < |p| - 1 ==> GrowsAcross(img, rows, cols, p[i], p[i + 1]))
  }

  /** c is a pixel of the image with a non-zero label. */
  predicate Labelled(labels: seq<seq<int>>, rows: nat, cols: nat, c: Cell)
    requires IsGrid(labels, rows, cols)
  {
    InImage(c, rows, cols) && labels[c.row][c.col] != 0
  }

  /** p runs from a seed cell to c and every cell on it carries c's label. */
  ghost predicate SeedPath(img: seq<seq<int>>, initial: seq<seq<int>>, labels: seq<seq<int>>, rows: nat, cols: nat,
                           p: seq<Cell>, c: Cell)
    requires IsGrid(img, rows, cols) && IsGrid(initial, rows, cols) && IsGrid(labels, rows, cols)
  {
    GrowthChain(img, rows, cols, p) && p[|p| - 1] == c && InImage(c, rows, cols) &&
    initial[p[0].row][p[0].col] != 0 &&
    (forall i :: 0 <= i < |p| ==> labels[p[i].row][p[i].col] == labels[c.row][c.col])
  }

  /** No labelled pixel has an unlabelled growable neighbour. */
  ghost predicate AllClosed(img: seq<seq<int>>, labels: seq<seq<int>>, rows: nat, cols: nat)
    requires IsGrid(img, rows, cols) && IsGrid(labels, rows, cols)
  {
    forall y, x :: 0 <= y < rows && 0 <= x < cols ==> Closed(img, labels, rows, cols, Cell(y, x))
  }

  /** What a finished growth leaves, starting from the seeded grid
      `initial` with k seeds: labels in 0..k, seed labels kept, no
      labelled pixel with an unlabelled growable neighbour, and every
      labelled pixel joined to a seed of the same label by a growth chain
      inside its region. */
  ghost predicate GrownFrom(img: seq<seq<int>>, initial: seq<seq<int>>, labels: seq<seq<int>>,
                            rows: nat, cols: nat, k: nat)
  {
    IsGrid(img, rows, cols) && IsGrid(initial, rows, cols) && IsGrid(labels, rows, cols) &&
    (forall y, x :: 0 <= y < rows && 0 <= x < cols ==>
      0 <= labels[y][x] <= k && (initial[y][x] != 0 ==> labels[y][x] == initial[y][x])) &&
    AllClosed(img, labels, rows, cols) &&
    (forall c :: Labelled(labels, rows, cols, c) ==> exists p :: SeedPath(img, initial, labels, rows, cols, p, c))
  }

  lemma ClaimerOf(img: seq<seq<int>>, initial: seq<seq<int>>, labels: seq<seq<int>>, rows: nat, cols: nat,
                  c: Cell, earlier: seq<Cell>) returns (d: Cell)
    requires IsGrid(img, rows, cols) && IsGrid(initial, rows, cols) && IsGrid(labels, rows, cols)
    requires HasClaimer(img, initial, labels, rows, cols, c, earlier)
    ensures ClaimedBy(img, initial, labels, rows, cols, c, d, earlier)
  {
    if ClaimedBy(img, initial, labels, rows, cols, c, Cell(c.row, c.col - 1), earlier) {
      d := Cell(c.row, c.col - 1);
    } else if ClaimedBy(img, initial, labels, rows, cols, c, Cell(c.row, c.col + 1), earlier) {
      d := Cell(c.row, c.col + 1);
    } else if ClaimedBy(img, initial, labels, rows, cols, c, Cell(c.row - 1, c.col), earlier) {
      d := Cell(c.row - 1, c.col);
    } else {
      d := Cell(c.row + 1, c.col);
    }
  }

  /** A seed path to d extends to c when c is growable from d and carries
      d's label. */
  lemma ExtendSeedPath(img: seq<seq<int>>, initial: seq<seq<int>>, labels: seq<seq<int>>, rows: nat, cols: nat,
                       p: seq<Cell>, d: Cell, c: Cell)
    requires IsGrid(img, rows, cols) && IsGrid(initial, rows, cols) && IsGrid(labels, rows, cols)
    requires SeedPath(img, initial, labels, rows, cols, p, d)
    requires GrowsAcross(img, rows, cols, d, c) && labels[c.row][c.col] == labels[d.row][d.col]
    ensures SeedPath(img, initial, labels, rows, cols, p + [c], c)
  {
    var p' := p + [c];
    assert p'[|p'| - 2] == d;
    forall i | 0 <= i < |p'| - 1 ensures GrowsAcross(img, rows, cols, p'[i], p'[i + 1]) {
      if i < |p| - 1 {
        assert p'[i] == p[i] && p'[i + 1] == p[i + 1];
      }
    }
  }

  /** Every cell of the growth order is joined to a seed: follow claimers
      back through earlier cells of the order. */
  lemma {:induction false} OrderReachesSeed(img: seq<seq<int>>, initial: seq<seq<int>>, labels: seq<seq<int>>,
                                            rows: nat, cols: nat, order: seq<Cell>, t: nat)
    requires IsGrid(img, rows, cols) && IsGrid(initial, rows, cols) && IsGrid(labels, rows, cols)
    requires forall u :: 0 <= u < |order| ==>
      InImage(order[u], rows, cols) && HasClaimer(img, initial, labels, rows, cols, order[u], order[..u])
    requires t < |order|
    ensures exists p :: SeedPath(img, initial, labels, rows, cols, p, order[t])
    decreases t
  {
    var c := order[t];
    var d := ClaimerOf(img, initial, labels, rows, cols, c, order[..t]);
    if initial[d.row][d.col] != 0 {
      var p := [d, c];
      assert SeedPath(img, initial, labels, rows, cols, p, c);
    } else {
      var u :| 0 <= u < t && order[u] == d;
      OrderReachesSeed(img, initial, labels, rows, cols, order, u);
      var p :| SeedPath(img, initial, labels, rows, cols, p, d);
      ExtendSeedPath(img, initial, labels, rows, cols, p, d, c);
    }
  }

  /** An empty queue with nothing exempt is a finished growth. */
  lemma GrowthEnds(img: seq<seq<int>>, initial: seq<seq<int>>, labels: seq<seq<int>>, rows: nat, cols: nat, k: nat,
                   unlabelled: set<Cell>, order: seq<Cell>)
    requires GrowthInvariant(img, initial, labels, rows, cols, k, [], unlabelled, order, {})
    ensures GrownFrom(img, initial, labels, rows, cols, k)
  {
    assert CellsOf([]) == {};
    forall y, x | 0 <= y < rows && 0 <= x < cols
      ensures 0 <= labels[y][x] <= k && (initial[y][x] != 0 ==> labels[y][x] == initial[y][x])
      ensures labels[y][x] != 0 && initial[y][x] == 0 ==> Cell(y, x) in order
      ensures Closed(img, labels, rows, cols, Cell(y, x))
    {
      assert CellKept(img, initial, labels, rows, cols, k, [], order, {}, y, x);
    }
    forall c | Labelled(labels, rows, cols, c)
      ensures exists p :: SeedPath(img, initial, labels, rows, cols, p, c)
    {
      if initial[c.row][c.col] != 0 {
        assert SeedPath(img, initial, labels, rows, cols, [c], c);
      } else {
        var t :| 0 <= t < |order| && order[t] == c;
        OrderReachesSeed(img, initial, labels, rows, cols, order, t);
      }
    }
  }

  /** In a finished growth, growth chains never leave the labelled pixels:
      whatever is reachable from a labelled pixel is labelled. */
  lemma {:induction false} ChainStaysLabelled(img: seq<seq<int>>, labels: seq<seq<int>>, rows: nat, cols: nat,
                                              p: seq<Cell>)
    requires IsGrid(img, rows, cols) && IsGrid(labels, rows, cols)
    requires AllClosed(img, labels, rows, cols) && GrowthChain(img, rows, cols, p)
    requires labels[p[0].row][p[0].col] != 0
    ensures labels[p[|p| - 1].row][p[|p| - 1].col] != 0
    decreases |p|
  {
    if |p| > 1 {
      var q := p[..|p| - 1];
      assert GrowthChain(img, rows, cols, q) by {
        assert forall i :: 0 <= i < |q| ==> q[i] == p[i];
      }
      ChainStaysLabelled(img, labels, rows, cols, q);
      var c, d := p[|p| - 2], p[|p| - 1];
      assert q[|q| - 1] == c;
      assert GrowsAcross(img, rows, cols, c, d);
      assert Closed(img, labels, rows, cols, Cell(c.row, c.col));
      ClosedStep(img, labels, rows, cols, c, d);
    }
  }

  /** A closed labelled cell passes its label on to every cell it grows
      into. */
  lemma ClosedStep(img: seq<seq<int>>, labels: seq<seq<int>>, rows: nat, cols: nat, c: Cell, d: Cell)
    requires IsGrid(img, rows, cols) && IsGrid(labels, rows, cols)
    requires Closed(img, labels, rows, cols, c) && InImage(c, rows, cols) && labels[c.row][c.col] != 0
    requires GrowsAcross(img, rows, cols, c, d)
    ensures labels[d.row][d.col] != 0
  {
    if d == Cell(c.row, c.col - 1) {
      assert Absorbed(img, labels, rows, cols, c, Cell(c.row, c.col - 1));
    } else if d == Cell(c.row, c.col + 1) {
      assert Absorbed(img, labels, rows, cols, c, Cell(c.row, c.col + 1));
    } else if d == Cell(c.row - 1, c.col) {
      assert Absorbed(img, labels, rows, cols, c, Cell(c.row - 1, c.col));
    } else {
      assert Absorbed(img, labels, rows, cols, c, Cell(c.row + 1, c.col));
    }
  }

  /** The labelled pixels of a finished growth are exactly those reachable
      by a growth chain from a seed. */
  lemma LabelledIffReachable(img: seq<seq<int>>, initial: seq<seq<int>>, labels: seq<seq<int>>,
                             rows: nat, cols: nat, k: nat, c: Cell)
    requires GrownFrom(img, initial, labels, rows, cols, k) && InImage(c, rows, cols)
    ensures labels[c.row][c.col] != 0 <==>
      exists p: seq<Cell> :: GrowthChain(img, rows, cols, p) && initial[p[0].row][p[0].col] != 0 && p[|p| - 1] == c
  {
    if labels[c.row][c.col] != 0 {
      assert Labelled(labels, rows, cols, c);
      var p :| SeedPath(img, initial, labels, rows, cols, p, c);
    }
    if p: seq<Cell> :| GrowthChain(img, rows, cols, p) && initial[p[0].row][p[0].col] != 0 && p[|p| - 1] == c {
      ChainStaysLabelled(img, labels, rows, cols, p);
    }
  }
  /** Growth changes nothing on a grid that is labelled everywhere: seed
      labels are kept, so the finished grid is the one growth started from. */
  lemma FullGridUnchanged(img: seq<seq<int>>, initial: seq<seq<int>>, labels: seq<seq<int>>,
                          rows: nat, cols: nat, k: nat)
    requires GrownFrom(img, initial, labels, rows, cols, k)
    requires forall y, x :: 0 <= y < rows && 0 <= x < cols ==> initial[y][x] != 0
    ensures labels == initial
  {
    GridsEqual(labels, initial, rows, cols);
  }

  // ------------------------------------------- the growth loop as a function

  /** The sample of (x, y) as a list: one sample inside the image, none
      outside (addNeighbor). */
  function SampleIfInImage(img: seq<seq<int>>, labels: seq<seq<int>>, rows: nat, cols: nat, x: int, y: int): seq<PixelInfo>
    requires IsGrid(img, rows, cols) && IsGrid(labels, rows, cols)
  {
    if InImage(Cell(y, x), rows, cols) then [SampleAt(img, labels, rows, cols, Cell(y, x))] else []
  }

  /** The neighbour list of p (findNeighbors): the in-image samples left,
      right, above and below, in that order. */
  function NeighborSamples(img: seq<seq<int>>, labels: seq<seq<int>>, rows: nat, cols: nat, p: PixelInfo): (ns: seq<PixelInfo>)
    requires IsGrid(img, rows, cols) && IsGrid(labels, rows, cols)
    ensures |ns| <= 4
    ensures forall u :: 0 <= u < |ns| ==> InImage(Cell(ns[u].posY, ns[u].posX), rows, cols)
  {
    SampleIfInImage(img, labels, rows, cols, p.posX - 1, p.posY) +
    SampleIfInImage(img, labels, rows, cols, p.posX + 1, p.posY) +
    SampleIfInImage(img, labels, rows, cols, p.posX, p.posY - 1) +
    SampleIfInImage(img, labels, rows, cols, p.posX, p.posY + 1)
  }

  /** Each sample of the neighbour list of p is the sample of an in-image
      4-neighbour of p, and every in-image 4-neighbour of p is on the list. */
  lemma NeighborSamplesCover(img: seq<seq<int>>, labels: seq<seq<int>>, rows: nat, cols: nat, p: PixelInfo)
    requires IsGrid(img, rows, cols) && IsGrid(labels, rows, cols)
    ensures var ns := NeighborSamples(img, labels, rows, cols, p);
      (forall u :: 0 <= u < |ns| ==>
        Cell(ns[u].posY, ns[u].posX) in FourNeighbors(p.posY, p.posX) &&
        InImage(Cell(ns[u].posY, ns[u].posX), rows, cols) &&
        ns[u] == SampleAt(img, labels, rows, cols, Cell(ns[u].posY, ns[u].posX))) &&
      (forall c :: c in FourNeighbors(p.posY, p.posX) && InImage(c, rows, cols) ==> c in CellsOf(ns))
  {
    var ns := NeighborSamples(img, labels, rows, cols, p);
    var l := SampleIfInImage(img, labels, rows, cols, p.posX - 1, p.posY);
    var r := SampleIfInImage(img, labels, rows, cols, p.posX + 1, p.posY);
    var u := SampleIfInImage(img, labels, rows, cols, p.posX, p.posY - 1);
    var d := SampleIfInImage(img, labels, rows, cols, p.posX, p.posY + 1);
    assert ns == l + r + u + d;
    forall t | 0 <= t < |ns|
      ensures Cell(ns[t].posY, ns[t].posX) in FourNeighbors(p.posY, p.posX) &&
              InImage(Cell(ns[t].posY, ns[t].posX), rows, cols) &&
              ns[t] == SampleAt(img, labels, rows, cols, Cell(ns[t].posY, ns[t].posX))
    {
      assert ns[t] in l || ns[t] in r || ns[t] in u || ns[t] in d;
    }
    forall c | c in FourNeighbors(p.posY, p.posX) && InImage(c, rows, cols) ensures c in CellsOf(ns) {
      var e := SampleAt(img, labels, rows, cols, c);
      assert e in l || e in r || e in u || e in d;
      assert e in ns;
    }
  }

  /** The state the neighbour loop works on: the label grid and the queue. */
  datatype Visit = Visit(labels: seq<seq<int>>, queue: seq<PixelInfo>)

  /** One iteration of the neighbour loop for sample `current`: a neighbour
      that passes the growth test and whose cell is still 0 takes the current
      label and joins the back of the queue; otherwise nothing changes. */
  function VisitStep(img: seq<seq<int>>, rows: nat, cols: nat, current: PixelInfo, v: Visit, n: PixelInfo): (w: Visit)
    requires IsGrid(img, rows, cols) && IsGrid(v.labels, rows, cols) && InImage(Cell(n.posY, n.posX), rows, cols)
    ensures IsGrid(w.labels, rows, cols)
  {
    if GrowthCriterion(current, n) && v.labels[n.posY][n.posX] == 0 then
      Visit(SetLabel(v.labels, rows, cols, Cell(n.posY, n.posX), current.category),
            v.queue + [n.(category := current.category)])
    else v
  }

  /** The neighbour loop over ns, from state v. */
  function VisitAll(img: seq<seq<int>>, rows: nat, cols: nat, current: PixelInfo, v: Visit, ns: seq<PixelInfo>): (w: Visit)
    requires IsGrid(img, rows, cols) && IsGrid(v.labels, rows, cols)
    requires forall u :: 0 <= u < |ns| ==> InImage(Cell(ns[u].posY, ns[u].posX), rows, cols)
    ensures IsGrid(w.labels, rows, cols)
    decreases |ns|
  {
    if ns == [] then v
    else
      assert InImage(Cell(ns[|ns| - 1].posY, ns[|ns| - 1].posX), rows, cols);
      VisitStep(img, rows, cols, current, VisitAll(img, rows, cols, current, v, ns[..|ns| - 1]), ns[|ns| - 1])
  }

  /** Running the neighbour loop one neighbour further adds one step. */
  lemma VisitAllSnoc(img: seq<seq<int>>, rows: nat, cols: nat, current: PixelInfo, v: Visit, ns: seq<PixelInfo>, t: nat)
    requires IsGrid(img, rows, cols) && IsGrid(v.labels, rows, cols) && t < |ns|
    requires forall u :: 0 <= u < |ns| ==> InImage(Cell(ns[u].posY, ns[u].posX), rows, cols)
    ensures VisitAll(img, rows, cols, current, v, ns[..t + 1]) ==
            VisitStep(img, rows, cols, current, VisitAll(img, rows, cols, current, v, ns[..t]), ns[t])
  {
    assert ns[..t + 1][..t] == ns[..t];
  }

  /** Samples the growth loop can hold: inside the image, with a non-zero
      label. */
  ghost predicate QueueSound(rows: nat, cols: nat, queue: seq<PixelInfo>)
  {
    forall t :: 0 <= t < |queue| ==> InImage(Cell(queue[t].posY, queue[t].posX), rows, cols) && queue[t].category != 0
  }

  /** A label v != 0 written into a cell that is 0 removes exactly that cell
      from the unlabelled ones. */
  lemma ZeroCellsSetLabel(labels: seq<seq<int>>, rows: nat, cols: nat, c: Cell, v: int)
    requires IsGrid(labels, rows, cols) && InImage(c, rows, cols) && labels[c.row][c.col] == 0 && v != 0
    ensures ZeroCells(SetLabel(labels, rows, cols, c, v), rows, cols) == ZeroCells(labels, rows, cols) - {c}
  {
  }

  /** One claim labels one more cell and lengthens the queue by one: the
      number of unlabelled cells plus the queue length stays the same, a step
      that claims nothing changes nothing, and a sound queue stays sound. */
  lemma VisitStepCounts(img: seq<seq<int>>, rows: nat, cols: nat, current: PixelInfo, v: Visit, n: PixelInfo)
    requires IsGrid(img, rows, cols) && IsGrid(v.labels, rows, cols) && current.category != 0
    requires InImage(Cell(n.posY, n.posX), rows, cols)
    ensures var w := VisitStep(img, rows, cols, current, v, n);
      |ZeroCells(w.labels, rows, cols)| + |w.queue| == |ZeroCells(v.labels, rows, cols)| + |v.queue| &&
      |w.queue| >= |v.queue| && (|w.queue| == |v.queue| ==> w == v) &&
      (QueueSound(rows, cols, v.queue) ==> QueueSound(rows, cols, w.queue))
  {
    if GrowthCriterion(current, n) && v.labels[n.posY][n.posX] == 0 {
      ZeroCellsSetLabel(v.labels, rows, cols, Cell(n.posY, n.posX), current.category);
      var q := v.queue + [n.(category := current.category)];
      if QueueSound(rows, cols, v.queue) {
        forall t | 0 <= t < |q| ensures InImage(Cell(q[t].posY, q[t].posX), rows, cols) && q[t].category != 0 {
          if t < |v.queue| {
            assert q[t] == v.queue[t];
          }
        }
      }
    }
  }

  /** The same three facts for the whole neighbour loop. */
  lemma {:induction false} VisitCounts(img: seq<seq<int>>, rows: nat, cols: nat, current: PixelInfo, v: Visit,
                                       ns: seq<PixelInfo>)
    requires IsGrid(img, rows, cols) && IsGrid(v.labels, rows, cols) && current.category != 0
    requires forall u :: 0 <= u < |ns| ==> InImage(Cell(ns[u].posY, ns[u].posX), rows, cols)
    ensures var w := VisitAll(img, rows, cols, current, v, ns);
      |ZeroCells(w.labels, rows, cols)| + |w.queue| == |ZeroCells(v.labels, rows, cols)| + |v.queue| &&
      |w.queue| >= |v.queue| && (|w.queue| == |v.queue| ==> w == v) &&
      (QueueSound(rows, cols, v.queue) ==> QueueSound(rows, cols, w.queue))
    decreases |ns|
  {
    if ns != [] {
      VisitCounts(img, rows, cols, current, v, ns[..|ns| - 1]);
      assert InImage(Cell(ns[|ns| - 1].posY, ns[|ns| - 1].posX), rows, cols);
      VisitStepCounts(img, rows, cols, current, VisitAll(img, rows, cols, current, v, ns[..|ns| - 1]), ns[|ns| - 1]);
    }
  }

  /** One iteration of the growth loop: take the front sample and run the
      neighbour loop over its neighbour list. */
  function GrowthStep(img: seq<seq<int>>, labels: seq<seq<int>>, rows: nat, cols: nat, queue: seq<PixelInfo>): (w: Visit)
    requires IsGrid(img, rows, cols) && IsGrid(labels, rows, cols) && queue != []
    ensures IsGrid(w.labels, rows, cols)
  {
    VisitAll(img, rows, cols, queue[0], Visit(labels, queue[1..]), NeighborSamples(img, labels, rows, cols, queue[0]))
  }

  /** A step either labels a cell or shortens the queue, and keeps the queue
      sound. */
  lemma GrowthStepProgress(img: seq<seq<int>>, labels: seq<seq<int>>, rows: nat, cols: nat, queue: seq<PixelInfo>)
    requires IsGrid(img, rows, cols) && IsGrid(labels, rows, cols) && queue != [] && QueueSound(rows, cols, queue)
    ensures var w := GrowthStep(img, labels, rows, cols, queue);
      QueueSound(rows, cols, w.queue) &&
      (|ZeroCells(w.labels, rows, cols)| < |ZeroCells(labels, rows, cols)| ||
       (w.labels == labels && |w.queue| < |queue|))
  {
    var v := Visit(labels, queue[1..]);
    assert QueueSound(rows, cols, v.queue) by {
      forall t | 0 <= t < |v.queue| ensures InImage(Cell(v.queue[t].posY, v.queue[t].posX), rows, cols) && v.queue[t].category != 0 {
        assert v.queue[t] == queue[t + 1];
      }
    }
    VisitCounts(img, rows, cols, queue[0], v, NeighborSamples(img, labels, rows, cols, queue[0]));
  }

  /** The label grid the growth loop leaves when run from `labels` and
      `queue`: breadth-first growth with its first-in, first-out queue and
      its left, right, up, down neighbour order, which together decide the
      owner of a pixel that several regions can reach. */
  ghost function BreadthFirstGrowth(img: seq<seq<int>>, labels: seq<seq<int>>, rows: nat, cols: nat,
                                    queue: seq<PixelInfo>): (r: seq<seq<int>>)
    requires IsGrid(img, rows, cols) && IsGrid(labels, rows, cols) && QueueSound(rows, cols, queue)
    ensures IsGrid(r, rows, cols)
    decreases |ZeroCells(labels, rows, cols)|, |queue|
  {
    if queue == [] then labels
    else
      GrowthStepProgress(img, labels, rows, cols, queue);
      var w := GrowthStep(img, labels, rows, cols, queue);
      BreadthFirstGrowth(img, w.labels, rows, cols, w.queue)
  }

  /** A non-empty queue runs one step and continues from there. */
  lemma BreadthFirstGrowthUnfolds(img: seq<seq<int>>, labels: seq<seq<int>>, rows: nat, cols: nat,
                                  queue: seq<PixelInfo>)
    requires IsGrid(img, rows, cols) && IsGrid(labels, rows, cols) && QueueSound(rows, cols, queue) && queue != []
    ensures var w := GrowthStep(img, labels, rows, cols, queue);
      QueueSound(rows, cols, w.queue) &&
      BreadthFirstGrowth(img, labels, rows, cols, queue) == BreadthFirstGrowth(img, w.labels, rows, cols, w.queue)
  {
    GrowthStepProgress(img, labels, rows, cols, queue);
  }

  /** A queue of well-formed samples is sound. */
  lemma WellFormedQueueSound(img: seq<seq<int>>, labels: seq<seq<int>>, rows: nat, cols: nat, k: nat,
                             queue: seq<PixelInfo>)
    requires IsGrid(img, rows, cols) && IsGrid(labels, rows, cols) && QueueWellFormed(img, labels, rows, cols, k, queue)
    ensures QueueSound(rows, cols, queue)
  {
    forall t | 0 <= t < |queue| ensures InImage(Cell(queue[t].posY, queue[t].posX), rows, cols) && queue[t].category != 0 {
      assert Queued(img, labels, rows, cols, queue[t], k);
    }
  }

  /** Growth only writes into unlabelled cells: once no cell is 0, the rest
      of the queue drains without changing the grid. */
  lemma {:induction false} FullGridIsFixed(img: seq<seq<int>>, labels: seq<seq<int>>, rows: nat, cols: nat,
                                           queue: seq<PixelInfo>)
    requires IsGrid(img, rows, cols) && IsGrid(labels, rows, cols) && QueueSound(rows, cols, queue)
    requires ZeroCells(labels, rows, cols) == {}
    ensures BreadthFirstGrowth(img, labels, rows, cols, queue) == labels
    decreases |queue|
  {
    if queue != [] {
      GrowthStepProgress(img, labels, rows, cols, queue);
      BreadthFirstGrowthUnfolds(img, labels, rows, cols, queue);
      var w := GrowthStep(img, labels, rows, cols, queue);
      FullGridIsFixed(img, w.labels, rows, cols, w.queue);
    }
  }

  /** A uniform 1 x 4 row seeded at columns 1 and 3: seed 1 leaves the queue
      first and claims both columns 0 and 2, so seed 2 keeps only its own
      cell. The contested column 2 goes to the sample queued first. */
  lemma UniformRowGrowth(img: seq<seq<int>>, seeded: seq<seq<int>>, queue: seq<PixelInfo>)
    requires img == [[7, 7, 7, 7]] && seeded == [[0, 1, 0, 2]]
    requires queue == [PixelInfo(1, 1, 0, 7), PixelInfo(2, 3, 0, 7)]
    ensures QueueSound(1, 4, queue) && BreadthFirstGrowth(img, seeded, 1, 4, queue) == [[1, 1, 1, 2]]
  {
    assert QueueSound(1, 4, queue);
    UniformRowFirstStep();
    BreadthFirstGrowthUnfolds(img, seeded, 1, 4, queue);
    UniformRowFull([[1, 1, 1, 2]]);
    FullGridIsFixed(img, [[1, 1, 1, 2]], 1, 4, [PixelInfo(2, 3, 0, 7), PixelInfo(1, 0, 0, 7), PixelInfo(1, 2, 0, 7)]);
  }

  /** The grid UniformRowGrowth reaches after one step has no unlabelled
      cell. */
  lemma UniformRowFull(labels: seq<seq<int>>)
    requires labels == [[1, 1, 1, 2]]
    ensures ZeroCells(labels, 1, 4) == {}
  {
    forall c | InImage(c, 1, 4) ensures labels[c.row][c.col] != 0 {
      assert c.row == 0;
    }
  }

  /** The first step of UniformRowGrowth: seed 1 claims columns 0 and 2. */
  lemma UniformRowFirstStep()
    ensures GrowthStep([[7, 7, 7, 7]], [[0, 1, 0, 2]], 1, 4, [PixelInfo(1, 1, 0, 7), PixelInfo(2, 3, 0, 7)]) ==
            Visit([[1, 1, 1, 2]], [PixelInfo(2, 3, 0, 7), PixelInfo(1, 0, 0, 7), PixelInfo(1, 2, 0, 7)])
  {
    var img, l0 := [[7, 7, 7, 7]], [[0, 1, 0, 2]];
    var p1, p2 := PixelInfo(1, 1, 0, 7), PixelInfo(2, 3, 0, 7);
    var ns := NeighborSamples(img, l0, 1, 4, p1);
    assert ns == [PixelInfo(0, 0, 0, 7), PixelInfo(0, 2, 0, 7)];
    var v := Visit(l0, [p2]);
    VisitAllSnoc(img, 1, 4, p1, v, ns, 0);
    VisitAllSnoc(img, 1, 4, p1, v, ns, 1);
    assert ns[..0] == [] && ns[..2] == ns;
    var mid := SetLabel(l0, 1, 4, Cell(0, 0), 1);
    assert [0, 1, 0, 2][0 := 1] == [1, 1, 0, 2];
    assert mid == [[1, 1, 0, 2]];
    assert VisitAll(img, 1, 4, p1, v, ns[..1]) == Visit(mid, [p2, PixelInfo(1, 0, 0, 7)]);
    assert [1, 1, 0, 2][2 := 1] == [1, 1, 1, 2];
    assert SetLabel(mid, 1, 4, Cell(0, 2), 1) == [[1, 1, 1, 2]];
  }

  /** The queue seeding leaves: seed t as a sample labelled t + 1. */
  function SeedQueue(img: seq<seq<int>>, s: seq<Cell>, rows: nat, cols: nat): (q: seq<PixelInfo>)
    requires IsGrid(img, rows, cols) && forall t :: 0 <= t < |s| ==> 0 <= s[t].row < rows && 0 <= s[t].col < cols
    ensures |q| == |s| && QueueSound(rows, cols, q)
    ensures forall t :: 0 <= t < |s| ==> q[t] == PixelInfo(t + 1, s[t].col, s[t].row, img[s[t].row][s[t].col])
  {
    seq(|s|, t requires 0 <= t < |s| => PixelInfo(t + 1, s[t].col, s[t].row, img[s[t].row][s[t].col]))
  }
}
