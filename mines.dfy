/** The board engine of the console Minesweeper game of `debugging/mines.py`:
    the mine set, the matrix of revealed flags and its counter, the count of
    mines around a cell, the recursive flood-fill reveal and the win test. */
module Mines {

  /** A cell (x, y): column x, row y. */
  type Cell = (int, int)

  /** The numbers 0, 1, ..., n - 1: the population the mines are drawn from. */
  function Range(n: int): (r: set<int>)
    ensures forall i :: i in r <==> 0 <= i < n
    decreases n
  {
    if n <= 0 then {} else Range(n - 1) + {n - 1}
  }

  // ---------------------------------------------------------------------
  // Facts about finite sets and linear indices
  // ---------------------------------------------------------------------

  lemma {:induction false} RangeSize(n: nat)
    ensures |Range(n)| == n
  {
    if n > 0 {
      RangeSize(n - 1);
    }
  }

  /** Removing a subset removes exactly its elements from the count. */
  lemma SubsetSize<T>(a: set<T>, b: set<T>)
    requires a <= b
    ensures |b - a| == |b| - |a|
  {
    assert b == (b - a) + a;
    assert (b - a) * a == {};
  }

  /** random.sample(range(n), k) answers a set of k distinct numbers below n
      and raises ValueError when there is none; there is one exactly when
      0 <= k <= n. */
  lemma SampleExists(n: nat, k: int)
    ensures (exists s: set<int> :: s <= Range(n) && |s| == k) <==> 0 <= k <= n
  {
    RangeSize(n);
    if 0 <= k <= n {
      RangeSize(k);
      assert Range(k) <= Range(n) && |Range(k)| == k;
    }
    if exists s: set<int> :: s <= Range(n) && |s| == k {
      var s: set<int> :| s <= Range(n) && |s| == k;
      SubsetSize(s, Range(n));
    }
  }

  /** Multiplying by a non-negative number keeps the order. */
  lemma {:induction false} MulMonotone(a: int, b: int, w: int)
    requires w >= 0
    ensures a <= b ==> a * w <= b * w
    decreases if a <= b then b - a else 0
  {
    if a < b {
      MulMonotone(a, b - 1, w);
      assert b * w == (b - 1) * w + w;
    }
  }

  /** The linear index y * width + x of an in-bounds cell lies in
      [0, width * height). */
  lemma IndexInRange(x: int, y: int, w: int, h: int)
    requires 0 <= x < w && 0 <= y < h
    ensures 0 <= y * w + x < w * h
  {
    MulMonotone(0, y, w);
    MulMonotone(y + 1, h, w);
    assert (y + 1) * w == y * w + w;
    assert h * w == w * h;
  }

  /** Two cells of the board never share a linear index. */
  lemma IndexInjective(x1: int, y1: int, x2: int, y2: int, w: int)
    requires 0 <= x1 < w && 0 <= x2 < w
    requires y1 * w + x1 == y2 * w + x2
    ensures x1 == x2 && y1 == y2
  {
    MulMonotone(y1 + 1, y2, w);
    MulMonotone(y2 + 1, y1, w);
    assert (y1 + 1) * w == y1 * w + w;
    assert (y2 + 1) * w == y2 * w + w;
  }

  /** Every index in [0, width * height) is that of the cell
      (i % width, i / width). */
  lemma IndexOnto(i: int, w: nat, h: nat)
    requires 0 <= i < w * h
    ensures w > 0
    ensures 0 <= i % w < w && 0 <= i / w < h && (i / w) * w + i % w == i
  {
    assert w != 0;
    var y, x := i / w, i % w;
    assert y * w + x == i;
    MulMonotone(h, y, w);
    assert h * w == w * h;
  }

  /** The linear indices of a set of cells. */
  ghost function Indices(s: set<Cell>, w: int): (r: set<int>) {
    set c | c in s :: c.1 * w + c.0
  }

  /** Indexing is one-to-one on cells with 0 <= x < width. */
  lemma {:induction false} IndicesSize(s: set<Cell>, w: int)
    requires forall c :: c in s ==> 0 <= c.0 < w
    ensures |Indices(s, w)| == |s|
    decreases |s|
  {
    if s != {} {
      var c :| c in s;
      var r := s - {c};
      IndicesSize(r, w);
      assert Indices(s, w) == Indices(r, w) + {c.1 * w + c.0};
      if c.1 * w + c.0 in Indices(r, w) {
        var d :| d in r && d.1 * w + d.0 == c.1 * w + c.0;
        IndexInjective(d.0, d.1, c.0, c.1, w);
        assert false;
      }
    }
  }

  // ---------------------------------------------------------------------
  // The board
  // ---------------------------------------------------------------------

  /** One game of Minesweeper. The dimensions, the mines and the total are
      fixed when the game is made; reveal changes the matrix of flags
      revealed[y, x] and the counter revealedCells. Shown is the set of
      revealed cells, the abstract view of the matrix. */
  class Minesweeper {
    const width: nat
    const height: nat
    const mines: set<int>
    const totalCells: int
    const revealed: array2<bool>
    var revealedCells: int
    ghost var Shown: set<Cell>

    predicate InBounds(x: int, y: int) {
      0 <= x < width && 0 <= y < height
    }

    /** The linear index of the cell (x, y), the form the mines are kept in. */
    function Index(x: int, y: int): int {
      y * width + x
    }

    /** Every cell of the board. */
    ghost function Grid(): set<Cell> {
      set x, y | 0 <= x < width && 0 <= y < height :: (x, y)
    }

    /** The cells that are not mines. */
    ghost function SafeCells(): set<Cell> {
      set c | c in Grid() && Index(c.0, c.1) !in mines
    }

    /** The up-to-8 cells at Chebyshev distance 1 from c, clipped to the
        board. */
    ghost function Neighbours(c: Cell): set<Cell> {
      set x, y | c.0 - 1 <= x <= c.0 + 1 && c.1 - 1 <= y <= c.1 + 1 && (x, y) != c && InBounds(x, y)
        :: (x, y)
    }

    /** The neighbours of c that hold a mine. */
    ghost function MinesAround(c: Cell): set<Cell> {
      set n | n in Neighbours(c) && Index(n.0, n.1) in mines
    }

    /** The object invariant: the matrix has the board's shape, the total
        is width * height, the mines lie on the board, the counter is the
        number of revealed flags, and no mine is ever revealed. */
    ghost predicate Valid()
      reads this, revealed
    {
      revealed.Length0 == height && revealed.Length1 == width &&
      totalCells == width * height &&
      mines <= Range(width * height) &&
      (forall x, y {:trigger revealed[y, x]} :: InBounds(x, y) ==> (revealed[y, x] <==> (x, y) in Shown)) &&
      (forall c :: c in Shown ==> InBounds(c.0, c.1) && Index(c.0, c.1) !in mines) &&
      revealedCells == |Shown|
    }

    /** A new game on a width x height board. The mines are the k distinct
        indices in [0, width * height) that random.sample draws; here they
        are a parameter (SampleExists says when such a set exists). No cell
        is revealed yet. */
    constructor (w: nat, h: nat, mineCount: int, sample: set<int>)
      requires sample <= Range(w * h) && |sample| == mineCount
      ensures Valid() && fresh(revealed)
      ensures width == w && height == h && mines == sample && |mines| == mineCount
      ensures totalCells == w * h && revealedCells == 0 && Shown == {}
      ensures forall x, y :: 0 <= x < w && 0 <= y < h ==> !revealed[y, x]
    {
      width, height, mines := w, h, sample;
      revealed := new bool[h, w]((_, _) => false);
      totalCells := w * h;
      revealedCells := 0;
      Shown := {};
    }

    // -------------------------------------------------------------------
    // count_mines_nearby
    // -------------------------------------------------------------------

    /** The mines among the neighbours (x + dx', y + dy') that the nested
        loop has visited before offset (dx, dy): dx' < dx, or dx' == dx and
        dy' < dy. */
    ghost function Scanned(c: Cell, dx: int, dy: int): set<Cell> {
      set n | n in MinesAround(c) && (n.0 - c.0 < dx || (n.0 - c.0 == dx && n.1 - c.1 < dy))
    }

    /** Whether the nested loop counts offset (dx, dy) from c: not the
        centre, on the board, and a mine. */
    predicate CountsAt(c: Cell, dx: int, dy: int) {
      (dx, dy) != (0, 0) && InBounds(c.0 + dx, c.1 + dy) && Index(c.0 + dx, c.1 + dy) in mines
    }

    /** Visiting offset (dx, dy) adds that cell exactly when it is an
        in-bounds neighbour holding a mine. */
    lemma ScanStep(c: Cell, dx: int, dy: int)
      requires -1 <= dx <= 1 && -1 <= dy <= 1
      ensures |Scanned(c, dx, dy + 1)| == |Scanned(c, dx, dy)| + if CountsAt(c, dx, dy) then 1 else 0
    {
      var n := (c.0 + dx, c.1 + dy);
      if CountsAt(c, dx, dy) {
        assert n in Neighbours(c);
        assert n in MinesAround(c);
        assert Scanned(c, dx, dy + 1) == Scanned(c, dx, dy) + {n};
      } else {
        assert Scanned(c, dx, dy + 1) == Scanned(c, dx, dy);
      }
    }

    /** The last offset of a column is followed by the first of the next. */
    lemma ScanNextColumn(c: Cell, dx: int)
      ensures |Scanned(c, dx, 2)| == |Scanned(c, dx + 1, -1)|
    {
      assert Scanned(c, dx, 2) == Scanned(c, dx + 1, -1);
    }

    /** How many of the offsets (dx, -1), ..., (dx, dy - 1) the inner loop
        counts. */
    function ColumnCount(c: Cell, dx: int, dy: int): (r: nat)
      decreases dy + 1
    {
      if dy <= -1 then 0 else ColumnCount(c, dx, dy - 1) + if CountsAt(c, dx, dy - 1) then 1 else 0
    }

    /** How many of the offsets in the columns -1, ..., dx - 1 the loops
        count. */
    function ScanCount(c: Cell, dx: int): (r: nat)
      decreases dx + 1
    {
      if dx <= -1 then 0 else ScanCount(c, dx - 1) + ColumnCount(c, dx - 1, 2)
    }

    /** The running count of the nested loop is the number of mines among
        the neighbours visited so far. */
    lemma {:induction false} ScanMatches(c: Cell, dx: int, dy: int)
      requires -1 <= dx <= 2 && -1 <= dy <= 2
      requires dx == 2 ==> dy == -1
      ensures ScanCount(c, dx) + ColumnCount(c, dx, dy) == |Scanned(c, dx, dy)|
      decreases dx + 1, dy + 1
    {
      if dy > -1 {
        ScanMatches(c, dx, dy - 1);
        ScanStep(c, dx, dy - 1);
      } else if dx > -1 {
        ScanMatches(c, dx - 1, 2);
        ScanNextColumn(c, dx - 1);
      } else {
        assert Scanned(c, -1, -1) == {};
      }
    }

    /** Once all nine offsets are visited, the count is that of the
        neighbouring mines. */
    lemma ScanComplete(c: Cell)
      ensures ScanCount(c, 2) == |MinesAround(c)|
    {
      ScanMatches(c, 2, -1);
      assert Scanned(c, 2, -1) == MinesAround(c);
    }

    /** No cell has more than eight neighbours. */
    lemma AtMostEightNeighbours(c: Cell)
      ensures |MinesAround(c)| <= |Neighbours(c)| <= 8
    {
      var (x, y) := c;
      var ring := {(x - 1, y - 1), (x - 1, y), (x - 1, y + 1), (x, y - 1),
                   (x, y + 1), (x + 1, y - 1), (x + 1, y), (x + 1, y + 1)};
      assert |ring| <= 8;
      assert Neighbours(c) <= ring;
      SubsetSize(Neighbours(c), ring);
      SubsetSize(MinesAround(c), Neighbours(c));
    }

    /** count_mines_nearby: visits the nine offsets dx, dy in [-1, 1],
        skips (0, 0) and the cells off the board, and counts those whose
        index is a mine. The count is the number of neighbouring mines, at
        most 8. */
    method CountMinesNearby(x: int, y: int) returns (count: int)
      ensures count == |MinesAround((x, y))|
      ensures 0 <= count <= 8
    {
      ghost var c := (x, y);
      count := 0;
      for dx := -1 to 2
        invariant count == ScanCount(c, dx)
      {
        for dy := -1 to 2
          invariant count == ScanCount(c, dx) + ColumnCount(c, dx, dy)
        {
          if !(dx == 0 && dy == 0) {
            var nx, ny := x + dx, y + dy;
            if 0 <= nx < width && 0 <= ny < height {
              if ny * width + nx in mines {
                count := count + 1;
              }
            }
          }
        }
      }
      ScanComplete(c);
      AtMostEightNeighbours(c);
    }

    // -------------------------------------------------------------------
    // reveal
    // -------------------------------------------------------------------

    /** No neighbour of c is a mine: the cells the flood fill expands. */
    ghost predicate Clear(c: Cell) {
      MinesAround(c) == {}
    }

    /** A neighbour of a Clear cell is not a mine, so revealing it succeeds. */
    lemma ClearNeighbourIsSafe(c: Cell, n: Cell)
      requires Clear(c) && n in Neighbours(c)
      ensures Index(n.0, n.1) !in mines
    {
      assert n !in MinesAround(c);
    }

    /** p walks from cell to neighbouring cell over cells that were not
        revealed in `before`, and every cell it leaves is Clear. */
    ghost predicate FloodPath(p: seq<Cell>, before: set<Cell>) {
      |p| > 0 &&
      (forall i :: 0 <= i < |p| ==> p[i] in Grid() && p[i] !in before) &&
      (forall i :: 0 <= i < |p| - 1 ==> Clear(p[i]) && p[i + 1] in Neighbours(p[i]))
    }

    /** The flood fill started at s can reach c when `before` was the set
        of revealed cells. */
    ghost predicate Reaches(s: Cell, c: Cell, before: set<Cell>) {
      exists p :: FloodPath(p, before) && p[0] == s && p[|p| - 1] == c
    }

    lemma ReachesItself(s: Cell, before: set<Cell>)
      requires s in Grid() && s !in before
      ensures Reaches(s, s, before)
    {
      assert FloodPath([s], before);
    }

    /** A step from a Clear cell to a neighbour, followed by a walk that
        avoids a larger revealed set, is a walk from that cell. */
    lemma ReachesThrough(s: Cell, n: Cell, c: Cell, before: set<Cell>, mid: set<Cell>)
      requires s in Grid() && s !in before && Clear(s) && n in Neighbours(s)
      requires before <= mid && Reaches(n, c, mid)
      ensures Reaches(s, c, before)
    {
      var p :| FloodPath(p, mid) && p[0] == n && p[|p| - 1] == c;
      var q := [s] + p;
      forall i | 0 <= i < |q| - 1
        ensures Clear(q[i]) && q[i + 1] in Neighbours(q[i])
      {
        if i > 0 {
          assert q[i] == p[i - 1] && q[i + 1] == p[i];
        }
      }
      assert FloodPath(q, before);
    }

    /** What a reveal of neighbour n of s adds to mid is reachable from s. */
    lemma ReachesAllThrough(s: Cell, n: Cell, before: set<Cell>, mid: set<Cell>, now: set<Cell>)
      requires s in Grid() && s !in before && Clear(s) && n in Neighbours(s) && before <= mid
      requires forall c :: c in now - mid ==> Reaches(n, c, mid)
      ensures forall c :: c in now - mid ==> Reaches(s, c, before)
    {
      forall c | c in now - mid
        ensures Reaches(s, c, before)
      {
        ReachesThrough(s, n, c, before, mid);
      }
    }

    /** When every newly revealed Clear cell has its neighbours revealed,
        a flood path that starts at a revealed cell stays revealed. */
    lemma {:induction false} FloodPathShown(p: seq<Cell>, before: set<Cell>, now: set<Cell>)
      requires FloodPath(p, before) && p[0] in now
      requires forall c :: c in now - before && Clear(c) ==> Neighbours(c) <= now
      ensures forall i :: 0 <= i < |p| ==> p[i] in now
      decreases |p|
    {
      if |p| > 1 {
        assert p[1] in Neighbours(p[0]);
        var q := p[1..];
        assert forall i :: 0 <= i < |q| ==> q[i] == p[i + 1];
        assert FloodPath(q, before);
        FloodPathShown(q, before, now);
      }
    }

    /** What reveal guarantees pins the new cells down: they are exactly
        the cells the flood fill from s reaches. */
    lemma FloodFillExact(s: Cell, before: set<Cell>, now: set<Cell>)
      requires s in now
      requires forall c :: c in now - before && Clear(c) ==> Neighbours(c) <= now
      requires forall c :: c in now - before ==> Reaches(s, c, before)
      ensures forall c :: c in now - before <==> Reaches(s, c, before)
    {
      forall c | Reaches(s, c, before)
        ensures c in now - before
      {
        var p :| FloodPath(p, before) && p[0] == s && p[|p| - 1] == c;
        FloodPathShown(p, before, now);
      }
    }

    /** Every on-board cell at an offset of c in [-1, 1] x [-1, 1] that
        the nested loop of reveal visits before (dx, dy) is in s. */
    ghost predicate Covered(c: Cell, dx: int, dy: int, s: set<Cell>) {
      forall a, b ::
        InBounds(a, b) && c.0 - 1 <= a <= c.0 + 1 && c.1 - 1 <= b <= c.1 + 1 &&
        (a - c.0 < dx || (a - c.0 == dx && b - c.1 < dy))
        ==> (a, b) in s
    }

    /** Visiting offset (dx, dy) keeps the covered cells revealed and adds
        the visited one. */
    lemma CoverStep(c: Cell, dx: int, dy: int, s: set<Cell>, t: set<Cell>)
      requires -1 <= dx <= 1 && -1 <= dy <= 1 && Covered(c, dx, dy, s) && s <= t
      requires InBounds(c.0 + dx, c.1 + dy) ==> (c.0 + dx, c.1 + dy) in t
      ensures Covered(c, dx, dy + 1, t)
    {
    }

    lemma CoverNextColumn(c: Cell, dx: int, s: set<Cell>)
      requires Covered(c, dx, 2, s)
      ensures Covered(c, dx + 1, -1, s)
    {
    }

    lemma CoverAll(c: Cell, s: set<Cell>)
      requires Covered(c, 2, -1, s)
      ensures Neighbours(c) <= s
    {
    }

    /** reveal(x, y) on a cell of the board. A mine answers false and
        changes nothing. A safe cell answers true; if it was already
        revealed nothing changes. Otherwise it is revealed, the counter
        grows by one per flag turned on, and when none of its neighbours is
        a mine every unrevealed neighbour is revealed in turn (Cascade).
        Afterwards the cells newly revealed are exactly those the flood fill
        reaches: each is reachable from (x, y), and every Clear one has all
        its neighbours revealed. */
    method Reveal(x: int, y: int) returns (ok: bool)
      requires Valid()
      requires InBounds(x, y)
      modifies this, revealed
      decreases Grid() - Shown, 0
      ensures Valid()
      ensures ok <==> Index(x, y) !in mines
      ensures old(Shown) <= Shown
      ensures ok ==> (x, y) in Shown
      ensures !ok || (x, y) in old(Shown) ==>
        Shown == old(Shown) && unchanged(revealed) && revealedCells == old(revealedCells)
      ensures revealedCells == old(revealedCells) + |Shown - old(Shown)|
      ensures forall c :: c in Shown - old(Shown) && Clear(c) ==> Neighbours(c) <= Shown
      ensures forall c :: c in Shown - old(Shown) ==> Reaches((x, y), c, old(Shown))
    {
      if Index(x, y) in mines {
        return false;
      }
      if !revealed[y, x] {
        revealed[y, x] := true;
        Shown := Shown + {(x, y)};
        revealedCells := revealedCells + 1;
        ReachesItself((x, y), old(Shown));
        var around := CountMinesNearby(x, y);
        if around == 0 {
          assert (x, y) in Grid() - old(Shown);
          Cascade(x, y, old(Shown));
        }
      }
      SubsetSize(old(Shown), Shown);
      return true;
    }

    /** The outer loop of reveal's cascade, over dx in [-1, 1], from a
        revealed Clear cell (x, y): every neighbour on the board that is
        still unrevealed gets revealed recursively. `before` is the set of
        revealed cells when the reveal of (x, y) began. */
    method Cascade(x: int, y: int, ghost before: set<Cell>)
      requires Valid()
      requires InBounds(x, y) && (x, y) in Shown && Clear((x, y))
      requires (x, y) !in before && before <= Shown
      modifies this, revealed
      decreases Grid() - Shown, 2
      ensures Valid()
      ensures old(Shown) <= Shown
      ensures Neighbours((x, y)) <= Shown
      ensures forall c :: c in Shown - old(Shown) && Clear(c) ==> Neighbours(c) <= Shown
      ensures forall c :: c in Shown - old(Shown) ==> Reaches((x, y), c, before)
    {
      for dx := -1 to 2
        invariant Valid()
        invariant old(Shown) <= Shown
        invariant Covered((x, y), dx, -1, Shown)
        invariant forall c :: c in Shown - old(Shown) && Clear(c) ==> Neighbours(c) <= Shown
        invariant forall c :: c in Shown - old(Shown) ==> Reaches((x, y), c, before)
      {
        CascadeColumn(x, y, dx, before);
      }
      CoverAll((x, y), Shown);
    }

    /** The inner loop of reveal's cascade, over dy in [-1, 1] for one dx:
        reveal (x + dx, y + dy) when it is on the board and unrevealed. */
    method CascadeColumn(x: int, y: int, dx: int, ghost before: set<Cell>)
      requires Valid()
      requires InBounds(x, y) && (x, y) in Shown && Clear((x, y))
      requires (x, y) !in before && before <= Shown
      requires -1 <= dx <= 1 && Covered((x, y), dx, -1, Shown)
      modifies this, revealed
      decreases Grid() - Shown, 1
      ensures Valid()
      ensures old(Shown) <= Shown
      ensures Covered((x, y), dx + 1, -1, Shown)
      ensures forall c :: c in Shown - old(Shown) && Clear(c) ==> Neighbours(c) <= Shown
      ensures forall c :: c in Shown - old(Shown) ==> Reaches((x, y), c, before)
    {
      for dy := -1 to 2
        invariant Valid()
        invariant old(Shown) <= Shown
        invariant Covered((x, y), dx, dy, Shown)
        invariant forall c :: c in Shown - old(Shown) && Clear(c) ==> Neighbours(c) <= Shown
        invariant forall c :: c in Shown - old(Shown) ==> Reaches((x, y), c, before)
      {
        var nx, ny := x + dx, y + dy;
        ghost var mid := Shown;
        if 0 <= nx < width && 0 <= ny < height && !revealed[ny, nx] {
          assert (nx, ny) in Neighbours((x, y));
          ClearNeighbourIsSafe((x, y), (nx, ny));
          var _ := Reveal(nx, ny);
          ReachesAllThrough((x, y), (nx, ny), before, mid, Shown);
          CoverStep((x, y), dx, dy, mid, Shown);
        } else {
          CoverStep((x, y), dx, dy, mid, Shown);
        }
      }
      CoverNextColumn((x, y), dx, Shown);
    }

    /** The counter is the number of true flags of the matrix: Shown is
        exactly the set of flagged cells, and it contains no mine. */
    lemma CounterCountsFlags()
      requires Valid()
      ensures revealedCells == |set x, y | 0 <= x < width && 0 <= y < height && revealed[y, x] :: (x, y)|
      ensures forall x, y :: InBounds(x, y) && revealed[y, x] ==> Index(x, y) !in mines
    {
      var flagged := set x, y | 0 <= x < width && 0 <= y < height && revealed[y, x] :: (x, y);
      assert flagged == Shown;
    }

    // -------------------------------------------------------------------
    // is_won
    // -------------------------------------------------------------------

    /** is_won: the counter has reached the number of safe cells. */
    function IsWon(): (r: bool)
      reads this
    {
      revealedCells == totalCells - |mines|
    }

    /** The indices of the safe cells are the numbers below
        width * height that are not mines. */
    lemma SafeIndices()
      ensures Indices(SafeCells(), width) == Range(width * height) - mines
    {
      var n := width * height;
      forall c | c in SafeCells() ensures c.1 * width + c.0 in Range(n) {
        IndexInRange(c.0, c.1, width, height);
      }
      forall i | i in Range(n) - mines ensures i in Indices(SafeCells(), width) {
        IndexOnto(i, width, height);
        var c := (i % width, i / width);
        assert c in Grid();
        assert c in SafeCells();
      }
    }

    /** The board has width * height - |mines| safe cells. */
    lemma SafeCellsSize()
      requires Valid()
      ensures |SafeCells()| == width * height - |mines|
    {
      SafeIndices();
      IndicesSize(SafeCells(), width);
      RangeSize(width * height);
      SubsetSize(mines, Range(width * height));
    }

    /** The game is won exactly when every cell that is not a mine has been
        revealed. */
    lemma WonIffSafeCellsRevealed()
      requires Valid()
      ensures IsWon() <==> Shown == SafeCells()
      ensures IsWon() <==> forall x, y :: InBounds(x, y) && Index(x, y) !in mines ==> revealed[y, x]
    {
      SafeCellsSize();
      SubsetSize(Shown, SafeCells());
      if forall x, y :: InBounds(x, y) && Index(x, y) !in mines ==> revealed[y, x] {
        forall c | c in SafeCells() ensures c in Shown {
          assert InBounds(c.0, c.1);
        }
      }
    }
  }
}
