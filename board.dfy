/**
 The playfield of the falling-block game as values: a grid of rows of
 cells (0 is empty), the seven piece shapes, and the specifications of
 the grid operations of the game object (collision test, merging a
 landed piece, clearing full rows, pushing penalty rows).
 */
module Board {
  import opened Wrappers

  const COLS: nat := 10
  const ROWS: nat := 20
  /** Cell value of a penalty row. */
  const PENALTY: int := 8

  type Row = seq<int>
  type Grid = seq<Row>
  type Shape = seq<seq<int>>

  datatype Pos = Pos(x: int, y: int)

  datatype Piece = Piece(kind: int, shape: Shape, pos: Pos)

  /** Every row of `g` has `width` cells. */
  predicate Rect(g: Grid, width: nat)
  {
    forall r :: 0 <= r < |g| ==> |g[r]| == width
  }

  /** The grid a new game starts with: ROWS rows of COLS empty cells. */
  function EmptyGrid(): (g: Grid)
    ensures |g| == ROWS && Rect(g, COLS)
    ensures forall r, c :: 0 <= r < |g| && 0 <= c < |g[r]| ==> g[r][c] == 0
  {
    seq(ROWS, _ => seq(COLS, _ => 0))
  }

  /** The number of filled cells in a row. */
  function FilledCells(row: Row): nat
  {
    if row == [] then 0 else (if row[0] != 0 then 1 else 0) + FilledCells(row[1..])
  }

  /** The number of filled cells in a shape. */
  function ShapeCells(shape: Shape): nat
  {
    if shape == [] then 0 else FilledCells(shape[0]) + ShapeCells(shape[1..])
  }

  /** The shape of each piece kind (Z, S, J, L, T, I, O): one or two rows of 0/1 cells. */
  function ShapeOf(kind: int): (s: Shape)
    requires 1 <= kind <= 7
    ensures 1 <= |s| <= 2 && 2 <= |s[0]| <= 4
    ensures forall y :: 0 <= y < |s| ==> |s[y]| == |s[0]| && FilledCells(s[y]) > 0
    ensures forall y, x :: 0 <= y < |s| && 0 <= x < |s[y]| ==> s[y][x] == 0 || s[y][x] == 1
  {
    match kind
    case 1 => [[1, 1, 0], [0, 1, 1]]
    case 2 => [[0, 1, 1], [1, 1, 0]]
    case 3 => [[1, 0, 0], [1, 1, 1]]
    case 4 => [[0, 0, 1], [1, 1, 1]]
    case 5 => [[0, 1, 0], [1, 1, 1]]
    case 6 => [[1, 1, 1, 1]]
    case _ => [[1, 1], [1, 1]]
  }

  /** Every shape is a tetromino: four filled cells. */
  lemma ShapesHaveFourCells(kind: int)
    requires 1 <= kind <= 7
    ensures ShapeCells(ShapeOf(kind)) == 4
  {
    match kind
    case 1 => assert ShapeCells(ShapeOf(1)) == 4;
    case 2 => assert ShapeCells(ShapeOf(2)) == 4;
    case 3 => assert ShapeCells(ShapeOf(3)) == 4;
    case 4 => assert ShapeCells(ShapeOf(4)) == 4;
    case 5 => assert ShapeCells(ShapeOf(5)) == 4;
    case 6 => assert ShapeCells(ShapeOf(6)) == 4;
    case 7 => assert ShapeCells(ShapeOf(7)) == 4;
  }

  /** A new piece of the given kind, centred on the top row; the kind is the random choice of the game. */
  function SpawnPiece(kind: int): (p: Piece)
    requires 1 <= kind <= 7
    ensures p.kind == kind && p.shape == ShapeOf(kind) && p.pos.y == 0
    ensures 0 <= p.pos.x && p.pos.x + |p.shape[0]| <= COLS
    ensures -1 <= 2 * p.pos.x + |p.shape[0]| - COLS <= 1
  {
    Piece(kind, ShapeOf(kind), Pos(COLS / 2 - |ShapeOf(kind)[0]| / 2, 0))
  }

  /** `grid[r][c]`, None where JavaScript yields `undefined` (a missing row or column). */
  function Lookup(g: Grid, r: int, c: int): (v: Option<int>)
    ensures v.Some? <==> 0 <= r < |g| && 0 <= c < |g[r]|
  {
    if 0 <= r < |g| && 0 <= c < |g[r]| then Some(g[r][c]) else None
  }

  /** Shape cell (y, x) exists and is filled. */
  predicate Covers(shape: Shape, y: int, x: int)
  {
    0 <= y < |shape| && 0 <= x < |shape[y]| && shape[y][x] != 0
  }

  /** Some filled cell of the shape at `pos` is off the grid or on a filled grid cell. */
  ghost predicate Collides(g: Grid, shape: Shape, pos: Pos): (hit: bool)
    ensures !Fits(g, shape, pos) ==> hit
  {
    exists y, x :: Covers(shape, y, x) && Lookup(g, y + pos.y, x + pos.x) != Some(0)
  }

  /** Every filled cell of the shape at `pos` is on the grid. */
  ghost predicate Fits(g: Grid, shape: Shape, pos: Pos)
  {
    forall y, x :: Covers(shape, y, x) ==> Lookup(g, y + pos.y, x + pos.x).Some?
  }

  /** `row` with each filled cell of `cells` written at column offset `x`; the other cells keep their value. */
  function MergedRow(row: Row, cells: seq<int>, x: int): (r: Row)
    ensures |r| == |row|
  {
    seq(|row|, c requires 0 <= c < |row| =>
      if 0 <= c - x < |cells| && cells[c - x] != 0 then cells[c - x] else row[c])
  }

  /** The grid after writing each filled shape cell at its offset; every other cell keeps its value. */
  function Merged(g: Grid, shape: Shape, pos: Pos): (m: Grid)
    ensures |m| == |g|
    ensures forall r :: 0 <= r < |g| && !(0 <= r - pos.y < |shape|) ==> m[r] == g[r]
  {
    seq(|g|, r requires 0 <= r < |g| =>
      if 0 <= r - pos.y < |shape| then MergedRow(g[r], shape[r - pos.y], pos.x) else g[r])
  }

  /** Cell by cell, merging writes exactly the filled shape cells. */
  lemma MergedCell(g: Grid, shape: Shape, pos: Pos, r: int, c: int)
    requires 0 <= r < |g| && 0 <= c < |g[r]|
    ensures |Merged(g, shape, pos)[r]| == |g[r]|
    ensures Merged(g, shape, pos)[r][c]
         == if Covers(shape, r - pos.y, c - pos.x) then shape[r - pos.y][c - pos.x] else g[r][c]
  {
  }

  /** A row with no empty cell. */
  predicate Full(row: Row)
  {
    forall c :: 0 <= c < |row| ==> row[c] != 0
  }

  /** `row.fill(0)` */
  function Blank(row: Row): (b: Row)
    ensures |b| == |row|
    ensures forall c :: 0 <= c < |b| ==> b[c] == 0
  {
    seq(|row|, _ => 0)
  }

  function Blanked(rows: seq<Row>): (r: seq<Row>)
    ensures |r| == |rows|
    ensures forall i :: 0 <= i < |rows| ==> r[i] == Blank(rows[i])
  {
    seq(|rows|, i requires 0 <= i < |rows| => Blank(rows[i]))
  }

  /** The full rows of `g`, top to bottom. */
  function FullRows(g: Grid): (r: seq<Row>)
    ensures |r| <= |g|
  {
    if |g| == 0 then [] else (if Full(g[0]) then [g[0]] else []) + FullRows(g[1..])
  }

  /** The rows of `g` that are not full, top to bottom. */
  function NonFullRows(g: Grid): (r: seq<Row>)
    ensures |r| <= |g|
  {
    if |g| == 0 then [] else (if Full(g[0]) then [] else [g[0]]) + NonFullRows(g[1..])
  }

  /**
   The grid after clearing: the full rows, emptied, on top in their old
   relative order, then the other rows in their old order.
   */
  function Cleared(g: Grid): (c: Grid)
    ensures |c| == |g|
  {
    PartitionSize(g);
    Blanked(FullRows(g)) + NonFullRows(g)
  }

  function PenaltyRow(): (row: Row)
    ensures |row| == COLS && Full(row)
  {
    seq(COLS, _ => PENALTY)
  }

  function PenaltyRows(n: nat): (rows: seq<Row>)
    ensures |rows| == n
    ensures forall i :: 0 <= i < n ==> rows[i] == PenaltyRow()
  {
    seq(n, _ => PenaltyRow())
  }

  /** How many rows `grid.splice(0, count)` removes from a grid of `len` rows. */
  function SpliceCount(count: int, len: nat): (n: nat)
    ensures n <= len
    ensures 0 <= count <= len ==> n == count
  {
    if count < 0 then 0 else if count > len then len else count
  }

  /** The grid after removing `count` rows from the top and pushing `count` penalty rows. */
  function PenaltyShifted(g: Grid, count: int): (p: Grid)
    ensures |p| >= |g|
    ensures count <= |g| ==> |p| == |g|
    ensures forall i :: 0 <= i < |p| && i >= |p| - count ==> p[i] == PenaltyRow()
  {
    g[SpliceCount(count, |g|)..] + PenaltyRows(if count < 0 then 0 else count)
  }

  // ---------------------------------------------------------------- pieces

  /** Every spawned piece fits a grid of at least two rows of COLS cells. */
  lemma SpawnFits(g: Grid, kind: int)
    requires 1 <= kind <= 7
    requires |g| >= 2 && Rect(g, COLS)
    ensures Fits(g, SpawnPiece(kind).shape, SpawnPiece(kind).pos)
  {
    var p := SpawnPiece(kind);
    forall y, x | Covers(p.shape, y, x) ensures Lookup(g, y + p.pos.y, x + p.pos.x).Some? {
      assert |p.shape| <= 2;
      assert |p.shape[y]| == |p.shape[0]| <= 4;
      assert 0 <= x + p.pos.x < COLS;
    }
  }

  /** A position where the piece does not collide is one where it fits. */
  lemma NoCollisionFits(g: Grid, shape: Shape, pos: Pos)
    requires !Collides(g, shape, pos)
    ensures Fits(g, shape, pos)
  {
  }

  /** Fitting depends only on the grid's size: a grid as wide with at least as many rows fits it too. */
  lemma FitsTaller(g: Grid, g': Grid, width: nat, shape: Shape, pos: Pos)
    requires Rect(g, width) && Rect(g', width) && |g| <= |g'|
    requires Fits(g, shape, pos)
    ensures Fits(g', shape, pos)
  {
    forall y, x | Covers(shape, y, x) ensures Lookup(g', y + pos.y, x + pos.x).Some? {
      assert Lookup(g, y + pos.y, x + pos.x).Some?;
    }
  }

  /** Merging keeps the grid's dimensions. */
  lemma MergedDims(g: Grid, shape: Shape, pos: Pos, width: nat)
    requires Rect(g, width)
    ensures |Merged(g, shape, pos)| == |g| && Rect(Merged(g, shape, pos), width)
  {
    var m := Merged(g, shape, pos);
    forall r | 0 <= r < |m| ensures |m[r]| == width {
      assert |m[r]| == |g[r]|;
    }
  }

  /** A merged piece with at least one filled cell collides where it landed. */
  lemma MergedCollides(g: Grid, shape: Shape, pos: Pos, y: int, x: int)
    requires Fits(g, shape, pos) && Covers(shape, y, x)
    ensures Collides(Merged(g, shape, pos), shape, pos)
  {
    var m := Merged(g, shape, pos);
    assert Lookup(g, y + pos.y, x + pos.x).Some?;
    MergedCell(g, shape, pos, y + pos.y, x + pos.x);
    assert Lookup(m, y + pos.y, x + pos.x) == Some(shape[y][x]);
  }

  // ---------------------------------------------------------------- clearing

  /** Every row goes to exactly one of the two partitions. */
  lemma {:induction false} PartitionSize(g: Grid)
    ensures |FullRows(g)| + |NonFullRows(g)| == |g|
  {
    if |g| > 0 {
      PartitionSize(g[1..]);
    }
  }

  /** Partitioning distributes over concatenation. */
  lemma {:induction false} FullRowsAppend(a: Grid, b: Grid)
    ensures FullRows(a + b) == FullRows(a) + FullRows(b)
  {
    if |a| == 0 {
      assert a + b == b;
    } else {
      var head := if Full(a[0]) then [a[0]] else [];
      assert (a + b)[0] == a[0];
      assert (a + b)[1..] == a[1..] + b;
      FullRowsAppend(a[1..], b);
      calc {
        FullRows(a + b);
        head + FullRows(a[1..] + b);
        head + (FullRows(a[1..]) + FullRows(b));
        (head + FullRows(a[1..])) + FullRows(b);
      }
    }
  }

  /** A grid without full rows is its own non-full partition. */
  lemma {:induction false} NoFullRowsKept(g: Grid)
    requires forall i :: 0 <= i < |g| ==> !Full(g[i])
    ensures FullRows(g) == [] && NonFullRows(g) == g
  {
    if |g| > 0 {
      NoFullRowsKept(g[1..]);
      assert g == [g[0]] + g[1..];
    }
  }

  /** Each row of either partition is a row of the grid, full or not full as the partition says. */
  lemma {:induction false} PartitionFromGrid(g: Grid)
    ensures forall i :: 0 <= i < |FullRows(g)| ==> Full(FullRows(g)[i]) && FullRows(g)[i] in g
    ensures forall i :: 0 <= i < |NonFullRows(g)| ==> !Full(NonFullRows(g)[i]) && NonFullRows(g)[i] in g
  {
    if |g| > 0 {
      PartitionFromGrid(g[1..]);
      assert g == [g[0]] + g[1..];
    }
  }

  /**
   Clearing keeps the number of rows and each row's width; afterwards no row
   is full; the non-full rows keep their order at the bottom; the rows above
   them are empty, one for each row that was full.
   */
  lemma ClearedProperties(g: Grid, width: nat)
    requires width > 0 && Rect(g, width)
    ensures var c := Cleared(g); var k := |FullRows(g)|;
      && |c| == |g|
      && Rect(c, width)
      && (forall i :: 0 <= i < |c| ==> !Full(c[i]))
      && c[k..] == NonFullRows(g)
      && (forall i, j :: 0 <= i < k && 0 <= j < |c[i]| ==> c[i][j] == 0)
  {
    ClearedDims(g, width);
    ClearedNoFull(g);
  }

  /** Clearing keeps the number of rows and each row's width. */
  lemma ClearedDims(g: Grid, width: nat)
    requires Rect(g, width)
    ensures |Cleared(g)| == |g| && Rect(Cleared(g), width)
  {
    PartitionSize(g);
    PartitionFromGrid(g);
    var c := Cleared(g);
    var k := |FullRows(g)|;
    forall i | 0 <= i < |c| ensures |c[i]| == width {
      if i < k {
        assert c[i] == Blank(FullRows(g)[i]);
        assert FullRows(g)[i] in g;
      } else {
        assert c[i] == NonFullRows(g)[i - k];
        assert NonFullRows(g)[i - k] in g;
      }
    }
  }

  /** When no row is empty, no row is full after clearing. */
  lemma ClearedNoFull(g: Grid)
    requires forall r :: 0 <= r < |g| ==> |g[r]| > 0
    ensures forall i :: 0 <= i < |Cleared(g)| ==> !Full(Cleared(g)[i])
  {
    PartitionFromGrid(g);
    var c := Cleared(g);
    var k := |FullRows(g)|;
    forall i | 0 <= i < k ensures !Full(c[i]) {
      assert c[i] == Blank(FullRows(g)[i]);
      assert FullRows(g)[i] in g;
      assert c[i][0] == 0;
    }
    forall i | k <= i < |c| ensures !Full(c[i]) {
      assert c[i] == NonFullRows(g)[i - k];
    }
  }

  /** Clearing a cleared grid changes nothing and clears no row. */
  lemma ClearedIdempotent(g: Grid)
    requires forall r :: 0 <= r < |g| ==> |g[r]| > 0
    ensures FullRows(Cleared(g)) == [] && Cleared(Cleared(g)) == Cleared(g)
  {
    ClearedNoFull(g);
    NoFullRowsFixed(Cleared(g));
  }

  /** A grid without full rows is left as it is by clearing. */
  lemma NoFullRowsFixed(c: Grid)
    requires forall i :: 0 <= i < |c| ==> !Full(c[i])
    ensures FullRows(c) == [] && Cleared(c) == c
  {
    NoFullRowsKept(c);
    assert Blanked([]) == [];
  }

  // ---------------------------------------------------------------- penalty rows

  /**
   For 0 <= n <= |g|: the row count is kept, the last n rows are penalty rows,
   and the old rows n.. now stand, in order, at the top.
   */
  lemma PenaltyShiftedProperties(g: Grid, n: int)
    requires 0 <= n <= |g|
    ensures var p := PenaltyShifted(g, n);
      && |p| == |g|
      && (forall i :: |g| - n <= i < |g| ==> p[i] == PenaltyRow())
      && p[..|g| - n] == g[n..]
  {
  }

  /** Penalties never shrink the grid, and on a COLS-wide grid keep it COLS wide. */
  lemma PenaltyShiftedDims(g: Grid, n: int)
    requires Rect(g, COLS)
    ensures |PenaltyShifted(g, n)| >= |g| && Rect(PenaltyShifted(g, n), COLS)
  {
    var p := PenaltyShifted(g, n);
    var top := g[SpliceCount(n, |g|)..];
    forall i | 0 <= i < |p| ensures |p[i]| == COLS {
      if i < |top| {
        assert p[i] == g[SpliceCount(n, |g|) + i];
      }
    }
  }

  /** A negative count changes nothing. */
  lemma PenaltyNegativeIsNoOp(g: Grid, n: int)
    requires n <= 0
    ensures PenaltyShifted(g, n) == g
  {
    assert PenaltyRows(0) == [];
  }

  /**
   Penalty rows have no empty cell, so the full rows of a penalised grid are
   the full rows left of the old grid followed by every penalty row: the next
   clearing removes each penalty row again and counts it as a cleared line.
   */
  lemma PenaltyRowsAreCleared(g: Grid, n: nat)
    ensures FullRows(PenaltyShifted(g, n)) == FullRows(g[SpliceCount(n, |g|)..]) + PenaltyRows(n)
  {
    var top := g[SpliceCount(n, |g|)..];
    FullRowsAppend(top, PenaltyRows(n));
    AllFull(PenaltyRows(n));
  }

  /** Merging only writes filled cells, so a full row stays full. */
  lemma MergedKeepsFull(g: Grid, shape: Shape, pos: Pos, r: int)
    requires 0 <= r < |g| && Full(g[r])
    ensures Full(Merged(g, shape, pos)[r])
  {
    forall c | 0 <= c < |Merged(g, shape, pos)[r]| ensures Merged(g, shape, pos)[r][c] != 0 {
      MergedCell(g, shape, pos, r, c);
    }
  }

  /** A grid whose rows are full wherever another's are has at least as many full rows. */
  lemma {:induction false} FullRowsGrow(a: Grid, b: Grid)
    requires |a| == |b|
    requires forall r :: 0 <= r < |a| && Full(a[r]) ==> Full(b[r])
    ensures |FullRows(b)| >= |FullRows(a)|
  {
    if |a| > 0 {
      assert forall r :: 0 <= r < |a[1..]| ==> a[1..][r] == a[r + 1] && b[1..][r] == b[r + 1];
      FullRowsGrow(a[1..], b[1..]);
    }
  }

  /**
   Wherever the next piece lands on a grid that received n penalty rows, the
   clearing after that landing finds at least n full rows.
   */
  lemma LandingClearsPenalties(g: Grid, n: nat, shape: Shape, pos: Pos)
    ensures |FullRows(Merged(PenaltyShifted(g, n), shape, pos))| >= n
  {
    var p := PenaltyShifted(g, n);
    PenaltyRowsAreCleared(g, n);
    forall r | 0 <= r < |p| && Full(p[r]) ensures Full(Merged(p, shape, pos)[r]) {
      MergedKeepsFull(p, shape, pos, r);
    }
    FullRowsGrow(p, Merged(p, shape, pos));
  }

  lemma {:induction false} AllFull(rows: seq<Row>)
    requires forall i :: 0 <= i < |rows| ==> Full(rows[i])
    ensures FullRows(rows) == rows
  {
    if |rows| > 0 {
      AllFull(rows[1..]);
      assert rows == [rows[0]] + rows[1..];
    }
  }
}
